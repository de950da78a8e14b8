/** The floating "compact" form of 256-bit targets: an exponent byte, a sign bit and 23 mantissa bits. */
module Compact {

  import opened Prelude
  import opened Bits
  import opened Limbs
  import opened Arith256

  const SIGN: nat := 0x80_0000
  const MANTISSA_LIMIT: nat := 0x100_0000

  /** Shifted right by whole bytes. */
  function ScaleDown(v: nat, k: nat): nat { if k == 0 then v else ScaleDown(v / 256, k - 1) }

  // ---------------------------------------------------------------- reading

  function Exponent(c: nat): nat { c / MANTISSA_LIMIT }

  function Word(c: nat): nat { c % SIGN }

  predicate SignBit(c: nat) { (c / SIGN) % 2 == 1 }

  /** The word after the right shift that small exponents apply. */
  function EffectiveWord(c: nat): nat
  {
    if Exponent(c) <= 3 then ScaleDown(Word(c), 3 - Exponent(c)) else Word(c)
  }

  /** The number a compact form denotes, with no bound on its size. */
  function Denoted(c: nat): nat
  {
    if Exponent(c) <= 3 then EffectiveWord(c) else Word(c) * Pow256(Exponent(c) - 3)
  }

  // ---------------------------------------------------------------- writing

  function ByteLength(v: nat): nat { if v == 0 then 0 else 1 + ByteLength(v / 256) }

  /** The three leading bytes. */
  function Leading(v: nat): nat
  {
    var n := ByteLength(v);
    if n <= 3 then v * Pow256(3 - n) else ScaleDown(v, n - 3)
  }

  /** Exponent and mantissa, with room for the sign bit. */
  function CompactExponent(v: nat): nat
  {
    if Leading(v) >= SIGN then ByteLength(v) + 1 else ByteLength(v)
  }

  function CompactMantissa(v: nat): nat
  {
    if Leading(v) >= SIGN then Leading(v) / 256 else Leading(v)
  }

  function CompactOf(v: nat, negative: bool): nat
  {
    CompactExponent(v) * MANTISSA_LIMIT + CompactMantissa(v)
    + if negative && CompactMantissa(v) != 0 then SIGN else 0
  }

  // ---------------------------------------------------------------- byte lengths

  lemma {:induction false} ByteLengthBounds(v: nat)
    ensures v < Pow256(ByteLength(v))
    ensures v > 0 ==> Pow256(ByteLength(v) - 1) <= v
    decreases v
  {
    if v == 0 {
    } else {
      ByteLengthBounds(v / 256);
      if v / 256 == 0 { assert ByteLength(v) == 1; }
    }
  }

  lemma ByteLengthUnique(v: nat, n: nat)
    requires n > 0 && Pow256(n - 1) <= v < Pow256(n)
    ensures ByteLength(v) == n
  {
    hide ByteLength, Pow256;
    ByteLengthBounds(v);
    ByteLengthZero();
    var k := ByteLength(v);
    if k < n { Pow256Monotone(k, n - 1); }
    if k > n { Pow256Monotone(n, k - 1); }
  }

  lemma ByteLengthZero()
    ensures ByteLength(0) == 0
    ensures forall v: nat :: v > 0 ==> ByteLength(v) > 0
  {
  }

  lemma {:induction false} Pow256IsPow2(n: nat)
    ensures Pow256(n) == Pow2(8 * n)
  {
    hide Pow2;
    if n == 0 {
      OnePow2();
    } else {
      Pow256IsPow2(n - 1);
      SmallPow2();
      Pow2Sum(8, 8 * (n - 1));
    }
  }

  /** Rounding the bit length up to bytes. */
  lemma BytesFromBits(v: nat, bits: nat)
    requires (bits == 0 <==> v == 0) && (bits > 0 ==> Pow2(bits - 1) <= v < Pow2(bits))
    ensures (bits + 7) / 8 == ByteLength(v)
  {
    hide Pow2, Pow256, ByteLength;
    ByteLengthZero();
    if bits > 0 {
      var n := (bits + 7) / 8;
      Pow256IsPow2(n);
      Pow256IsPow2(n - 1);
      Pow2Monotone(8 * (n - 1), bits - 1);
      Pow2Monotone(bits, 8 * n);
      ByteLengthUnique(v, n);
    }
  }

  lemma SmallPow256()
    ensures Pow256(0) == 1 && Pow256(1) == 256 && Pow256(2) == 0x1_0000 && Pow256(3) == 0x100_0000
  {
  }

  lemma {:induction false} Pow256Sum(a: nat, b: nat)
    ensures Pow256(a + b) == Pow256(a) * Pow256(b)
  {
    if a == 0 {
    } else {
      Pow256Sum(a - 1, b);
      MulAssoc(256, Pow256(a - 1), Pow256(b));
    }
  }

  // ---------------------------------------------------------------- leading bytes

  lemma LeadingSmall(v: nat)
    requires ByteLength(v) <= 3
    ensures Leading(v) < MANTISSA_LIMIT
    ensures v > 0 ==> Leading(v) >= 0x1_0000
  {
    hide ByteLength, Pow256;
    SmallPow256();
    ByteLengthBounds(v);
    ByteLengthZero();
  }

  /** Above three bytes, the leading ones are a quotient that starts with a nonzero byte. */
  lemma LeadingLarge(v: nat)
    requires ByteLength(v) > 3
    ensures 0x1_0000 <= Leading(v) < MANTISSA_LIMIT
    ensures Leading(v) * Pow256(ByteLength(v) - 3) <= v < (Leading(v) + 1) * Pow256(ByteLength(v) - 3)
  {
    hide ByteLength, Pow256;
    var n := ByteLength(v);
    var p := Pow256(n - 3);
    SmallPow256();
    ByteLengthBounds(v);
    ByteLengthZero();
    Pow256Sum(2, n - 3);
    Pow256Sum(3, n - 3);
    ScaleDownBounds(v, n - 3);
    QuotientBounds(v, p, ScaleDown(v, n - 3), 0x1_0000, MANTISSA_LIMIT);
  }

  lemma {:induction false} ScaleDownBounds(v: nat, k: nat)
    ensures ScaleDown(v, k) * Pow256(k) <= v < (ScaleDown(v, k) + 1) * Pow256(k)
    decreases k
  {
    if k == 0 {
    } else {
      ScaleDownBounds(v / 256, k - 1);
      var q, p := ScaleDown(v, k), Pow256(k - 1);
      MulRotate(q, 256, p);
      MulRotate(q + 1, 256, p);
    }
  }

  lemma QuotientBounds(v: nat, p: nat, q: nat, lo: nat, hi: nat)
    requires p > 0 && lo * p <= v < hi * p && q * p <= v < (q + 1) * p
    ensures lo <= q < hi
  {
    if q < lo { MulLe(p, q + 1, lo); } else if q >= hi { MulLe(p, hi, q); }
  }

  /** Scaling down is division. */
  lemma ScaleDownIs(v: nat, k: nat, q: nat, r: nat)
    requires v == q * Pow256(k) + r && r < Pow256(k)
    ensures ScaleDown(v, k) == q
  {
    hide ScaleDown, Pow256;
    var q' := ScaleDown(v, k);
    ScaleDownBounds(v, k);
    Scale(q', 1, Pow256(k));
    QuotientsEqual(Pow256(k), q, r, q', v - q' * Pow256(k));
  }

  lemma LeadingBound(v: nat)
    ensures Leading(v) < MANTISSA_LIMIT && (v > 0 ==> Leading(v) >= 0x1_0000)
  {
    hide Leading;
    if ByteLength(v) <= 3 { LeadingSmall(v); } else { LeadingLarge(v); }
  }

  lemma ZeroCompact(negative: bool)
    ensures CompactOf(0, negative) == 0 && Denoted(0) == 0 && CompactExponent(0) == 0 && CompactMantissa(0) == 0
    ensures Leading(0) == 0
  {
    SmallPow256();
  }

  // ---------------------------------------------------------------- writing and reading back

  /** The two assertions of the writer, and the three fields it packs, with either sign. */
  lemma CompactFields(v: nat, negative: bool)
    requires ByteLength(v) <= 32
    ensures CompactMantissa(v) < SIGN && CompactExponent(v) < 256 && (CompactMantissa(v) != 0 <==> v != 0)
    ensures Exponent(CompactOf(v, negative)) == CompactExponent(v)
    ensures Word(CompactOf(v, negative)) == CompactMantissa(v)
    ensures SignBit(CompactOf(v, negative)) <==> negative && v != 0
  {
    hide Leading, ByteLength;
    LeadingBound(v);
    if v == 0 { ZeroCompact(negative); }
    Fields(CompactExponent(v), CompactMantissa(v));
  }

  lemma Fields(e: nat, m: nat)
    requires m < SIGN
    ensures Exponent(e * MANTISSA_LIMIT + m) == e && Word(e * MANTISSA_LIMIT + m) == m
    ensures !SignBit(e * MANTISSA_LIMIT + m)
    ensures Exponent(e * MANTISSA_LIMIT + m + SIGN) == e && Word(e * MANTISSA_LIMIT + m + SIGN) == m
    ensures SignBit(e * MANTISSA_LIMIT + m + SIGN)
  {
    var c, d := e * MANTISSA_LIMIT + m, e * MANTISSA_LIMIT + m + SIGN;
    DivModUnique(c, MANTISSA_LIMIT, e, m);
    DivModUnique(c, SIGN, 2 * e, m);
    DivModUnique(d, MANTISSA_LIMIT, e, m + SIGN);
    DivModUnique(d, SIGN, 2 * e + 1, m);
  }

  /** The value kept: the leading bytes, without the last of them when the sign bit is in the way. */
  function Kept(v: nat): nat
  {
    if ByteLength(v) <= 2 then v
    else if Leading(v) >= SIGN then (Leading(v) / 256) * 256 * Pow256(ByteLength(v) - 3)
    else Leading(v) * Pow256(ByteLength(v) - 3)
  }

  lemma SmallScale(v: nat)
    ensures ScaleDown(v, 0) == v && ScaleDown(v, 1) == v / 256 && ScaleDown(v, 2) == v / 256 / 256
  {
  }

  lemma ReadBackSmall(v: nat, negative: bool)
    requires 0 < ByteLength(v) <= 3
    ensures Denoted(CompactOf(v, negative)) == Kept(v)
  {
    hide ByteLength, Word, Exponent, CompactOf, Pow256, ScaleDown;
    SmallPow256();
    CompactFields(v, negative);
    LeadingSmall(v);
    ByteLengthBounds(v);
    SmallScale(CompactMantissa(v));
  }

  lemma ReadBackLarge(v: nat, negative: bool)
    requires 3 < ByteLength(v) <= 32
    ensures Denoted(CompactOf(v, negative)) == Kept(v)
  {
    hide ByteLength, Word, Exponent, CompactOf, Pow256, Leading;
    CompactFields(v, negative);
    var n := ByteLength(v);
    if Leading(v) >= SIGN {
      Pow256Sum(1, n - 3);
      SmallPow256();
      MulAssoc(Leading(v) / 256, 256, Pow256(n - 3));
    }
  }

  lemma ReadBack(v: nat, negative: bool)
    requires ByteLength(v) <= 32
    ensures Denoted(CompactOf(v, negative)) == Kept(v)
  {
    hide Denoted, CompactOf, Kept, ByteLength;
    ByteLengthZero();
    if v == 0 {
      ZeroCompact(negative);
      KeptZero();
    } else if ByteLength(v) <= 3 {
      ReadBackSmall(v, negative);
    } else {
      ReadBackLarge(v, negative);
    }
  }

  lemma KeptZero()
    ensures Kept(0) == 0
  {
  }

  /** What is lost is less than one unit of the mantissa that is kept. */
  lemma KeptError(v: nat)
    ensures Kept(v) <= v && (v > 0 ==> (v - Kept(v)) * 0x8000 < v)
  {
    hide ByteLength, Pow256, Leading;
    var n := ByteLength(v);
    if n >= 3 {
      var p := Pow256(n - 3);
      if n == 3 { LeadingThree(v); } else { LeadingLarge(v); }
      LeadingBound(v);
      ByteLengthZero();
      ErrorStep(v, Leading(v), p);
    }
  }

  lemma LeadingThree(v: nat)
    requires ByteLength(v) == 3
    ensures Leading(v) == v && Pow256(0) == 1
    ensures Leading(v) * Pow256(0) <= v < (Leading(v) + 1) * Pow256(0)
  {
    hide ByteLength;
  }

  lemma ErrorStep(v: nat, q: nat, p: nat)
    requires p > 0 && q * p <= v < (q + 1) * p && q >= 0x1_0000
    ensures q * p <= v && (v - q * p) * 0x8000 < v
    ensures q >= SIGN ==> (q / 256) * 256 * p <= v && (v - (q / 256) * 256 * p) * 0x8000 < v
  {
    Scale(q, 1, p);
    MulLe(p, 0x1_0000, q);
    if q >= SIGN { DroppedByte(v, q, (q / 256) * 256, p); }
  }

  lemma DroppedByte(v: nat, q: nat, h: nat, p: nat)
    requires p > 0 && q * p <= v < (q + 1) * p && h <= q < h + 256 && h >= SIGN
    ensures h * p <= v && (v - h * p) * 0x8000 < v
  {
    MulLe(p, h, q);
    MulLe(p, q + 1, h + 256);
    Scale(h, 256, p);
    MulLe(p, SIGN, h);
  }

  /**
   * Reading back loses less than one part in 2^15, gives the sign of a nonzero value and no overflow,
   * and writing again changes nothing.
   */
  lemma CompactRoundTrip(v: nat, negative: bool)
    requires v < Pow256(32)
    ensures var c := CompactOf(v, negative);
            && Denoted(c) <= v && (v > 0 ==> (v - Denoted(c)) * 0x8000 < v)
            && (EffectiveWord(c) != 0 && SignBit(c) <==> negative && v != 0) && !Overflows(c)
            && CompactOf(Denoted(c), negative) == c
  {
    hide Denoted, CompactOf, Kept, ByteLength, SignBit, EffectiveWord, Overflows, Pow256;
    OverflowIff(CompactOf(v, negative));
    WithinBytes(v, 32);
    ReadBack(v, negative);
    KeptError(v);
    CompactFields(v, negative);
    KeptFixed(v, negative);
    NonzeroWord(CompactOf(v, negative));
  }

  lemma NonzeroWord(c: nat)
    ensures Denoted(c) > 0 ==> EffectiveWord(c) != 0
  {
    hide Pow256, ScaleDown;
  }

  lemma WithinBytes(v: nat, n: nat)
    requires v < Pow256(n)
    ensures ByteLength(v) <= n
  {
    hide ByteLength, Pow256;
    ByteLengthBounds(v);
    ByteLengthZero();
    if ByteLength(v) > n { Pow256Monotone(n, ByteLength(v) - 1); }
  }

  /** The kept value has the same length and leading bytes as far as they are written. */
  lemma KeptShape(v: nat)
    requires ByteLength(v) >= 3
    ensures ByteLength(Kept(v)) == ByteLength(v)
    ensures Leading(Kept(v)) == if Leading(v) >= SIGN then (Leading(v) / 256) * 256 else Leading(v)
  {
    hide ByteLength, Pow256;
    var n := ByteLength(v);
    var p := Pow256(n - 3);
    LeadingBound(v);
    ByteLengthZero();
    var h := if Leading(v) >= SIGN then (Leading(v) / 256) * 256 else Leading(v);
    assert Kept(v) == h * p;
    ShapeOf(h, n);
  }

  lemma ShapeOf(h: nat, n: nat)
    requires n >= 3 && 0x1_0000 <= h < MANTISSA_LIMIT
    ensures ByteLength(h * Pow256(n - 3)) == n && Leading(h * Pow256(n - 3)) == h
  {
    hide ByteLength, Pow256;
    var p := Pow256(n - 3);
    SmallPow256();
    Pow256Sum(2, n - 3);
    Pow256Sum(3, n - 3);
    MulLe(p, 0x1_0000, h);
    MulLt(p, h, MANTISSA_LIMIT);
    ByteLengthUnique(h * p, n);
    ScaleDownIs(h * p, n - 3, h, 0);
  }

  lemma KeptFixed(v: nat, negative: bool)
    ensures CompactOf(Kept(v), negative) == CompactOf(v, negative)
  {
    hide ByteLength, Pow256, Leading;
    if ByteLength(v) >= 3 { KeptShape(v); }
  }

  // ---------------------------------------------------------------- the methods

  /** The value, the sign and whether the true value does not fit. */
  predicate Overflows(c: nat)
  {
    var w, n := EffectiveWord(c), Exponent(c);
    w != 0 && (n > 34 || (w > 0xff && n > 33) || (w > 0xffff && n > 32))
  }

  lemma Ratio(w: nat, k: nat, e: nat, lim: nat)
    requires e <= k && lim == Pow256(k - e)
    ensures w * Pow256(e) >= Pow256(k) <==> w >= lim
  {
    hide Pow256;
    Pow256Sum(k - e, e);
    var p := Pow256(e);
    if w >= lim { MulLe(p, lim, w); } else { MulLt(p, w, lim); }
  }

  /** The overflow flag is set exactly when the denoted number does not fit in 256 bits. */
  lemma OverflowIff(c: nat)
    ensures Overflows(c) <==> Denoted(c) >= Pow256(32)
  {
    hide Pow256;
    var w, n := EffectiveWord(c), Exponent(c);
    SmallPow256();
    if n <= 3 {
      Pow256Monotone(3, 32);
      ScaleDownLess(Word(c), 3 - n);
    } else if n <= 32 {
      Pow256Monotone(3, 35 - n);
      Ratio(w, 32, n - 3, Pow256(35 - n));
    } else if n == 33 {
      Ratio(w, 32, 30, Pow256(2));
    } else if n == 34 {
      Ratio(w, 32, 31, Pow256(1));
    } else {
      Pow256Monotone(32, n - 3);
      if w > 0 { MulLe(Pow256(n - 3), 1, w); }
    }
  }

  lemma {:induction false} ScaleDownLess(v: nat, k: nat)
    ensures ScaleDown(v, k) <= v
    decreases k
  {
    if k == 0 {
    } else {
      ScaleDownLess(v / 256, k - 1);
    }
  }

  lemma Mod256()
    ensures Power(8) == Pow256(32)
  {
    hide Power, Pow256, Pow2;
    PowerIsPow2(8);
    Pow256IsPow2(32);
  }

  /** Reads a compact form into `a`, which has the 256 bits of eight limbs. */
  method SetCompact(a: BaseUint, c: nat) returns (negative: bool, overflow: bool)
    requires a.pn.Length == 8 && c < BASE
    modifies a.pn
    ensures a.Val() == Denoted(c) % Pow256(32)
    ensures negative <==> EffectiveWord(c) != 0 && SignBit(c)
    ensures overflow <==> Denoted(c) >= Pow256(32)
  {
    hide Pow256, Power, Value, Pow2, ScaleDown;
    var size, word := c / MANTISSA_LIMIT, c % SIGN;
    Mod256();
    OverflowIff(c);
    if size <= 3 {
      word := ScaleDown(word, 3 - size);
      ScaleDownLess(c % SIGN, 3 - size);
      a.Assign64(word);
      SmallPow256();
      Pow256Monotone(3, 32);
      Below32(word, Pow256(32));
    } else {
      a.Assign64(word);
      Pow256IsPow2(size - 3);
      a.ShlAssign(8 * (size - 3));
    }
    negative := word != 0 && (c / SIGN) % 2 == 1;
    overflow := word != 0 && (size > 34 || (word > 0xff && size > 33) || (word > 0xffff && size > 32));
  }

  /** The leading bytes, as the writer gets them from a shifted copy. */
  method LeadingBytes(a: BaseUint, size: nat) returns (lead: nat)
    requires a.pn.Length == 8 && size == ByteLength(a.Val())
    ensures lead == Leading(a.Val())
  {
    hide Power, Value, Pow2, ByteLength, Pow256, ScaleDown;
    LeadingBound(a.Val());
    if size <= 3 {
      LowBytes(a.Val());
      var low := a.GetLow64();
      lead := low * Pow256(3 - size);
    } else {
      var bn := new BaseUint.Copy(a);
      bn.ShrAssign(8 * (size - 3));
      ShiftIsScale(a.Val(), size - 3);
      lead := bn.GetLow64();
    }
  }

  lemma LowBytes(v: nat)
    requires ByteLength(v) <= 3
    ensures v < MANTISSA_LIMIT
  {
    hide ByteLength, Pow256;
    ByteLengthBounds(v);
    SmallPow256();
  }

  lemma ShiftIsScale(v: nat, k: nat)
    ensures v / Pow2(8 * k) == ScaleDown(v, k)
  {
    hide Pow2, Pow256, ScaleDown;
    Pow256IsPow2(k);
    ScaleDownBounds(v, k);
    var q, p := ScaleDown(v, k), Pow256(k);
    Scale(q, 1, p);
    DivModUnique(v, p, q, v - q * p);
  }

  method GetCompact(a: BaseUint, negative: bool) returns (c: nat)
    requires a.pn.Length == 8
    ensures c == CompactOf(a.Val(), negative) < BASE
  {
    hide Power, Value, Pow2, ByteLength, Leading, Pow256;
    var bits := a.BitLength();
    BytesFromBits(a.Val(), bits);
    LeadingBound(a.Val());
    var size := (bits + 7) / 8;
    c := LeadingBytes(a, size);
    if c >= SIGN {
      c := c / 256;
      size := size + 1;
    }
    assert c < SIGN;
    assert size < 256;
    var word := c;
    c := c + size * MANTISSA_LIMIT;
    if negative && word != 0 { c := c + SIGN; }
  }
}
