/** Bit-level arithmetic on naturals: shifts, low parts, bit strings and the bitwise operators. */
module Bits {
  import opened Prelude

  // ---------------------------------------------------------------- division

  lemma MulAtLeast(k: int, p: nat)
    requires k >= 1
    ensures k * p >= p
  {
    assert k * p == (k - 1) * p + p;
  }

  lemma MulLe(a: nat, b: nat, c: nat)
    requires b <= c
    ensures a * b <= a * c
  {
    assert a * c == a * b + a * (c - b);
  }

  lemma MulAssoc(a: int, b: int, c: int)
    ensures (a * b) * c == a * (b * c)
  {
  }

  lemma {:induction false} Pow2Sum(a: nat, b: nat)
    ensures Pow2(a + b) == Pow2(a) * Pow2(b)
  {
    if a == 0 {
    } else {
      Pow2Sum(a - 1, b);
      MulAssoc(2, Pow2(a - 1), Pow2(b));
    }
  }

  lemma PeelOne(m: nat, w: nat)
    requires m > 0
    ensures m * w == (m - 1) * w + w >= w
  {
    MulAtLeast(m, w);
  }

  lemma QuotientsEqual(p: nat, q: int, r: nat, q': int, r': nat)
    requires r < p && r' < p && q * p + r == q' * p + r'
    ensures q == q' && r == r'
  {
    assert (q - q') * p == r' - r;
    if q > q' {
      MulAtLeast(q - q', p);
    } else if q < q' {
      assert (q' - q) * p == r - r';
      MulAtLeast(q' - q, p);
    }
  }

  lemma DivModUnique(v: nat, p: nat, q: nat, r: nat)
    requires p > 0 && r < p && v == q * p + r
    ensures v / p == q && v % p == r
  {
    QuotientsEqual(p, q, r, v / p, v % p);
  }

  // ---------------------------------------------------------------- shifts and low parts

  /** v << k */
  function Shl(v: nat, k: nat): nat { if k == 0 then v else 2 * Shl(v, k - 1) }

  /** v >> k */
  function Shr(v: nat, k: nat): nat { if k == 0 then v else Shr(v / 2, k - 1) }

  /** The k low bits of v. */
  function Low(v: nat, k: nat): nat
  {
    if k == 0 then 0 else 2 * Low(v / 2, k - 1) + v % 2
  }

  lemma {:induction false} LowBound(v: nat, k: nat)
    ensures Low(v, k) < Pow2(k)
  {
    if k == 0 {
    } else {
      LowBound(v / 2, k - 1);
    }
  }

  /** v << k in a word of the given width. */
  function ShlWord(v: nat, k: nat, width: nat): nat { Low(Shl(v, k), width) }

  /** The mask of k low bits. */
  function Ones(k: nat): nat { Pow2(k) - 1 }

  lemma {:induction false} ShlIsMul(v: nat, k: nat)
    ensures Shl(v, k) == v * Pow2(k)
  {
    if k == 0 {
    } else {
      ShlIsMul(v, k - 1);
      assert v * Pow2(k) == 2 * (v * Pow2(k - 1));
    }
  }

  lemma {:induction false} SplitAt(v: nat, k: nat)
    ensures v == Shl(Shr(v, k), k) + Low(v, k)
  {
    if k == 0 {
    } else {
      SplitAt(v / 2, k - 1);
    }
  }

  /** The shifts and low parts are division and remainder by a power of two. */
  lemma ShiftsAreDivision(v: nat, k: nat)
    ensures Shr(v, k) == v / Pow2(k) && Low(v, k) == v % Pow2(k)
  {
    SplitAt(v, k);
    LowBound(v, k);
    ShlIsMul(Shr(v, k), k);
    DivModUnique(v, Pow2(k), Shr(v, k), Low(v, k));
  }

  lemma {:induction false} LowSmall(v: nat, k: nat)
    requires v < Pow2(k)
    ensures Low(v, k) == v && Shr(v, k) == 0
  {
    if k == 0 {
    } else {
      LowSmall(v / 2, k - 1);
    }
  }

  lemma {:induction false} ShrAdd(v: nat, a: nat, b: nat)
    ensures Shr(Shr(v, a), b) == Shr(v, a + b)
  {
    if a == 0 {
    } else {
      ShrAdd(v / 2, a - 1, b);
    }
  }

  lemma {:induction false} LowThenShr(v: nat, a: nat, b: nat)
    requires b <= a
    ensures Shr(Low(v, a), b) == Low(Shr(v, b), a - b)
  {
    if b == 0 {
    } else {
      assert Low(v, a) / 2 == Low(v / 2, a - 1);
      LowThenShr(v / 2, a - 1, b - 1);
    }
  }

  lemma {:induction false} LowLow(v: nat, a: nat, b: nat)
    ensures Low(Low(v, a), b) == Low(v, Min(a, b))
    decreases b
  {
    if a == 0 {
      LowSmall(0, b);
    } else if b > 0 {
      assert Low(v, a) / 2 == Low(v / 2, a - 1) && Low(v, a) % 2 == v % 2;
      LowLow(v / 2, a - 1, b - 1);
    }
  }

  lemma {:induction false} LowShl(v: nat, k: nat, width: nat)
    requires k <= width
    ensures Low(Shl(v, k), width) == Shl(Low(v, width - k), k)
  {
    if k == 0 {
    } else {
      LowShl(v, k - 1, width - 1);
      var h := Shl(v, k - 1);
      assert Shl(v, k) == 2 * h && (2 * h) / 2 == h && (2 * h) % 2 == 0;
      assert Low(2 * h, width) == 2 * Low(h, width - 1);
    }
  }

  lemma {:induction false} ShlBound(v: nat, k: nat, n: nat)
    requires v < Pow2(n)
    ensures Shl(v, k) + Pow2(k) <= Pow2(n + k)
  {
    if k == 0 {
    } else {
      ShlBound(v, k - 1, n);
    }
  }

  lemma {:induction false} ShlAdd(v: nat, a: nat, b: nat)
    ensures Shl(Shl(v, a), b) == Shl(v, a + b)
  {
    if b == 0 {
    } else {
      ShlAdd(v, a, b - 1);
    }
  }

  lemma {:induction false} ShlSum(a: nat, b: nat, k: nat)
    ensures Shl(a + b, k) == Shl(a, k) + Shl(b, k)
  {
    if k == 0 {
    } else {
      ShlSum(a, b, k - 1);
    }
  }

  lemma {:induction false} ShrOnes(a: nat, b: nat)
    requires b <= a
    ensures Shr(Ones(a), b) == Ones(a - b)
  {
    if b == 0 {
    } else {
      ShrOnes(a - 1, b - 1);
    }
  }

  // ---------------------------------------------------------------- bit strings

  /** The n low bits of v, most significant first. */
  function BitsOf(v: nat, n: nat): (bs: seq<bool>)
    ensures |bs| == n
  {
    if n == 0 then [] else BitsOf(v / 2, n - 1) + [v % 2 == 1]
  }

  function Bit(b: bool): nat { if b then 1 else 0 }

  /** The number a bit string denotes. */
  function ValueOf(bs: seq<bool>): (v: nat)
    ensures v < Pow2(|bs|)
  {
    if bs == [] then 0 else 2 * ValueOf(bs[..|bs| - 1]) + Bit(bs[|bs| - 1])
  }

  lemma {:induction false} ValueOfBits(v: nat, n: nat)
    ensures ValueOf(BitsOf(v, n)) == Low(v, n)
  {
    if n == 0 {
    } else {
      ValueOfBits(v / 2, n - 1);
      assert BitsOf(v, n)[..n - 1] == BitsOf(v / 2, n - 1);
    }
  }

  lemma {:induction false} BitsOfValue(bs: seq<bool>)
    ensures BitsOf(ValueOf(bs), |bs|) == bs
  {
    if bs == [] {
    } else {
      var init := bs[..|bs| - 1];
      BitsOfValue(init);
      var v := ValueOf(bs);
      assert v / 2 == ValueOf(init) && v % 2 == Bit(bs[|bs| - 1]);
      assert bs == init + [bs[|bs| - 1]];
    }
  }

  lemma BitsStep(v: nat, n: nat)
    requires n >= 1
    ensures BitsOf(v, n) == BitsOf(v / 2, n - 1) + [v % 2 == 1]
  {
  }

  lemma {:induction false} BitsSplit(v: nat, a: nat, b: nat)
    ensures BitsOf(v, a + b) == BitsOf(Shr(v, b), a) + BitsOf(v, b)
    decreases b
  {
    if b == 0 {
    } else {
      BitsSplit(v / 2, a, b - 1);
      var hi, lo := BitsOf(Shr(v, b), a), BitsOf(v / 2, b - 1);
      BitsStep(v, a + b);
      BitsStep(v, b);
      assert (hi + lo) + [v % 2 == 1] == hi + (lo + [v % 2 == 1]);
    }
  }

  lemma {:induction false} BitsOfLow(v: nat, n: nat, m: nat)
    requires n <= m
    ensures BitsOf(Low(v, m), n) == BitsOf(v, n)
    decreases n
  {
    if n == 0 {
    } else {
      assert Low(v, m) / 2 == Low(v / 2, m - 1) && Low(v, m) % 2 == v % 2;
      BitsOfLow(v / 2, n - 1, m - 1);
    }
  }

  /** Appending the k low bits of b to a. */
  lemma {:induction false} BitsShiftIn(a: nat, b: nat, n: nat, k: nat)
    requires b < Pow2(k)
    ensures BitsOf(Shl(a, k) + b, n + k) == BitsOf(a, n) + BitsOf(b, k)
    decreases k
  {
    if k == 0 {
    } else {
      BitsShiftIn(a, b / 2, n, k - 1);
      var v := Shl(a, k) + b;
      assert v / 2 == Shl(a, k - 1) + b / 2 && v % 2 == b % 2;
      BitsStep(v, n + k);
      BitsStep(b, k);
      var hi, lo := BitsOf(a, n), BitsOf(b / 2, k - 1);
      assert (hi + lo) + [b % 2 == 1] == hi + (lo + [b % 2 == 1]);
    }
  }

  // ---------------------------------------------------------------- bitwise operators

  function BitAnd(a: nat, b: nat): nat
  {
    if a == 0 || b == 0 then 0
    else 2 * BitAnd(a / 2, b / 2) + (if a % 2 == 1 && b % 2 == 1 then 1 else 0)
  }

  function BitOr(a: nat, b: nat): nat
  {
    if a == 0 then b else if b == 0 then a
    else 2 * BitOr(a / 2, b / 2) + (if a % 2 == 1 || b % 2 == 1 then 1 else 0)
  }

  function BitXor(a: nat, b: nat): nat
    decreases a + b
  {
    if a == 0 then b else if b == 0 then a
    else 2 * BitXor(a / 2, b / 2) + (if a % 2 != b % 2 then 1 else 0)
  }

  lemma AndStep(a: nat, b: nat)
    ensures BitAnd(a, b) == 2 * BitAnd(a / 2, b / 2) + (if a % 2 == 1 && b % 2 == 1 then 1 else 0)
  {
  }

  lemma {:induction false} AndOnes(v: nat, n: nat)
    ensures BitAnd(v, Ones(n)) == Low(v, n)
    decreases n
  {
    if n == 0 {
    } else {
      AndOnes(v / 2, n - 1);
      assert Ones(n) / 2 == Ones(n - 1) && Ones(n) % 2 == 1;
      AndStep(v, Ones(n));
    }
  }

  lemma {:induction false} OnesAndOnes(a: nat, b: nat)
    ensures BitAnd(Ones(a), Ones(b)) == Ones(Min(a, b))
    decreases a
  {
    if a > 0 && b > 0 {
      OnesAndOnes(a - 1, b - 1);
      assert Ones(a) / 2 == Ones(a - 1) && Ones(b) / 2 == Ones(b - 1);
    }
  }

  lemma {:induction false} OrDisjoint(a: nat, b: nat, k: nat)
    requires b < Pow2(k)
    ensures BitOr(Shl(a, k), b) == Shl(a, k) + b
    decreases k
  {
    if k > 0 && Shl(a, k) > 0 && b > 0 {
      OrDisjoint(a, b / 2, k - 1);
    }
  }

  lemma {:induction false} XorLaws(a: nat, b: nat)
    ensures BitXor(a, b) == BitXor(b, a)
    ensures BitXor(a, b) == 0 <==> a == b
    decreases a + b
  {
    if a > 0 && b > 0 { XorLaws(a / 2, b / 2); }
  }

  lemma {:induction false} XorAssoc(a: nat, b: nat, c: nat)
    ensures BitXor(BitXor(a, b), c) == BitXor(a, BitXor(b, c))
    decreases a + b + c
  {
    if a > 0 && b > 0 && c > 0 {
      XorAssoc(a / 2, b / 2, c / 2);
      XorStep(a, b);
      XorStep(b, c);
      XorStep(BitXor(a, b), c);
      XorStep(a, BitXor(b, c));
    }
  }

  lemma XorStep(a: nat, b: nat)
    ensures BitXor(a, b) / 2 == BitXor(a / 2, b / 2)
    ensures BitXor(a, b) % 2 == (if a % 2 != b % 2 then 1 else 0)
  {
  }

  lemma {:induction false} XorBound(a: nat, b: nat, n: nat)
    requires a < Pow2(n) && b < Pow2(n)
    ensures BitXor(a, b) < Pow2(n)
    decreases n
  {
    if n == 0 {
    } else {
      XorBound(a / 2, b / 2, n - 1);
    }
  }

  /** Shifting k fresh bits into a word keeps the n live ones as long as they fit together. */
  lemma ShiftIn(v: nat, b: nat, n: nat, k: nat, width: nat)
    requires n + k <= width && b < Pow2(k)
    ensures var v' := BitOr(ShlWord(v, k, width), b);
            BitsOf(v', n + k) == BitsOf(v, n) + BitsOf(b, k)
  {
    LowShl(v, k, width);
    var hi := Low(v, width - k);
    OrDisjoint(hi, b, k);
    BitsShiftIn(hi, b, n, k);
    BitsOfLow(v, n, width - k);
  }

  // ---------------------------------------------------------------- big-endian byte groups

  function ByteAt(v: nat, k: nat): byte
  {
    ByteSplit(Shr(v, 8 * k));
    Low(Shr(v, 8 * k), 8)
  }

  function ValueBE(bs: seq<byte>): nat
  {
    if bs == [] then 0 else 256 * ValueBE(bs[..|bs| - 1]) + bs[|bs| - 1]
  }

  lemma ByteSplit(v: nat)
    ensures Low(v, 8) == v % 256 && Shr(v, 8) == v / 256
  {
    assert Pow2(8) == 256;
    ShiftsAreDivision(v, 8);
  }

  lemma {:induction false} BytesBEAt(v: nat, w: nat, x: nat)
    requires x < w
    ensures BytesBE(v, w)[x] == ByteAt(v, w - 1 - x)
  {
    ByteSplit(v);
    if x < w - 1 {
      BytesBEAt(v / 256, w - 1, x);
      ShrAdd(v, 8, 8 * (w - 2 - x));
    }
  }

  lemma {:induction false} ValueOfBytes(v: nat, w: nat)
    requires v < Pow2(8 * w)
    ensures ValueBE(BytesBE(v, w)) == v
  {
    if w == 0 {
    } else {
      ByteSplit(v);
      LowSmall(v, 8 * w);
      LowThenShr(v, 8 * w, 8);
      LowBound(Shr(v, 8), 8 * w - 8);
      ValueOfBytes(v / 256, w - 1);
      assert BytesBE(v, w)[..w - 1] == BytesBE(v / 256, w - 1);
    }
  }

  lemma {:induction false} BytesOfValue(bs: seq<byte>)
    ensures BytesBE(ValueBE(bs), |bs|) == bs
  {
    if bs == [] {
    } else {
      BytesOfValue(bs[..|bs| - 1]);
      var v := ValueBE(bs);
      assert v / 256 == ValueBE(bs[..|bs| - 1]) && v % 256 == bs[|bs| - 1];
      assert bs == bs[..|bs| - 1] + [bs[|bs| - 1]];
    }
  }

  lemma ValueBEAt(bs: seq<byte>, k: nat)
    requires k < |bs|
    ensures ByteAt(ValueBE(bs), k) == bs[|bs| - 1 - k]
  {
    BytesOfValue(bs);
    BytesBEAt(ValueBE(bs), |bs|, |bs| - 1 - k);
  }
}
