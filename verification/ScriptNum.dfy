/** Script numbers: little-endian, sign-and-magnitude byte strings of any length. */
module ScriptNum {

  import opened Prelude

  type Element = seq<byte>

  function Abs(v: int): nat { if v < 0 then -v else v }

  /** The bytes of a magnitude, least significant first, without leading zero. */
  function MagnitudeBytes(v: nat): (s: seq<byte>)
    ensures s == [] <==> v == 0
    ensures v != 0 ==> s[|s| - 1] != 0
  {
    if v == 0 then [] else [v % 256] + MagnitudeBytes(v / 256)
  }

  function Magnitude(s: seq<byte>): nat
  {
    if s == [] then 0 else s[0] + 256 * Magnitude(s[1..])
  }

  function Last(s: seq<byte>): byte
    requires s != []
  {
    s[|s| - 1]
  }

  function ButLast(s: seq<byte>): seq<byte>
    requires s != []
  {
    s[..|s| - 1]
  }

  /** Puts the sign into the top bit, with a fresh byte when that bit is taken. */
  function Signed(s: seq<byte>, neg: bool): (r: Element)
    requires s != []
  {
    if Last(s) >= 0x80 then s + [if neg then 0x80 else 0]
    else if neg then ButLast(s) + [Last(s) + 0x80]
    else s
  }

  function Encode(v: int): Element
  {
    if v == 0 then [] else Signed(MagnitudeBytes(Abs(v)), v < 0)
  }

  /** The bytes with the sign bit taken off. */
  function Unsigned(s: Element): seq<byte>
    requires s != []
  {
    ButLast(s) + [Last(s) % 0x80]
  }

  function WithSign(neg: bool, m: nat): int { if neg then 0 - m else m }

  function Decode(s: Element): int
  {
    if s == [] then 0 else WithSign(Last(s) >= 0x80, Magnitude(Unsigned(s)))
  }

  predicate Minimal(s: Element)
  {
    s == [] || Last(s) % 0x80 != 0 || (|s| > 1 && s[|s| - 2] >= 0x80)
  }

  /** A number read from the stack; `None` is the exception the constructor throws. */
  function ReadNum(s: Element, requireMinimal: bool, maxSize: nat): Option<int>
  {
    if |s| > maxSize then None
    else if requireMinimal && !Minimal(s) then None
    else Some(Decode(s))
  }

  const INT_MAX: int := 0x7fff_ffff
  const INT_MIN: int := -0x8000_0000
  const INT64_MAX: int := 0x7fff_ffff_ffff_ffff
  const INT64_MIN: int := -0x8000_0000_0000_0000

  function GetInt(v: int): int
  {
    if v > INT_MAX then INT_MAX else if v < INT_MIN then INT_MIN else v
  }

  /** Negation; the precondition is the assertion in the source. */
  function Negate(v: int): int
    requires v != INT64_MIN
  {
    -v
  }

  function AddAssign(v: int, rhs: int): int
    requires rhs == 0 || (rhs > 0 && v <= INT64_MAX - rhs) || (rhs < 0 && v >= INT64_MIN - rhs)
  {
    v + rhs
  }

  function SubAssign(v: int, rhs: int): int
    requires rhs == 0 || (rhs > 0 && v >= INT64_MIN + rhs) || (rhs < 0 && v <= INT64_MAX + rhs)
  {
    v - rhs
  }

  // ---------------------------------------------------------------- magnitudes

  lemma {:induction false} MagnitudeOfBytes(v: nat)
    ensures Magnitude(MagnitudeBytes(v)) == v
    decreases v
  {
    if v == 0 {
    } else {
      MagnitudeOfBytes(v / 256);
      assert MagnitudeBytes(v)[1..] == MagnitudeBytes(v / 256);
    }
  }

  lemma {:induction false} BytesOfMagnitude(s: seq<byte>)
    requires s == [] || Last(s) != 0
    ensures MagnitudeBytes(Magnitude(s)) == s
  {
    if s == [] {
    } else {
      if |s| > 1 {
        BytesOfMagnitude(s[1..]);
        assert Magnitude(s[1..]) > 0;
      }
      BytesStep(s[0], Magnitude(s[1..]));
      assert s == [s[0]] + s[1..];
    }
  }

  lemma BytesStep(b: byte, m: nat)
    requires b != 0 || m != 0
    ensures MagnitudeBytes(b + 256 * m) == [b] + MagnitudeBytes(m)
  {
    assert (b + 256 * m) % 256 == b && (b + 256 * m) / 256 == m;
  }

  lemma {:induction false} MagnitudeSnoc(s: seq<byte>, b: byte)
    ensures Magnitude(s + [b]) == Magnitude(s) + b * Pow256(|s|)
  {
    if s == [] {
      assert s + [b] == [b];
      assert Magnitude([b]) == b + 256 * Magnitude([]);
    } else {
      MagnitudeSnoc(s[1..], b);
      assert (s + [b])[1..] == s[1..] + [b];
      PowerStep(b, |s|);
    }
  }

  lemma PowerStep(b: nat, n: nat)
    requires n > 0
    ensures 256 * (b * Pow256(n - 1)) == b * Pow256(n)
  {
    var p := Pow256(n - 1);
    assert b * (256 * p) == 256 * (b * p);
  }

  lemma {:induction false} MagnitudeBound(s: seq<byte>)
    ensures Magnitude(s) < Pow256(|s|)
  {
    if s == [] {
    } else {
      MagnitudeBound(s[1..]);
    }
  }

  lemma {:induction false} BytesLength(v: nat, n: nat)
    requires v < Pow256(n)
    ensures |MagnitudeBytes(v)| <= n
    decreases n
  {
    if v == 0 {
    } else {
      BytesLength(v / 256, n - 1);
    }
  }

  // ---------------------------------------------------------------- encoding

  lemma UnsignedSigned(s: seq<byte>, neg: bool)
    requires s != [] && Last(s) != 0
    ensures Signed(s, neg) != [] && (Last(Signed(s, neg)) >= 0x80 <==> neg)
    ensures Unsigned(Signed(s, neg)) == if Last(s) >= 0x80 then s + [0] else s
  {
  }

  lemma SignedDecodes(s: seq<byte>, neg: bool)
    requires s != [] && Last(s) != 0
    ensures Decode(Signed(s, neg)) == WithSign(neg, Magnitude(s))
  {
    hide Magnitude, Pow256, Signed, Unsigned, Last;
    UnsignedSigned(s, neg);
    MagnitudeSnoc(s, 0);
  }

  /** Every number survives being written to the stack and read back. */
  lemma DecodeEncode(v: int)
    ensures Decode(Encode(v)) == v
  {
    hide Magnitude, Signed, Decode;
    if v != 0 {
      SignedDecodes(MagnitudeBytes(Abs(v)), v < 0);
      MagnitudeOfBytes(Abs(v));
    } else {
      DecodeEmpty();
    }
  }

  lemma DecodeEmpty()
    ensures Decode([]) == 0
  {
  }

  lemma EncodeMinimal(v: int)
    ensures Minimal(Encode(v))
  {
    hide MagnitudeBytes;
    if v != 0 {
      var s := MagnitudeBytes(Abs(v));
      var r := Signed(s, v < 0);
      if Last(s) >= 0x80 { assert r[|r| - 2] == Last(s); }
    }
  }

  /** The magnitude bytes a minimal byte string was made from. */
  function Stripped(s: Element): seq<byte>
    requires s != []
  {
    if Last(s) % 0x80 == 0 then ButLast(s) else Unsigned(s)
  }

  lemma SignedStripped(s: Element)
    requires s != [] && Minimal(s)
    ensures Stripped(s) != [] && Last(Stripped(s)) != 0
    ensures Signed(Stripped(s), Last(s) >= 0x80) == s
  {
    hide Magnitude, MagnitudeBytes;
    if Last(s) % 0x80 == 0 {
      assert Last(ButLast(s)) == s[|s| - 2];
      assert s == ButLast(s) + [Last(s)];
    } else {
      assert ButLast(Unsigned(s)) == ButLast(s);
      assert s == ButLast(s) + [Last(s)];
    }
  }

  /** A minimal byte string is the encoding of its number, so encodings are unique. */
  lemma EncodeDecode(s: Element)
    requires Minimal(s)
    ensures Encode(Decode(s)) == s
  {
    hide Magnitude, MagnitudeBytes, Signed, Unsigned, Stripped, Last, Minimal, Decode;
    if s == [] {
      DecodeEmpty();
    } else {
      var t := Stripped(s);
      SignedStripped(s);
      SignedDecodes(t, Last(s) >= 0x80);
      BytesOfMagnitude(t);
    }
  }

  lemma EncodeLength(v: int, n: nat)
    requires Abs(v) < Pow256(n)
    ensures |Encode(v)| <= n + 1
  {
    BytesLength(Abs(v), n);
  }

  lemma DecodeBound(s: Element)
    requires s != []
    ensures Abs(Decode(s)) < 0x80 * Pow256(|s| - 1)
  {
    hide Pow256, Magnitude;
    MagnitudeSnoc(ButLast(s), Last(s) % 0x80);
    MagnitudeBound(ButLast(s));
    ScaledBound(Magnitude(ButLast(s)), Last(s) % 0x80, Pow256(|s| - 1));
  }

  lemma ScaledBound(m: nat, b: nat, p: nat)
    requires m < p && b < 0x80
    ensures m + b * p < 0x80 * p
  {
    assert b * p + p == (b + 1) * p;
    assert (b + 1) * p + (0x7f - b) * p == 0x80 * p;
    assert (0x7f - b) * p >= 0;
  }

  /** Numeric operands lie strictly between -2^31 and 2^31, so no 64-bit step can overflow. */
  lemma ReadNumRange(s: Element, requireMinimal: bool)
    ensures ReadNum(s, requireMinimal, 4).Some? ==>
              -INT_MAX <= ReadNum(s, requireMinimal, 4).value <= INT_MAX
  {
    if 0 < |s| <= 4 {
      DecodeBound(s);
      assert Pow256(1) == 256 && Pow256(2) == 0x1_0000 && Pow256(3) == 0x100_0000;
    }
  }

  // ---------------------------------------------------------------- the loops

  function LowByte(v: nat): byte { v % 256 }

  function HighBytes(v: nat): nat { v / 256 }

  lemma PeelByte(done: seq<byte>, v: nat)
    requires v != 0
    ensures done + MagnitudeBytes(v) == (done + [LowByte(v)]) + MagnitudeBytes(HighBytes(v))
    ensures HighBytes(v) < v
  {
  }

  method SerializeMagnitude(value: nat) returns (result: seq<byte>)
    ensures result == MagnitudeBytes(value)
  {
    hide MagnitudeBytes, LowByte, HighBytes;
    result := [];
    var absvalue := value;
    assert [] + MagnitudeBytes(value) == MagnitudeBytes(value);
    while absvalue != 0
      invariant result + MagnitudeBytes(absvalue) == MagnitudeBytes(value)
    {
      PeelByte(result, absvalue);
      result := result + [LowByte(absvalue)];
      absvalue := HighBytes(absvalue);
    }
    assert result + [] == result;
  }

  method Serialize(value: int) returns (result: Element)
    requires INT64_MIN <= value <= INT64_MAX
    ensures result == Encode(value)
  {
    hide MagnitudeBytes;
    if value == 0 { return []; }
    var neg := value < 0;
    result := SerializeMagnitude(if neg then 0 - value else value);
    var k := |result| - 1;
    var top := result[k];
    if top >= 0x80 {
      result := result + [if neg then 0x80 else 0];
    } else if neg {
      result := result[..k] + [top + 0x80];
    }
  }

  /** Up to eight bytes, no intermediate leaves 64 bits and the result is a 64-bit number. */
  method SetVch(vch: Element) returns (value: int)
    requires |vch| <= 8
    ensures value == Decode(vch)
    ensures -INT64_MAX <= value <= INT64_MAX
  {
    if vch == [] { return 0; }
    var result: nat := 0;
    var weight: nat := 1;
    var i := 0;
    while i != |vch|
      invariant i <= |vch|
      invariant weight == Pow256(i) && result == Magnitude(vch[..i])
    {
      MagnitudeSnoc(vch[..i], vch[i]);
      assert vch[..i + 1] == vch[..i] + [vch[i]];
      MagnitudeBound(vch[..i + 1]);
      Fits64(i + 1);
      assert result + vch[i] * weight <= UINT64_MAX;
      result := result + vch[i] * weight;
      weight := 256 * weight;
      i := i + 1;
    }
    assert vch[..|vch|] == vch;
    TopBitOff(vch);
    DecodeBound(vch);
    Fits64(|vch| - 1);
    return if vch[|vch| - 1] >= 0x80 then 0 - (result - TopBit(|vch| - 1)) else result;
  }

  const UINT64_MAX: int := 0xffff_ffff_ffff_ffff

  lemma Fits64(n: nat)
    requires n <= 8
    ensures Pow256(n) <= UINT64_MAX + 1
    ensures n <= 7 ==> 0x80 * Pow256(n) <= INT64_MAX + 1
  {
    assert Pow256(2) == 0x1_0000;
    assert Pow256(4) == 0x1_0000_0000;
    assert Pow256(6) == 0x1_0000_0000_0000;
    assert Pow256(8) == 0x1_0000_0000_0000_0000;
    Pow256Monotone(n, if n <= 7 then 7 else 8);
  }

  /** The number a stack element is read as, or the exception of the constructor. */
  method Construct(vch: Element, requireMinimal: bool, maxSize: nat) returns (r: Option<int>)
    requires maxSize <= 8
    ensures r == ReadNum(vch, requireMinimal, maxSize)
  {
    hide Decode;
    if |vch| > maxSize { return None; }
    if requireMinimal && |vch| > 0 {
      if vch[|vch| - 1] % 0x80 == 0 {
        if |vch| <= 1 || vch[|vch| - 2] < 0x80 { return None; }
      }
    }
    var v := SetVch(vch);
    return Some(v);
  }

  lemma UnsignedBytes(s: Element)
    requires s != []
    ensures s == ButLast(s) + [Last(s)]
    ensures Last(s) >= 0x80 ==> Unsigned(s) == ButLast(s) + [Last(s) - 0x80]
    ensures Last(s) < 0x80 ==> Unsigned(s) == s
  {
    hide Magnitude, Pow256;
    assert s == ButLast(s) + [Last(s)];
  }

  lemma TopBitOff(s: Element)
    requires s != []
    ensures Last(s) >= 0x80 ==> Magnitude(s) == Magnitude(Unsigned(s)) + TopBit(|s| - 1)
    ensures Last(s) < 0x80 ==> Unsigned(s) == s
  {
    hide Pow256, Magnitude, Last, Unsigned;
    UnsignedBytes(s);
    if Last(s) >= 0x80 {
      var rest, b := ButLast(s), Last(s) - 0x80;
      MagnitudeSnoc(rest, b + 0x80);
      MagnitudeSnoc(rest, b);
      SplitTop(b, Pow256(|s| - 1));
    }
  }

  lemma SplitTop(b: nat, p: nat)
    ensures (b + 0x80) * p == b * p + 0x80 * p
  {
  }

  function TopBit(k: nat): nat { 0x80 * Pow256(k) }
}
