/**
 * Equihash's array packing: bit_len-bit elements stored one per byte-aligned group, and the same
 * elements packed without gaps. The specification is the bit stream; the code moves it through a
 * 32-bit accumulator.
 */
module EquihashPacking {
  import opened Prelude
  import opened Bits
  import opened BitStream

  // ---------------------------------------------------------------- element groups

  /** Bytes holding one bit_len-bit element. */
  function ElementWidth(bitLen: nat): nat { (bitLen + 7) / 8 }

  function EncodeElement(e: nat, w: nat, pad: nat): (bs: seq<byte>)
    ensures |bs| == pad + w
  {
    seq(pad, i => 0) + BytesBE(e, w)
  }

  function EncodeAll(es: seq<nat>, w: nat, pad: nat): seq<byte>
  {
    if es == [] then [] else EncodeElement(es[0], w, pad) + EncodeAll(es[1..], w, pad)
  }

  lemma {:induction false} EncodeAllSnoc(es: seq<nat>, e: nat, w: nat, pad: nat)
    ensures EncodeAll(es + [e], w, pad) == EncodeAll(es, w, pad) + EncodeElement(e, w, pad)
  {
    if es == [] {
      assert [e][1..] == [];
    } else {
      assert (es + [e])[1..] == es[1..] + [e];
      EncodeAllSnoc(es[1..], e, w, pad);
    }
  }

  lemma {:induction false} EncodeAllLength(es: seq<nat>, w: nat, pad: nat)
    ensures |EncodeAll(es, w, pad)| == (pad + w) * |es|
  {
    if es == [] {
    } else {
      EncodeAllLength(es[1..], w, pad);
      assert (pad + w) * |es| == (pad + w) * (|es| - 1) + (pad + w);
    }
  }

  /** The element in a group of pad + w bytes: its low bitLen bits. */
  function DecodeElement(group: seq<byte>, pad: nat, bitLen: nat): (e: nat)
    requires pad <= |group|
    ensures e < Pow2(bitLen)
  {
    LowBound(ValueBE(group[pad..]), bitLen);
    Low(ValueBE(group[pad..]), bitLen)
  }

  /** The elements of consecutive groups of pad + w bytes. */
  function DecodeAll(bs: seq<byte>, w: nat, pad: nat, bitLen: nat): (es: seq<nat>)
    requires w > 0
    ensures forall i :: 0 <= i < |es| ==> es[i] < Pow2(bitLen)
  {
    if |bs| < pad + w then []
    else [DecodeElement(bs[..pad + w], pad, bitLen)] + DecodeAll(bs[pad + w..], w, pad, bitLen)
  }

  lemma {:induction false} DecodeAllLength(bs: seq<byte>, w: nat, pad: nat, bitLen: nat, m: nat)
    requires w > 0 && m * (pad + w) <= |bs| < m * (pad + w) + (pad + w)
    ensures |DecodeAll(bs, w, pad, bitLen)| == m
    decreases m
  {
    if m == 0 {
    } else {
      PeelOne(m, pad + w);
      DecodeAllLength(bs[pad + w..], w, pad, bitLen, m - 1);
    }
  }

  // ---------------------------------------------------------------- the specification

  /** The bitLen-bit elements of a packed byte string. */
  function Elements(packed: seq<byte>, bitLen: nat): (es: seq<nat>)
    requires bitLen >= 1
    ensures forall i :: 0 <= i < |es| ==> es[i] < Pow2(bitLen)
  {
    FromStream(ToStream(packed, 8), bitLen)
  }

  /** As many elements as fit. */
  lemma ElementsThatFit(packed: seq<byte>, bitLen: nat)
    requires bitLen >= 1
    ensures var q := |Elements(packed, bitLen)|;
            q * bitLen <= 8 * |packed| < (q + 1) * bitLen
  {
    hide FromStream, ToStream;
    StreamLength(packed, 8);
    GroupCount(ToStream(packed, 8), bitLen);
  }

  function Expanded(packed: seq<byte>, bitLen: nat, pad: nat): seq<byte>
    requires bitLen >= 1
  {
    EncodeAll(Elements(packed, bitLen), ElementWidth(bitLen), pad)
  }

  /** The bytes of the bit stream made of the given elements. */
  function Packed(es: seq<nat>, bitLen: nat): (bs: seq<byte>)
  {
    AsBytes(FromStream(ToStream(es, bitLen), 8))
  }

  function AsBytes(xs: seq<nat>): (bs: seq<byte>)
    requires forall i :: 0 <= i < |xs| ==> xs[i] < 256
    ensures bs == xs
  {
    seq(|xs|, i requires 0 <= i < |xs| => xs[i])
  }

  /** The widths the code asserts: elements of 8 to 25 bits. */
  predicate GoodWidth(bitLen: nat) { 8 <= bitLen && 7 + bitLen <= 32 }

  // ---------------------------------------------------------------- the masks and shifts of the code

  /** The per-byte mask `(bit_len_mask >> 8k) & 0xFF`. */
  function ByteMask(bitLen: nat, k: nat): nat
  {
    BitAnd(Shr(Ones(bitLen), 8 * k), 0xFF)
  }

  lemma ByteMaskValue(bitLen: nat, k: nat)
    requires 8 * k < bitLen
    ensures ByteMask(bitLen, k) == Ones(Min(8, bitLen - 8 * k))
  {
    assert Ones(8) == 0xFF;
    ShrOnes(bitLen, 8 * k);
    OnesAndOnes(bitLen - 8 * k, 8);
  }

  /** Masking a byte of the accumulator extracts byte k of the element that starts at bit `acc_bits`. */
  lemma MaskedByte(acc: nat, accBits: nat, bitLen: nat, k: nat)
    requires 8 * k < bitLen
    ensures BitAnd(Shr(acc, accBits + 8 * k), ByteMask(bitLen, k))
         == ByteAt(Low(Shr(acc, accBits), bitLen), k)
  {
    var x := Shr(acc, accBits);
    var r := bitLen - 8 * k;
    ByteMaskValue(bitLen, k);
    ShrAdd(acc, accBits, 8 * k);
    AndOnes(Shr(x, 8 * k), Min(8, r));
    LowThenShr(x, bitLen, 8 * k);
    LowLow(Shr(x, 8 * k), r, 8);
  }

  /** Masking byte k of a group gives byte k of the element in it. */
  lemma MaskedGroupByte(group: seq<byte>, bitLen: nat, k: nat)
    requires k < |group| && 8 * k < bitLen
    ensures BitAnd(group[|group| - 1 - k], ByteMask(bitLen, k)) == ByteAt(Low(ValueBE(group), bitLen), k)
    ensures ByteAt(Low(ValueBE(group), bitLen), k) < Pow2(Min(8, bitLen - 8 * k))
  {
    var v := ValueBE(group);
    var r := bitLen - 8 * k;
    ByteMaskValue(bitLen, k);
    ValueBEAt(group, k);
    AndOnes(group[|group| - 1 - k], Min(8, r));
    LowLow(Shr(v, 8 * k), 8, Min(8, r));
    LowThenShr(v, bitLen, 8 * k);
    LowLow(Shr(v, 8 * k), r, 8);
    LowBound(Shr(v, 8 * k), Min(8, r));
  }

  // ---------------------------------------------------------------- moving bits through the accumulator

  lemma DivAtLeast(a: nat, b: nat, q: nat)
    requires b > 0 && q * b <= a
    ensures q <= a / b
  {
    var d := a / b;
    assert a == d * b + a % b;
    if q > d {
      assert (q - d) * b == q * b - d * b;
      MulAtLeast(q - d, b);
    }
  }

  /** Room in the output for every complete element of the input. */
  lemma ElementFits(m: nat, bitLen: nat, width: nat, len: nat)
    requires bitLen >= 1 && bitLen * (m + 1) <= 8 * len
    ensures width * m + width <= 8 * width * len / bitLen
  {
    MulLe(width, bitLen * (m + 1), 8 * len);
    assert width * (bitLen * (m + 1)) == (width * m + width) * bitLen;
    assert width * (8 * len) == 8 * width * len;
    DivAtLeast(8 * width * len, bitLen, width * m + width);
  }

  /** The digits read so far are the elements es followed by the bits still held. */
  ghost predicate Moving(es: seq<nat>, held: seq<bool>, bitLen: nat, read: seq<nat>, n: nat)
  {
    && (forall k :: 0 <= k < |es| ==> es[k] < Pow2(bitLen))
    && ToStream(es, bitLen) + held == ToStream(read, n)
  }

  lemma StartMoving(bitLen: nat, n: nat)
    ensures Moving([], BitsOf(0, 0), bitLen, [], n)
  {
  }

  lemma Absorb(es: seq<nat>, held: seq<bool>, bitLen: nat, read: seq<nat>, x: nat, n: nat)
    requires Moving(es, held, bitLen, read, n)
    ensures Moving(es, held + BitsOf(x, n), bitLen, read + [x], n)
  {
    ToStreamSnoc(read, x, n);
    var s, b := ToStream(es, bitLen), BitsOf(x, n);
    assert s + (held + b) == (s + held) + b;
  }

  lemma Emit(es: seq<nat>, e: nat, rest: seq<bool>, bitLen: nat, read: seq<nat>, n: nat)
    requires e < Pow2(bitLen) && Moving(es, BitsOf(e, bitLen) + rest, bitLen, read, n)
    ensures Moving(es + [e], rest, bitLen, read, n)
  {
    ToStreamSnoc(es, e, bitLen);
    var s, b := ToStream(es, bitLen), BitsOf(e, bitLen);
    assert s + (b + rest) == (s + b) + rest;
  }

  function ElementIn(acc: nat, accBits: nat, bitLen: nat): (e: nat)
    ensures e < Pow2(bitLen)
  {
    LowBound(Shr(acc, accBits), bitLen);
    Low(Shr(acc, accBits), bitLen)
  }

  /** The leading bitLen live bits of the accumulator are the next element. */
  lemma ElementBits(acc: nat, accBits: nat, bitLen: nat)
    ensures BitsOf(acc, accBits + bitLen) == BitsOf(ElementIn(acc, accBits, bitLen), bitLen) + BitsOf(acc, accBits)
  {
    BitsSplit(acc, bitLen, accBits);
    BitsOfLow(Shr(acc, accBits), bitLen, bitLen);
  }

  // ---------------------------------------------------------------- ExpandArray

  /** Write one element as zero padding followed by its bytes, big-endian. */
  method WriteElement(out: array<byte>, j: nat, acc: nat, accBits: nat, bitLen: nat, bytePad: nat)
    requires GoodWidth(bitLen) && accBits < 8
    requires j + ElementWidth(bitLen) + bytePad <= out.Length
    modifies out
    ensures var w := ElementWidth(bitLen) + bytePad;
            && out[j..j + w] == EncodeElement(ElementIn(acc, accBits, bitLen), ElementWidth(bitLen), bytePad)
            && out[..j] == old(out[..j]) && out[j + w..] == old(out[j + w..])
  {
    hide BitAnd, Shr, ByteMask, ByteAt, BytesBE, Pow2;
    var outWidth := ElementWidth(bitLen) + bytePad;
    ghost var e := ElementIn(acc, accBits, bitLen);
    for x := 0 to bytePad
      invariant forall y :: j <= y < j + x ==> out[y] == 0
      invariant out[..j] == old(out[..j]) && out[j + outWidth..] == old(out[j + outWidth..])
    {
      out[j + x] := 0;
    }
    for x := bytePad to outWidth
      invariant forall y :: j <= y < j + bytePad ==> out[y] == 0
      invariant forall y :: j + bytePad <= y < j + x ==> out[y] == ByteAt(e, j + outWidth - y - 1)
      invariant out[..j] == old(out[..j]) && out[j + outWidth..] == old(out[j + outWidth..])
    {
      var k := outWidth - x - 1;
      assert accBits + 8 * k < 32;
      MaskedByte(acc, accBits, bitLen, k);
      out[j + x] := BitAnd(Shr(acc, accBits + 8 * k), ByteMask(bitLen, k));
    }
    forall y | 0 <= y < outWidth
      ensures out[j..j + outWidth][y] == EncodeElement(e, ElementWidth(bitLen), bytePad)[y]
    {
      if y >= bytePad { BytesBEAt(e, ElementWidth(bitLen), y - bytePad); }
    }
  }

  /** The buffer holds the groups of es, and beyond them what it held before. */
  ghost predicate Written(out: seq<byte>, was: seq<byte>, es: seq<nat>, w: nat, pad: nat)
  {
    var done := EncodeAll(es, w, pad);
    |out| == |was| && |done| <= |out| && out == done + was[|done|..]
  }

  /** What the loop of ExpandArray keeps. */
  ghost predicate Expanding(es: seq<nat>, held: seq<bool>, bitLen: nat, read: seq<byte>,
                            out: seq<byte>, was: seq<byte>, j: nat, pad: nat)
  {
    && Moving(es, held, bitLen, read, 8)
    && Written(out, was, es, ElementWidth(bitLen), pad)
    && j == |EncodeAll(es, ElementWidth(bitLen), pad)|
  }

  method ExpandArray(input: seq<byte>, out: array<byte>, bitLen: nat, bytePad: nat)
    requires GoodWidth(bitLen)
    requires out.Length == 8 * (ElementWidth(bitLen) + bytePad) * |input| / bitLen
    modifies out
    ensures var expanded := Expanded(input, bitLen, bytePad);
            && |expanded| <= out.Length
            && out[..] == expanded + old(out[..])[|expanded|..]
  {
    hide BitsOf, ToStream, Moving, Written, ElementIn, EncodeAll, ElementWidth, Elements;
    var outWidth := ElementWidth(bitLen) + bytePad;
    ghost var es: seq<nat> := [];
    var accBits: nat, accValue: nat, j: nat := 0, 0, 0;
    StartMoving(bitLen, 8);
    StartWritten(out[..], ElementWidth(bitLen), bytePad);
    assert input[..0] == [];
    for i := 0 to |input|
      invariant accBits < bitLen
      invariant Expanding(es, BitsOf(accValue, accBits), bitLen, input[..i], out[..], old(out[..]), j, bytePad)
    {
      accValue := ReadByte(input, i, accValue, accBits, bitLen, es);
      accBits := accBits + 8;
      // With bitLen or more bits in the accumulator, write the next output element.
      if accBits >= bitLen {
        accBits := accBits - bitLen;
        AppendElement(out, j, accValue, accBits, bitLen, bytePad, input, i + 1, es, old(out[..]));
        es := es + [ElementIn(accValue, accBits, bitLen)];
        j := j + outWidth;
      }
    }
    ExpandedAll(es, BitsOf(accValue, accBits), bitLen, input);
    WrittenAll(out[..], old(out[..]), es, ElementWidth(bitLen), bytePad);
  }

  lemma StartWritten(was: seq<byte>, w: nat, pad: nat)
    ensures Written(was, was, [], w, pad) && |EncodeAll([], w, pad)| == 0
  {
  }

  lemma WrittenAll(out: seq<byte>, was: seq<byte>, es: seq<nat>, w: nat, pad: nat)
    requires Written(out, was, es, w, pad)
    ensures var done := EncodeAll(es, w, pad);
            |done| <= |out| == |was| && out == done + was[|done|..]
  {
  }

  lemma ExpandedAll(es: seq<nat>, held: seq<bool>, bitLen: nat, input: seq<byte>)
    requires |held| < bitLen && Moving(es, held, bitLen, input[..|input|], 8)
    ensures es == Elements(input, bitLen)
  {
    assert input[..|input|] == input;
    FromToStream(es, bitLen, held);
  }

  method ReadByte(input: seq<byte>, i: nat, acc: nat, accBits: nat, bitLen: nat, ghost es: seq<nat>)
    returns (acc': nat)
    requires i < |input| && accBits + 8 <= 32 && Moving(es, BitsOf(acc, accBits), bitLen, input[..i], 8)
    ensures Moving(es, BitsOf(acc', accBits + 8), bitLen, input[..i + 1], 8)
  {
    hide BitsOf, ToStream, Moving, BitOr, ShlWord;
    assert Pow2(8) == 256;
    ShiftIn(acc, input[i], accBits, 8, 32);
    Absorb(es, BitsOf(acc, accBits), bitLen, input[..i], input[i], 8);
    acc' := BitOr(ShlWord(acc, 8, 32), input[i]);
    assert input[..i] + [input[i]] == input[..i + 1];
  }

  method AppendElement(out: array<byte>, j: nat, acc: nat, accBits: nat, bitLen: nat, bytePad: nat,
                       input: seq<byte>, i: nat, ghost es: seq<nat>, ghost was: seq<byte>)
    requires GoodWidth(bitLen) && accBits < 8 && i <= |input|
    requires Expanding(es, BitsOf(acc, accBits + bitLen), bitLen, input[..i], out[..], was, j, bytePad)
    requires out.Length == 8 * (ElementWidth(bitLen) + bytePad) * |input| / bitLen
    modifies out
    ensures Expanding(es + [ElementIn(acc, accBits, bitLen)], BitsOf(acc, accBits), bitLen, input[..i],
                      out[..], was, j + ElementWidth(bitLen) + bytePad, bytePad)
  {
    ghost var w, e := ElementWidth(bitLen), ElementIn(acc, accBits, bitLen);
    ElementBits(acc, accBits, bitLen);
    Emit(es, e, BitsOf(acc, accBits), bitLen, input[..i], 8);
    NextFits(es, e, BitsOf(acc, accBits), bitLen, input, i, w, bytePad);
    WriteElement(out, j, acc, accBits, bitLen, bytePad);
    ExtendOutput(old(out[..]), out[..], was, es, e, w, bytePad);
  }

  lemma NextFits(es: seq<nat>, e: nat, held: seq<bool>, bitLen: nat, input: seq<byte>, i: nat, w: nat, pad: nat)
    requires bitLen >= 1 && i <= |input| && Moving(es + [e], held, bitLen, input[..i], 8)
    ensures |EncodeAll(es, w, pad)| + (w + pad) <= 8 * (w + pad) * |input| / bitLen
  {
    assert |ToStream(es + [e], bitLen)| <= |ToStream(input[..i], 8)|;
    StreamLength(es + [e], bitLen);
    StreamLength(input[..i], 8);
    EncodeAllLength(es, w, pad);
    ElementFits(|es|, bitLen, pad + w, |input|);
  }

  lemma CutTwice<T>(s: seq<T>, j: nat, k: nat)
    requires j <= k <= |s|
    ensures s == (s[..j] + s[j..k]) + s[k..]
  {
  }

  lemma ExtendOutput(before: seq<byte>, after: seq<byte>, was: seq<byte>, es: seq<nat>, e: nat, w: nat, pad: nat)
    requires Written(before, was, es, w, pad) && |after| == |before|
    requires var j := |EncodeAll(es, w, pad)|;
             && j + w + pad <= |before|
             && after[..j] == before[..j] && after[j + w + pad..] == before[j + w + pad..]
             && after[j..j + w + pad] == EncodeElement(e, w, pad)
    ensures Written(after, was, es + [e], w, pad)
    ensures |EncodeAll(es + [e], w, pad)| == |EncodeAll(es, w, pad)| + w + pad
  {
    var j := |EncodeAll(es, w, pad)|;
    var k := j + w + pad;
    EncodeAllSnoc(es, e, w, pad);
    CutTwice(after, j, k);
    assert before[k..] == was[k..];
  }

  // ---------------------------------------------------------------- CompressArray

  /** Adding an n-bit digit of e at bit s, below an accumulator already shifted by bitLen. */
  lemma OrDigit(hi: nat, e: nat, bitLen: nat, s: nat, n: nat)
    requires s < bitLen && e < Pow2(bitLen) && Low(Shr(e, s), n) < Pow2(Min(n, bitLen - s))
    ensures BitOr(Filling(hi, e, bitLen, s + n), Shl(Low(Shr(e, s), n), s)) == Filling(hi, e, bitLen, s)
  {
    hide Shl, Shr, Low, BitOr, Pow2;
    var t, b := s + n, Low(Shr(e, s), n);
    DigitSplit(e, s, n);
    ShlBound(b, s, Min(n, bitLen - s));
    if t <= bitLen {
      ShlAdd(hi, bitLen - t, t);
      ShlSum(Shl(hi, bitLen - t), Shr(e, t), t);
      OrDisjoint(Shl(hi, bitLen - t) + Shr(e, t), Shl(b, s), t);
    } else {
      AboveTop(e, bitLen, t);
      OrDisjoint(hi, Shl(b, s), bitLen);
    }
  }

  lemma DigitSplit(e: nat, s: nat, n: nat)
    ensures Shl(Shr(e, s), s) == Shl(Shr(e, s + n), s + n) + Shl(Low(Shr(e, s), n), s)
  {
    var top := Shr(e, s + n);
    ShrAdd(e, s, n);
    SplitAt(Shr(e, s), n);
    ShlSum(Shl(top, n), Low(Shr(e, s), n), s);
    ShlAdd(top, n, s);
  }

  lemma {:induction false} ShlZero(k: nat)
    ensures Shl(0, k) == 0
  {
    if k == 0 {
    } else {
      ShlZero(k - 1);
    }
  }

  /** The byte that one round of ReadElement's loop ORs into the accumulator. */
  function ShiftedByte(b: nat, bitLen: nat, k: nat): nat
  {
    ShlWord(BitAnd(b, ByteMask(bitLen, k)), 8 * k, 32)
  }

  lemma ShiftedByteValue(group: seq<byte>, bitLen: nat, k: nat)
    requires k < |group| && 8 * k < bitLen <= 32
    ensures var b := ByteAt(Low(ValueBE(group), bitLen), k);
            && b < Pow2(Min(8, bitLen - 8 * k))
            && ShiftedByte(group[|group| - 1 - k], bitLen, k) == Shl(b, 8 * k)
  {
    var b := ByteAt(Low(ValueBE(group), bitLen), k);
    MaskedGroupByte(group, bitLen, k);
    ShlFits(b, 8 * k, Min(8, bitLen - 8 * k), 32);
  }

  lemma ShlFits(b: nat, s: nat, n: nat, width: nat)
    requires b < Pow2(n) && n + s <= width
    ensures ShlWord(b, s, width) == Shl(b, s)
  {
    ShlBound(b, s, n);
    Pow2Monotone(n + s, width);
    LowSmall(Shl(b, s), width);
  }

  /** The accumulator once the bytes of e above bit s are in place. */
  function Filling(hi: nat, e: nat, bitLen: nat, s: nat): nat
  {
    Shl(hi, bitLen) + Shl(Shr(e, s), s)
  }

  lemma FillByte(group: seq<byte>, hi: nat, bitLen: nat, k: nat, acc: nat)
    requires k < |group| && 8 * k < bitLen <= 32
    requires acc == Filling(hi, Low(ValueBE(group), bitLen), bitLen, 8 * (k + 1))
    ensures BitOr(acc, ShiftedByte(group[|group| - 1 - k], bitLen, k))
         == Filling(hi, Low(ValueBE(group), bitLen), bitLen, 8 * k)
  {
    hide Shl, Shr, Low, BitOr, ValueBE, ShiftedByte, Filling, Pow2;
    var e, piece := Low(ValueBE(group), bitLen), ShiftedByte(group[|group| - 1 - k], bitLen, k);
    ShiftedByteValue(group, bitLen, k);
    LowBound(ValueBE(group), bitLen);
    OrPiece(hi, e, bitLen, 8 * k, 8, acc, piece);
  }

  lemma OrPiece(hi: nat, e: nat, bitLen: nat, s: nat, n: nat, acc: nat, piece: nat)
    requires s < bitLen && e < Pow2(bitLen) && Low(Shr(e, s), n) < Pow2(Min(n, bitLen - s))
    requires acc == Filling(hi, e, bitLen, s + n) && piece == Shl(Low(Shr(e, s), n), s)
    ensures BitOr(acc, piece) == Filling(hi, e, bitLen, s)
  {
    OrDigit(hi, e, bitLen, s, n);
  }

  /** Shift the accumulator and read the next input element into it, byte by byte. */
  method ReadElement(input: seq<byte>, j: nat, acc: nat, ghost accBits: nat, bitLen: nat, bytePad: nat)
    returns (acc': nat)
    requires GoodWidth(bitLen) && accBits + bitLen <= 32 && j + ElementWidth(bitLen) + bytePad <= |input|
    ensures var e := DecodeElement(input[j..j + ElementWidth(bitLen) + bytePad], bytePad, bitLen);
            BitsOf(acc', accBits + bitLen) == BitsOf(acc, accBits) + BitsOf(e, bitLen)
  {
    hide BitsOf, BitOr, ValueBE, ShiftedByte, Pow2, Shl, Shr, Low;
    var inWidth := ElementWidth(bitLen) + bytePad;
    ghost var group := input[j + bytePad..j + inWidth];
    ghost var e := Low(ValueBE(group), bitLen);
    ghost var hi := Low(acc, 32 - bitLen);
    LowShl(acc, bitLen, 32);
    acc' := ShlWord(acc, bitLen, 32);
    LowBound(ValueBE(group), bitLen);
    AboveTop(e, bitLen, 8 * ElementWidth(bitLen));
    for x := bytePad to inWidth
      invariant acc' == Filling(hi, e, bitLen, 8 * (inWidth - x))
    {
      var k := inWidth - x - 1;
      FillByte(group, hi, bitLen, k, acc');
      acc' := BitOr(acc', ShiftedByte(input[j + x], bitLen, k));
    }
    FillingDone(hi, e, bitLen);
    BitsShiftIn(hi, e, accBits, bitLen);
    BitsOfLow(acc, accBits, 32 - bitLen);
    assert input[j..j + inWidth][bytePad..] == group;
  }

  lemma FillingDone(hi: nat, e: nat, bitLen: nat)
    ensures Filling(hi, e, bitLen, 0) == Shl(hi, bitLen) + e
  {
  }

  lemma AboveTop(e: nat, bitLen: nat, t: nat)
    requires e < Pow2(bitLen) && bitLen <= t
    ensures Shl(Shr(e, t), t) == 0
  {
    LowSmall(e, bitLen);
    ShrAdd(e, bitLen, t - bitLen);
    LowSmall(0, t - bitLen);
    ShlZero(t);
  }

  /** The asserted output length covers all the bits of the whole groups but a part of a byte. */
  lemma PackedBelow(n: nat, m: nat, bitLen: nat, width: nat, len: nat)
    requires width > 0 && m * width <= n && len == bitLen * n / (8 * width)
    ensures bitLen * m < 8 * len + 8
  {
    var all := bitLen * n;
    assert all < len * (8 * width) + 8 * width;
    assert len * (8 * width) + 8 * width == (8 * len + 8) * width;
    MulLe(bitLen, m * width, n);
    assert bitLen * (m * width) == (bitLen * m) * width;
    if bitLen * m >= 8 * len + 8 {
      MulLe(width, 8 * len + 8, bitLen * m);
      assert false;
    }
  }

  /** The bytes written come from whole groups, so every byte read lies inside the input. */
  predicate ReadsInside(n: nat, len: nat, bitLen: nat, width: nat)
    requires width > 0
  {
    8 * len <= bitLen * (n / width)
  }

  /** An input of whole groups is read inside its bounds. */
  lemma WholeGroupsInside(n: nat, len: nat, bitLen: nat, width: nat)
    requires width > 0 && n % width == 0 && len == bitLen * n / (8 * width)
    ensures ReadsInside(n, len, bitLen, width)
  {
    var m := n / width;
    WholeGroups(n, width);
    assert bitLen * n == (bitLen * m) * width;
    assert len * (8 * width) <= bitLen * n;
    assert len * (8 * width) == (8 * len) * width;
    assert width * (bitLen * m + 1) == bitLen * n + width;
    if bitLen * m < 8 * len {
      MulLe(width, bitLen * m + 1, 8 * len);
      assert false;
    }
  }

  /** One 20-bit group and two bytes more: the asserted length takes 32 bits of the 20. */
  lemma PartialGroupReadsPast()
    ensures GoodWidth(20) && 20 * 5 / (8 * ElementWidth(20)) == 4 && !ReadsInside(5, 4, 20, ElementWidth(20))
  {
    assert ElementWidth(20) == 3;
  }

  lemma MulNonNegative(a: int, b: int)
    requires a >= 0 && b >= 0
    ensures a * b >= 0
  {
  }

  /** Group k of the input holds element k. */
  ghost predicate GroupsOf(input: seq<byte>, all: seq<nat>, w: nat, pad: nat, bitLen: nat)
  {
    && |all| * (pad + w) <= |input|
    && forall k :: 0 <= k < |all| ==> GroupIs(input, k, w, pad, bitLen, all[k])
  }

  ghost predicate GroupIs(input: seq<byte>, k: nat, w: nat, pad: nat, bitLen: nat, e: nat)
  {
    var j := k * (pad + w);
    j + pad + w <= |input| && e == DecodeElement(input[j..j + pad + w], pad, bitLen)
  }

  lemma {:induction false} DecodedGroups(input: seq<byte>, w: nat, pad: nat, bitLen: nat, m: nat)
    requires w > 0 && m * (pad + w) <= |input| < m * (pad + w) + (pad + w)
    ensures GroupsOf(input, DecodeAll(input, w, pad, bitLen), w, pad, bitLen)
    decreases m
  {
    var all, W := DecodeAll(input, w, pad, bitLen), pad + w;
    DecodeAllLength(input, w, pad, bitLen, m);
    if m == 0 {
    } else {
      PeelOne(m, W);
      var rest := input[W..];
      DecodedGroups(rest, w, pad, bitLen, m - 1);
      forall k | 0 <= k < m ensures GroupIs(input, k, w, pad, bitLen, all[k]) {
        if k > 0 {
          PeelOne(k, W);
          assert GroupIs(rest, k - 1, w, pad, bitLen, all[1..][k - 1]);
          var j := (k - 1) * W;
          assert rest[j..j + W] == input[j + W..j + W + W];
        }
      }
    }
  }

  method CompressArray(input: seq<byte>, out: array<byte>, bitLen: nat, bytePad: nat)
    requires GoodWidth(bitLen)
    requires out.Length == bitLen * |input| / (8 * (ElementWidth(bitLen) + bytePad))
    requires ReadsInside(|input|, out.Length, bitLen, ElementWidth(bitLen) + bytePad)
    modifies out
    ensures out[..] == Packed(DecodeAll(input, ElementWidth(bitLen), bytePad, bitLen), bitLen)
  {
    ghost var all := OutputBytes(input, out.Length, bitLen, bytePad);
    CompressElements(input, out, bitLen, bytePad, all);
  }

  /** The loop of CompressArray, over an input known to hold the elements `all`. */
  method CompressElements(input: seq<byte>, out: array<byte>, bitLen: nat, bytePad: nat, ghost all: seq<nat>)
    requires GoodWidth(bitLen) && GroupsOf(input, all, ElementWidth(bitLen), bytePad, bitLen)
    requires 8 * out.Length <= |ToStream(all, bitLen)| < 8 * out.Length + 8
    modifies out
    ensures out[..] == Packed(all, bitLen)
  {
    hide BitsOf, ToStream, Moving, GroupsOf, ElementWidth, Packed;
    ghost var n: nat := 0;
    var accBits: nat, accValue: nat, j: nat := 0, 0, 0;
    StartMoving(8, bitLen);
    assert out[..0] == [] && all[..0] == [];
    for i := 0 to out.Length
      invariant accBits < bitLen && n <= |all| && j == n * (bytePad + ElementWidth(bitLen))
      invariant Moving(out[..i], BitsOf(accValue, accBits), 8, all[..n], bitLen)
    {
      var b;
      b, accValue, accBits, j, n := NextByte(input, j, accValue, accBits, bitLen, bytePad, out[..i], all, n);
      out[i] := b;
      assert out[..i + 1] == out[..i] + [b];
    }
    assert out[..] == out[..out.Length];
    CompressedAll(out[..], BitsOf(accValue, accBits), bitLen, all, n);
  }

  /** The output holds the whole bytes of the element stream. */
  lemma OutputBytes(input: seq<byte>, len: nat, bitLen: nat, pad: nat) returns (all: seq<nat>)
    requires GoodWidth(bitLen) && ReadsInside(|input|, len, bitLen, ElementWidth(bitLen) + pad)
    requires len == bitLen * |input| / (8 * (ElementWidth(bitLen) + pad))
    ensures all == DecodeAll(input, ElementWidth(bitLen), pad, bitLen)
    ensures GroupsOf(input, all, ElementWidth(bitLen), pad, bitLen)
    ensures 8 * len <= |ToStream(all, bitLen)| < 8 * len + 8
  {
    hide DecodeAll, ToStream, GroupsOf;
    var w := ElementWidth(bitLen);
    var m := |input| / (w + pad);
    GroupBounds(|input|, w + pad);
    all := DecodeAll(input, w, pad, bitLen);
    DecodeAllLength(input, w, pad, bitLen, m);
    DecodedGroups(input, w, pad, bitLen, m);
    StreamLength(all, bitLen);
    PackedBelow(|input|, m, bitLen, w + pad, len);
  }

  lemma GroupBounds(n: nat, w: nat)
    requires w > 0
    ensures n / w * w <= n < n / w * w + w
  {
  }

  lemma WholeGroups(n: nat, w: nat)
    requires w > 0 && n % w == 0
    ensures n == n / w * w
  {
  }

  lemma EmitByte(done: seq<byte>, acc: nat, accBits: nat, bitLen: nat, read: seq<nat>)
    requires accBits >= 8 && Moving(done, BitsOf(acc, accBits), 8, read, bitLen)
    ensures var b := BitAnd(Shr(acc, accBits - 8), 0xFF);
            b < 256 && Moving(done + [b], BitsOf(acc, accBits - 8), 8, read, bitLen)
  {
    hide BitsOf, Moving, Shr;
    assert Ones(8) == 0xFF && Pow2(8) == 256;
    var rest := accBits - 8;
    AndOnes(Shr(acc, rest), 8);
    ElementBits(acc, rest, 8);
    Emit(done, ElementIn(acc, rest, 8), BitsOf(acc, rest), 8, read, bitLen);
  }

  lemma StillToRead(done: seq<byte>, held: seq<bool>, bitLen: nat, all: seq<nat>, n: nat)
    requires n <= |all| && Moving(done, held, 8, all[..n], bitLen)
    requires |held| < 8 && 8 * |done| + 8 <= |ToStream(all, bitLen)|
    ensures n < |all|
  {
    StreamLength(done, 8);
    assert |ToStream(done, 8) + held| == |ToStream(all[..n], bitLen)|;
    assert all[..|all|] == all;
  }

  lemma CompressedAll(done: seq<byte>, held: seq<bool>, bitLen: nat, all: seq<nat>, n: nat)
    requires n <= |all| && Moving(done, held, 8, all[..n], bitLen)
    requires |ToStream(all, bitLen)| < 8 * |done| + 8
    ensures done == Packed(all, bitLen)
  {
    assert all == all[..n] + all[n..];
    ToStreamConcat(all[..n], all[n..], bitLen);
    var more := ToStream(all[n..], bitLen);
    SeqAssoc(ToStream(done, 8), held, more);
    StreamLength(done, 8);
    FromToStream(done, 8, held + more);
  }

  /** One round of the loop: refill if needed, then take the leading byte. */
  method NextByte(input: seq<byte>, j: nat, acc: nat, accBits: nat, bitLen: nat, bytePad: nat,
                  ghost done: seq<byte>, ghost all: seq<nat>, ghost n: nat)
    returns (b: byte, acc': nat, accBits': nat, j': nat, ghost n': nat)
    requires GoodWidth(bitLen) && GroupsOf(input, all, ElementWidth(bitLen), bytePad, bitLen)
    requires accBits < bitLen && n <= |all| && j == n * (bytePad + ElementWidth(bitLen))
    requires 8 * |done| + 8 <= |ToStream(all, bitLen)|
    requires Moving(done, BitsOf(acc, accBits), 8, all[..n], bitLen)
    ensures accBits' < bitLen && n' <= |all| && j' == n' * (bytePad + ElementWidth(bitLen))
    ensures Moving(done + [b], BitsOf(acc', accBits'), 8, all[..n'], bitLen)
  {
    hide BitsOf, ToStream, Moving, GroupsOf, ElementWidth, BitAnd, Shr;
    acc', accBits', j', n' := Refill(input, j, acc, accBits, bitLen, bytePad, done, all, n);
    EmitByte(done, acc', accBits', bitLen, all[..n']);
    accBits' := accBits' - 8;
    b := BitAnd(Shr(acc', accBits'), 0xFF);
  }

  /** With fewer than 8 bits in the accumulator, read the next input element. */
  method Refill(input: seq<byte>, j: nat, acc: nat, accBits: nat, bitLen: nat, bytePad: nat,
                ghost done: seq<byte>, ghost all: seq<nat>, ghost n: nat)
    returns (acc': nat, accBits': nat, j': nat, ghost n': nat)
    requires GoodWidth(bitLen) && GroupsOf(input, all, ElementWidth(bitLen), bytePad, bitLen)
    requires accBits < bitLen && n <= |all| && j == n * (bytePad + ElementWidth(bitLen))
    requires 8 * |done| + 8 <= |ToStream(all, bitLen)|
    requires Moving(done, BitsOf(acc, accBits), 8, all[..n], bitLen)
    ensures 8 <= accBits' < bitLen + 8 && n' <= |all| && j' == n' * (bytePad + ElementWidth(bitLen))
    ensures Moving(done, BitsOf(acc', accBits'), 8, all[..n'], bitLen)
  {
    hide BitsOf, ToStream, Moving, ElementWidth, GroupIs;
    acc', accBits', j', n' := acc, accBits, j, n;
    if accBits < 8 {
      StillToRead(done, BitsOf(acc, accBits), bitLen, all, n);
      acc' := FeedElement(input, j, acc, accBits, bitLen, bytePad, done, all, n);
      PeelOne(n + 1, bytePad + ElementWidth(bitLen));
      n', j' := n + 1, j + (ElementWidth(bitLen) + bytePad);
      accBits' := accBits + bitLen;
    }
  }

  method FeedElement(input: seq<byte>, j: nat, acc: nat, accBits: nat, bitLen: nat, bytePad: nat,
                     ghost done: seq<byte>, ghost all: seq<nat>, ghost n: nat)
    returns (acc': nat)
    requires GoodWidth(bitLen) && accBits < 8 && n < |all|
    requires GroupIs(input, n, ElementWidth(bitLen), bytePad, bitLen, all[n])
    requires j == n * (bytePad + ElementWidth(bitLen))
    requires Moving(done, BitsOf(acc, accBits), 8, all[..n], bitLen)
    ensures Moving(done, BitsOf(acc', accBits + bitLen), 8, all[..n + 1], bitLen)
  {
    hide BitsOf, ToStream, Moving, ElementWidth, DecodeElement, Pow2;
    acc' := ReadElement(input, j, acc, accBits, bitLen, bytePad);
    Absorb(done, BitsOf(acc, accBits), 8, all[..n], all[n], bitLen);
    assert all[..n] + [all[n]] == all[..n + 1];
  }

  // ---------------------------------------------------------------- round trips

  lemma {:induction false} DecodeEncode(es: seq<nat>, w: nat, pad: nat, bitLen: nat)
    requires w > 0 && bitLen <= 8 * w && forall i :: 0 <= i < |es| ==> es[i] < Pow2(bitLen)
    ensures DecodeAll(EncodeAll(es, w, pad), w, pad, bitLen) == es
  {
    if es == [] {
    } else {
      DecodeEncode(es[1..], w, pad, bitLen);
      var bs, group := EncodeAll(es, w, pad), EncodeElement(es[0], w, pad);
      assert bs[..pad + w] == group && bs[pad + w..] == EncodeAll(es[1..], w, pad);
      assert group[pad..] == BytesBE(es[0], w);
      Pow2Monotone(bitLen, 8 * w);
      ValueOfBytes(es[0], w);
      LowSmall(es[0], bitLen);
    }
  }

  /** Packing elements whose bits fill whole bytes loses nothing. */
  lemma UnpackPacked(es: seq<nat>, bitLen: nat)
    requires bitLen >= 1 && bitLen * |es| % 8 == 0 && forall i :: 0 <= i < |es| ==> es[i] < Pow2(bitLen)
    ensures Elements(Packed(es, bitLen), bitLen) == es
    ensures 8 * |Packed(es, bitLen)| == bitLen * |es|
  {
    StreamLength(es, bitLen);
    var m := bitLen * |es| / 8;
    ToFromStream(ToStream(es, bitLen), 8, m);
    FromToStream(es, bitLen, []);
    assert ToStream(es, bitLen) + [] == ToStream(es, bitLen);
  }

  /** Unpacking bytes whose bits fill whole elements loses nothing. */
  lemma PackUnpacked(packed: seq<byte>, bitLen: nat)
    requires bitLen >= 1 && 8 * |packed| % bitLen == 0
    ensures Packed(Elements(packed, bitLen), bitLen) == packed
    ensures bitLen * |Elements(packed, bitLen)| == 8 * |packed|
  {
    StreamLength(packed, 8);
    var m := 8 * |packed| / bitLen;
    WholeGroups(8 * |packed|, bitLen);
    ToFromStream(ToStream(packed, 8), bitLen, m);
    assert Pow2(8) == 256;
    FromToStream(packed, 8, []);
    assert ToStream(packed, 8) + [] == ToStream(packed, 8);
  }

  /** ExpandArray undoes CompressArray on byte-aligned elements below 2^bitLen. */
  lemma ExpandCompressed(es: seq<nat>, bitLen: nat, pad: nat)
    requires GoodWidth(bitLen) && bitLen * |es| % 8 == 0 && forall i :: 0 <= i < |es| ==> es[i] < Pow2(bitLen)
    ensures var x := EncodeAll(es, ElementWidth(bitLen), pad);
            Expanded(Packed(DecodeAll(x, ElementWidth(bitLen), pad, bitLen), bitLen), bitLen, pad) == x
  {
    DecodeEncode(es, ElementWidth(bitLen), pad, bitLen);
    UnpackPacked(es, bitLen);
  }

  /** CompressArray undoes ExpandArray. */
  lemma CompressExpanded(packed: seq<byte>, bitLen: nat, pad: nat)
    requires GoodWidth(bitLen) && 8 * |packed| % bitLen == 0
    ensures Packed(DecodeAll(Expanded(packed, bitLen, pad), ElementWidth(bitLen), pad, bitLen), bitLen) == packed
  {
    DecodeEncode(Elements(packed, bitLen), ElementWidth(bitLen), pad, bitLen);
    PackUnpacked(packed, bitLen);
  }
}
