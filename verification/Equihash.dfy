/** Equihash<N, K>: the verifier and the basic solver. */
module Equihash {
  import opened Prelude
  import opened Bits
  import opened BitStream
  import opened EquihashPacking
  import opened EquihashTree
  import opened EquihashBinding
  import opened EquihashVerify
  import opened EquihashSolve

  // ---------------------------------------------------------------- parameters

  datatype Params = Params(n: nat, k: nat)

  function CollisionBitLength(p: Params): nat { p.n / (p.k + 1) }

  function CollisionByteLength(p: Params): nat { ElementWidth(CollisionBitLength(p)) }

  function IndicesPerHashOutput(p: Params): nat { if p.n == 0 then 0 else 512 / p.n }

  function HashOutput(p: Params): nat { IndicesPerHashOutput(p) * p.n / 8 }

  function HashLength(p: Params): nat { (p.k + 1) * CollisionByteLength(p) }

  function SolutionWidth(p: Params): nat { Pow2(p.k) * (CollisionBitLength(p) + 1) / 8 }

  /** Number of rows in the first list; indices are below it. */
  function InitSize(p: Params): nat { Pow2(CollisionBitLength(p) + 1) }

  /** The static and run-time width conditions of the code. */
  predicate GoodParams(p: Params)
  {
    && p.k >= 1 && 0 < p.n <= 512 && p.n % 8 == 0
    && p.n == (p.k + 1) * CollisionBitLength(p)
    && 8 <= CollisionBitLength(p) <= 24
    && Pow2(p.k) * (CollisionBitLength(p) + 1) % 8 == 0
  }

  /** The four instantiations meet the width conditions. */
  lemma InstancesGood()
    ensures GoodParams(Params(96, 3)) && GoodParams(Params(200, 9))
    ensures GoodParams(Params(96, 5)) && GoodParams(Params(48, 5))
  {
    assert Pow2(3) == 8 && Pow2(5) == 32 && Pow2(9) == 512;
  }

  function FullWidth(p: Params): nat { 2 * CollisionByteLength(p) + 4 * (if p.k == 0 then 0 else Pow2(p.k - 1)) }

  function FinalFullWidth(p: Params): nat { 2 * CollisionByteLength(p) + 4 * Pow2(p.k) }

  /** No row ever outgrows its fixed-width buffer, in the solver or in the verifier; the last merge trims nothing. */
  lemma RowsFitBuffers(p: Params, l: nat)
    requires GoodParams(p) && l <= p.k
    ensures l < p.k ==> (p.k + 1 - l) * CollisionByteLength(p) + 4 * Pow2(l) <= FullWidth(p)
    ensures (p.k + 1 - l) * CollisionByteLength(p) + 4 * Pow2(l) <= FinalFullWidth(p)
    ensures l + 1 == p.k ==> (p.k + 1 - l) * CollisionByteLength(p) + 2 * (4 * Pow2(l)) <= FinalFullWidth(p)
  {
    hide CollisionBitLength, Pow2;
    var cb := CollisionByteLength(p);
    if l < p.k {
      LevelsBelowPower(l, p.k - 1);
      WidthBound(p.k - 1 - l, cb);
      assert (p.k + 1 - l) * cb == (p.k - 1 - l) * cb + 2 * cb;
      Pow2Monotone(p.k - 1, p.k);
      DoublePow2(l);
    }
  }

  lemma WidthBound(d: nat, cb: nat)
    requires cb <= 4
    ensures d * cb <= 4 * d
  {
    MulLe(d, cb, 4);
  }

  lemma {:induction false} LevelsBelowPower(l: nat, m: nat)
    requires l <= m
    ensures m - l + Pow2(l) <= Pow2(m)
    decreases m
  {
    if l == m {
    } else {
      LevelsBelowPower(l, m - 1);
    }
  }

  // ---------------------------------------------------------------- leaves

  /** The slice of the hash output that belongs to index i. */
  function LeafBytes(p: Params, blake: nat -> seq<byte>, i: nat): seq<byte>
    requires IndicesPerHashOutput(p) > 0
  {
    var iph := IndicesPerHashOutput(p);
    Take(Drop(blake(i / iph), i % iph * p.n / 8), p.n / 8)
  }

  ghost predicate GoodHash(p: Params, blake: nat -> seq<byte>)
  {
    forall g: nat :: |blake(g)| == HashOutput(p)
  }

  function LeafHash(p: Params, blake: nat -> seq<byte>, i: nat): seq<byte>
  {
    if IndicesPerHashOutput(p) > 0 && CollisionBitLength(p) > 0
    then Expanded(LeafBytes(p, blake, i), CollisionBitLength(p), 0) else []
  }

  /** The puzzle that a parameter choice and a hash function pose. */
  function PuzzleOf(p: Params, blake: nat -> seq<byte>): Puzzle
  {
    Puzzle(i => LeafHash(p, blake, i), CollisionByteLength(p), p.k)
  }

  lemma PerHash(p: Params)
    requires GoodParams(p)
    ensures IndicesPerHashOutput(p) >= 1
  {
    hide CollisionBitLength, Pow2;
    DivAtLeast(512, p.n, 1);
  }

  lemma OutputFacts(p: Params, r: nat)
    requires GoodParams(p) && r < IndicesPerHashOutput(p)
    ensures var m := p.n / 8;
            r * p.n / 8 == r * m && HashOutput(p) == IndicesPerHashOutput(p) * m && r * m + m <= HashOutput(p)
  {
    hide IndicesPerHashOutput, CollisionBitLength, Pow2;
    SliceFits(r, IndicesPerHashOutput(p), p.n / 8);
  }

  lemma LeafBytesLength(p: Params, blake: nat -> seq<byte>, i: nat)
    requires GoodParams(p) && GoodHash(p, blake)
    ensures IndicesPerHashOutput(p) > 0 && |LeafBytes(p, blake, i)| == p.n / 8
  {
    hide GoodParams, IndicesPerHashOutput, HashOutput;
    PerHash(p);
    var iph := IndicesPerHashOutput(p);
    OutputFacts(p, i % iph);
    SliceLength(blake(i / iph), i % iph * p.n / 8, p.n / 8);
  }

  lemma SliceLength(s: seq<byte>, from: nat, n: nat)
    requires from + n <= |s|
    ensures |Take(Drop(s, from), n)| == n
  {
  }

  lemma SliceFits(r: nat, iph: nat, m: nat)
    requires r < iph
    ensures r * (8 * m) / 8 == r * m && iph * (8 * m) / 8 == iph * m && r * m + m <= iph * m
  {
    assert r * (8 * m) == 8 * (r * m) && iph * (8 * m) == 8 * (iph * m);
    MulLe(m, r + 1, iph);
  }

  lemma ElementCount(p: Params, bytes: seq<byte>)
    requires GoodParams(p) && |bytes| == p.n / 8
    ensures |Elements(bytes, CollisionBitLength(p))| == p.k + 1
  {
    hide FromStream, ToStream, Elements, Pow2;
    LeafDivides(p);
    PackUnpacked(bytes, CollisionBitLength(p));
    SameFactor(CollisionBitLength(p), |Elements(bytes, CollisionBitLength(p))|, p.k + 1);
  }

  lemma LeafHashLength(p: Params, blake: nat -> seq<byte>, i: nat)
    requires GoodParams(p) && GoodHash(p, blake)
    ensures |LeafHash(p, blake, i)| == HashLength(p)
  {
    hide EncodeAll, Elements, LeafBytes, IndicesPerHashOutput, GoodHash, ElementWidth, Pow2;
    LeafBytesLength(p, blake, i);
    ElementCount(p, LeafBytes(p, blake, i));
    EncodeAllLength(Elements(LeafBytes(p, blake, i), CollisionBitLength(p)), CollisionByteLength(p), 0);
  }

  lemma LeafDivides(p: Params)
    requires GoodParams(p)
    ensures 8 * (p.n / 8) == p.n && p.n % CollisionBitLength(p) == 0
  {
    DivModUnique(p.n, CollisionBitLength(p), p.k + 1, 0);
  }

  lemma SameFactor(a: nat, x: nat, y: nat)
    requires a > 0 && a * x == y * a
    ensures x == y
  {
    assert (x - y) * a == 0;
    if x > y { MulAtLeast(x - y, a); } else if y > x { MulAtLeast(y - x, a); }
  }

  lemma PuzzleGood(p: Params, blake: nat -> seq<byte>)
    requires GoodParams(p) && GoodHash(p, blake)
    ensures GoodPuzzle(PuzzleOf(p, blake)) && HashLen(PuzzleOf(p, blake), 0) == HashLength(p)
  {
    hide LeafHash, GoodHash;
    var pz := PuzzleOf(p, blake);
    forall i: nat ensures |pz.leaf(i)| == HashLength(p) {
      LeafHashLength(p, blake, i);
    }
  }

  // ---------------------------------------------------------------- which bytes belong to an index

  /** The slices of the first r indices that hash output g covers, one after the other. */
  function Slices(p: Params, blake: nat -> seq<byte>, g: nat, r: nat): seq<byte>
    requires IndicesPerHashOutput(p) > 0
  {
    if r == 0 then []
    else Slices(p, blake, g, r - 1) + LeafBytes(p, blake, g * IndicesPerHashOutput(p) + (r - 1))
  }

  lemma LeafInOutput(p: Params, blake: nat -> seq<byte>, g: nat, r: nat)
    requires r < IndicesPerHashOutput(p)
    ensures LeafBytes(p, blake, g * IndicesPerHashOutput(p) + r) == Take(Drop(blake(g), r * p.n / 8), p.n / 8)
  {
    hide IndicesPerHashOutput, Take, Drop;
    DivModUnique(g * IndicesPerHashOutput(p) + r, IndicesPerHashOutput(p), g, r);
  }

  lemma LeafIsSlice(p: Params, blake: nat -> seq<byte>, g: nat, r: nat)
    requires GoodParams(p) && GoodHash(p, blake) && r < IndicesPerHashOutput(p)
    ensures var m := p.n / 8;
            && r * m + m <= |blake(g)|
            && LeafBytes(p, blake, g * IndicesPerHashOutput(p) + r) == blake(g)[r * m..r * m + m]
  {
    hide GoodParams, IndicesPerHashOutput, HashOutput, LeafBytes;
    LeafInOutput(p, blake, g, r);
    OutputFacts(p, r);
    SliceIs(blake(g), r * (p.n / 8), p.n / 8);
  }

  lemma SliceIs(s: seq<byte>, from: nat, n: nat)
    requires from + n <= |s|
    ensures Take(Drop(s, from), n) == s[from..from + n]
  {
  }

  lemma {:induction false} SlicesAre(p: Params, blake: nat -> seq<byte>, g: nat, r: nat)
    requires GoodParams(p) && GoodHash(p, blake) && 0 < IndicesPerHashOutput(p) && r <= IndicesPerHashOutput(p)
    ensures r * (p.n / 8) <= |blake(g)| && Slices(p, blake, g, r) == blake(g)[..r * (p.n / 8)]
    decreases r
  {
    hide GoodParams, GoodHash, IndicesPerHashOutput, LeafBytes;
    var m := p.n / 8;
    if r == 0 {
    } else {
      SlicesAre(p, blake, g, r - 1);
      LeafIsSlice(p, blake, g, r - 1);
      PeelOne(r, m);
      assert blake(g)[..r * m] == blake(g)[..(r - 1) * m] + blake(g)[(r - 1) * m..r * m];
    }
  }

  /** Every hash output is shared out completely and in order among its indices. */
  lemma SlicesCover(p: Params, blake: nat -> seq<byte>, g: nat)
    requires GoodParams(p) && GoodHash(p, blake)
    ensures IndicesPerHashOutput(p) > 0 && Slices(p, blake, g, IndicesPerHashOutput(p)) == blake(g)
  {
    hide GoodParams, IndicesPerHashOutput, HashOutput, LeafBytes, Slices;
    PerHash(p);
    var iph := IndicesPerHashOutput(p);
    SlicesAre(p, blake, g, iph);
    OutputFacts(p, 0);
    assert blake(g)[..iph * (p.n / 8)] == blake(g);
  }

  /** Packing the leaf of the r-th index of hash output g gives back the r-th slice of that output. */
  lemma LeafPacksBack(p: Params, blake: nat -> seq<byte>, g: nat, r: nat)
    requires GoodParams(p) && GoodHash(p, blake) && r < IndicesPerHashOutput(p)
    ensures var m, b := p.n / 8, CollisionBitLength(p);
            var leaf := PuzzleOf(p, blake).leaf(g * IndicesPerHashOutput(p) + r);
            && r * m + m <= |blake(g)|
            && Packed(DecodeAll(leaf, ElementWidth(b), 0, b), b) == blake(g)[r * m..r * m + m]
  {
    hide GoodHash, IndicesPerHashOutput, Expanded, Packed, DecodeAll, LeafBytes, ElementWidth, Pow2;
    var i := g * IndicesPerHashOutput(p) + r;
    LeafIsSlice(p, blake, g, r);
    LeafBytesLength(p, blake, i);
    LeafDivides(p);
    CompressExpanded(LeafBytes(p, blake, i), CollisionBitLength(p), 0);
  }

  // ---------------------------------------------------------------- index packing

  /** Zero padding in front of an element only widens its big-endian encoding. */
  lemma {:induction false} WideEncoding(e: nat, w: nat, pad: nat)
    requires e < Pow2(8 * w)
    ensures EncodeElement(e, w, pad) == BytesBE(e, w + pad)
  {
    hide BytesBE, ValueBE, Low, Shr, Pow2;
    var wide := BytesBE(e, w + pad);
    forall x | 0 <= x < w + pad ensures EncodeElement(e, w, pad)[x] == wide[x] {
      BytesBEAt(e, w + pad, x);
      if x >= pad {
        BytesBEAt(e, w, x - pad);
      } else {
        HighByteZero(e, 8 * w, w + pad - 1 - x);
      }
    }
  }

  lemma HighByteZero(e: nat, n: nat, k: nat)
    requires e < Pow2(n) && n <= 8 * k
    ensures ByteAt(e, k) == 0
  {
    LowSmall(e, n);
    ShrAdd(e, n, 8 * k - n);
    LowSmall(0, 8 * k - n);
    LowSmall(0, 8);
  }

  /** Elements stored in four bytes each are the index bytes. */
  lemma {:induction false} EncodeIsIndexBytes(es: seq<nat>, w: nat)
    requires w <= 4 && forall i :: 0 <= i < |es| ==> es[i] < Pow2(8 * w)
    ensures EncodeAll(es, w, 4 - w) == IndexBytes(es)
  {
    hide EncodeElement, BytesBE, Pow2;
    if es == [] {
    } else {
      WideEncoding(es[0], w, 4 - w);
      EncodeIsIndexBytes(es[1..], w);
    }
  }

  lemma IndexWidth(p: Params)
    requires GoodParams(p)
    ensures var b := CollisionBitLength(p) + 1;
            GoodWidth(b) && ElementWidth(b) <= 4 && b <= 8 * ElementWidth(b) && b <= 32
  {
  }

  lemma SolutionCount(p: Params, soln: seq<byte>)
    requires GoodParams(p) && |soln| == SolutionWidth(p)
    ensures 8 * |soln| == (CollisionBitLength(p) + 1) * Pow2(p.k)
    ensures 8 * |soln| % (CollisionBitLength(p) + 1) == 0
    ensures |Elements(soln, CollisionBitLength(p) + 1)| == Pow2(p.k)
  {
    hide Elements, Pow2;
    var b := CollisionBitLength(p) + 1;
    DivModUnique(8 * |soln|, b, Pow2(p.k), 0);
    PackUnpacked(soln, b);
    SameFactor(b, |Elements(soln, b)|, Pow2(p.k));
  }

  /** The indices below InitSize are 32-bit indices. */
  lemma SmallIndices(p: Params)
    requires GoodParams(p)
    ensures InitSize(p) <= Pow2(8 * INDEX_BYTES)
  {
    Pow2Monotone(CollisionBitLength(p) + 1, 8 * INDEX_BYTES);
  }

  /** Whole four-byte indices are read exactly when fewer than a quarter of an element's bits are left over. */
  lemma WholeIndices(n: nat, q: nat, b: nat)
    requires b > 0 && q * b <= 8 * n < (q + 1) * b && (32 * n / b) % 4 == 0
    ensures 32 * n / b == 4 * q
  {
    var v := 32 * n / b;
    var r := 32 * n % b;
    assert 32 * n == v * b + r;
    if v < 4 * q {
      assert (4 * q - v) * b >= b by { MulAtLeast(4 * q - v, b); }
    } else if v >= 4 * q + 4 {
      assert (v - 4 * q - 4) * b >= 0 by { MulNonNegative(v - 4 * q - 4, b); }
    }
  }

  lemma IndicesExpanded(minimal: seq<byte>, b: nat)
    requires GoodWidth(b) && (8 * INDEX_BYTES * |minimal| / b) % INDEX_BYTES == 0
    ensures ElementWidth(b) <= INDEX_BYTES && Index32(Elements(minimal, b))
    ensures Expanded(minimal, b, INDEX_BYTES - ElementWidth(b)) == IndexBytes(Elements(minimal, b))
    ensures |IndexBytes(Elements(minimal, b))| == 8 * INDEX_BYTES * |minimal| / b
  {
    hide Elements, EncodeAll, IndexBytes, Pow2;
    var es := Elements(minimal, b);
    ElementsThatFit(minimal, b);
    WholeIndices(|minimal|, |es|, b);
    Pow2Monotone(b, 8 * ElementWidth(b));
    Pow2Monotone(b, 8 * INDEX_BYTES);
    EncodeIsIndexBytes(es, ElementWidth(b));
    IndexBytesLength(es);
  }

  lemma ReadIndex(es: seq<nat>, i: nat)
    requires i < |es| && Index32(es)
    ensures 4 * i + 4 <= |IndexBytes(es)| && ValueBE(IndexBytes(es)[4 * i..4 * i + 4]) == es[i]
  {
    hide IndexBytes, BytesBE, ValueBE, Pow2;
    IndexBytesAt(es, i);
    ValueOfBytes(es[i], 4);
  }

  /** Unpack indices; the length condition is that the last index read lies inside the buffer. */
  method GetIndicesFromMinimal(minimal: seq<byte>, cBitLen: nat) returns (ret: seq<nat>)
    requires GoodWidth(cBitLen + 1)
    requires (8 * INDEX_BYTES * |minimal| / (cBitLen + 1)) % INDEX_BYTES == 0
    ensures ret == Elements(minimal, cBitLen + 1)
  {
    hide Elements, IndexBytes, Expanded, Index32, ValueBE, Pow2;
    var b := cBitLen + 1;
    IndicesExpanded(minimal, b);
    var lenIndices := 8 * INDEX_BYTES * |minimal| / b;
    var buffer := new byte[lenIndices](_ => 0);
    ExpandArray(minimal, buffer, b, INDEX_BYTES - ElementWidth(b));
    ret := ReadIndices(buffer[..], Elements(minimal, b));
  }

  /** The loop that reads four-byte indices. */
  method ReadIndices(bytes: seq<byte>, ghost es: seq<nat>) returns (ret: seq<nat>)
    requires Index32(es) && bytes == IndexBytes(es)
    ensures ret == es
  {
    hide IndexBytes, Index32, ValueBE;
    IndexBytesLength(es);
    ret := [];
    var i := 0;
    while i < |bytes|
      invariant i == 4 * |ret| <= |bytes|
      invariant ret == es[..|ret|]
    {
      ReadIndex(es, |ret|);
      ret := ret + [ValueBE(bytes[i..i + 4])];
      i := i + 4;
    }
    assert es[..|es|] == es;
  }

  lemma WholeSolution(p: Params, soln: seq<byte>)
    requires GoodParams(p) && |soln| == SolutionWidth(p)
    ensures GoodWidth(CollisionBitLength(p) + 1)
    ensures (8 * INDEX_BYTES * |soln| / (CollisionBitLength(p) + 1)) % INDEX_BYTES == 0
  {
    hide Pow2, CollisionBitLength, GoodParams, SolutionWidth;
    IndexWidth(p);
    SolutionCount(p, soln);
    FourTimes(|soln|, CollisionBitLength(p) + 1, Pow2(p.k));
  }

  lemma FourTimes(n: nat, b: nat, q: nat)
    requires b > 0 && 8 * n == b * q
    ensures (8 * INDEX_BYTES * n / b) % INDEX_BYTES == 0
  {
    assert 32 * n == (4 * q) * b;
    DivModUnique(32 * n, b, 4 * q, 0);
  }

  /** The indices of a solution fit into their packed width. */
  lemma SolutionMasked(p: Params, idx: seq<nat>)
    requires GoodParams(p) && Below(idx, InitSize(p))
    ensures GoodWidth(CollisionBitLength(p) + 1) && Masked(idx, CollisionBitLength(p) + 1) == idx
  {
    hide Masked;
    IndexWidth(p);
    MaskedSame(idx, CollisionBitLength(p) + 1);
  }

  lemma Elements32(p: Params, soln: seq<byte>) returns (es: seq<nat>)
    requires GoodParams(p) && |soln| == SolutionWidth(p)
    ensures es == Elements(soln, CollisionBitLength(p) + 1) && Index32(es) && |es| == Pow2(p.k)
    ensures Below(es, InitSize(p))
  {
    hide Elements, Pow2;
    es := Elements(soln, CollisionBitLength(p) + 1);
    SmallIndices(p);
    SolutionCount(p, soln);
  }

  /** The low bits of every index, which are all that the packed form has room for. */
  function Masked(idx: seq<nat>, bitLen: nat): (r: seq<nat>)
    ensures |r| == |idx|
  {
    if idx == [] then [] else [Low(idx[0], bitLen)] + Masked(idx[1..], bitLen)
  }

  lemma {:induction false} MaskedSame(idx: seq<nat>, bitLen: nat)
    requires Below(idx, Pow2(bitLen))
    ensures Masked(idx, bitLen) == idx
  {
    hide Pow2, Low;
    if idx == [] {
    } else {
      LowSmall(idx[0], bitLen);
      MaskedSame(idx[1..], bitLen);
    }
  }

  /** The packed form of index bytes. */
  method PackIndexBytes(bytes: seq<byte>, cBitLen: nat, ghost idx: seq<nat>) returns (ret: seq<byte>)
    requires GoodWidth(cBitLen + 1) && bytes == IndexBytes(idx)
    ensures ret == Packed(Masked(idx, cBitLen + 1), cBitLen + 1)
  {
    hide IndexBytes, Packed, DecodeAll, Masked;
    var b := cBitLen + 1;
    IndexBytesLength(idx);
    DecodeIndexBytes(idx, b);
    var minLen := b * |bytes| / (8 * INDEX_BYTES);
    WholeGroupsInside(|bytes|, minLen, b, INDEX_BYTES);
    var buffer := new byte[minLen](_ => 0);
    CompressArray(bytes, buffer, b, INDEX_BYTES - ElementWidth(b));
    ret := buffer[..];
  }

  lemma SuffixBE(v: nat, a: nat, w: nat)
    ensures BytesBE(v, a + w)[a..] == BytesBE(v, w)
  {
    hide BytesBE;
    forall x | 0 <= x < w ensures BytesBE(v, a + w)[a + x] == BytesBE(v, w)[x] {
      BytesBEAt(v, a + w, a + x);
      BytesBEAt(v, w, x);
    }
  }

  /** Only the low bits reach the low bytes. */
  lemma LowBytesBE(v: nat, w: nat)
    ensures ValueBE(BytesBE(v, w)) == Low(v, 8 * w)
  {
    hide BytesBE, ValueBE, Low, Shr, Pow2;
    var u := Low(v, 8 * w);
    forall x | 0 <= x < w ensures BytesBE(v, w)[x] == BytesBE(u, w)[x] {
      BytesBEAt(v, w, x);
      BytesBEAt(u, w, x);
      SameByte(v, w, w - 1 - x);
    }
    assert BytesBE(v, w) == BytesBE(u, w);
    LowBound(v, 8 * w);
    ValueOfBytes(u, w);
  }

  lemma SameByte(v: nat, w: nat, k: nat)
    requires k < w
    ensures ByteAt(Low(v, 8 * w), k) == ByteAt(v, k)
  {
    hide Low, Shr;
    LowThenShr(v, 8 * w, 8 * k);
    LowLow(Shr(v, 8 * k), 8 * (w - k), 8);
  }

  lemma {:induction false} DecodeIndexBytes(idx: seq<nat>, b: nat)
    requires GoodWidth(b)
    ensures ElementWidth(b) <= 4
    ensures DecodeAll(IndexBytes(idx), ElementWidth(b), 4 - ElementWidth(b), b) == Masked(idx, b)
  {
    hide BytesBE, Low, ValueBE;
    var w := ElementWidth(b);
    if idx == [] {
    } else {
      var group, bytes := BytesBE(idx[0], 4), IndexBytes(idx);
      assert bytes[..4] == group && bytes[4..] == IndexBytes(idx[1..]);
      SuffixBE(idx[0], 4 - w, w);
      LowBytesBE(idx[0], w);
      LowLow(idx[0], 8 * w, b);
      DecodeIndexBytes(idx[1..], b);
    }
  }

  method GetMinimalFromIndices(indices: seq<nat>, cBitLen: nat) returns (ret: seq<byte>)
    requires GoodWidth(cBitLen + 1) && Index32(indices)
    ensures ret == Packed(Masked(indices, cBitLen + 1), cBitLen + 1)
  {
    hide IndexBytes, Packed, Masked, Index32, BytesBE;
    var bytes: seq<byte> := [];
    OneIndex(0);
    assert indices[..0] == [];
    for i := 0 to |indices|
      invariant bytes == IndexBytes(indices[..i])
    {
      assert indices[..i + 1] == indices[..i] + [indices[i]];
      IndexBytesConcat(indices[..i], [indices[i]]);
      OneIndex(indices[i]);
      bytes := bytes + BytesBE(indices[i], INDEX_BYTES);
    }
    assert indices[..|indices|] == indices;
    ret := PackIndexBytes(bytes, cBitLen, indices);
  }

  lemma {:induction false} MaskedBelow(idx: seq<nat>, bitLen: nat)
    ensures Below(Masked(idx, bitLen), Pow2(bitLen))
  {
    hide Pow2, Low;
    if idx == [] {
    } else {
      LowBound(idx[0], bitLen);
      MaskedBelow(idx[1..], bitLen);
    }
  }

  /** A packed index list unpacks to itself exactly when every index fits its width. */
  lemma IndexRoundTripIff(idx: seq<nat>, bitLen: nat)
    requires bitLen >= 1 && bitLen * |idx| % 8 == 0
    ensures Elements(Packed(Masked(idx, bitLen), bitLen), bitLen) == idx <==> Below(idx, Pow2(bitLen))
  {
    hide Elements, Packed, Masked, Pow2;
    MaskedBelow(idx, bitLen);
    UnpackPacked(Masked(idx, bitLen), bitLen);
    if Below(idx, Pow2(bitLen)) { MaskedSame(idx, bitLen); }
  }

  lemma OneIndex(i: nat)
    ensures IndexBytes([i]) == BytesBE(i, INDEX_BYTES)
    ensures IndexBytes([]) == []
  {
    assert [i][1..] == [];
  }

  // ---------------------------------------------------------------- solutions

  /** What the protocol asks of a solution: its width, and the conditions on its tree of indices. */
  ghost predicate ValidSolution(p: Params, blake: nat -> seq<byte>, soln: seq<byte>)
    requires GoodParams(p)
  {
    && |soln| == SolutionWidth(p)
    && IsSolutionTree(p, blake, Elements(soln, CollisionBitLength(p) + 1))
  }

  ghost predicate IsSolutionTree(p: Params, blake: nat -> seq<byte>, idx: seq<nat>)
  {
    && IsTree(PuzzleOf(p, blake), idx, p.k, InitSize(p))
    && AllZero(TreeHash(PuzzleOf(p, blake), idx, p.k))
  }

  /** Packing relates the trees of indices that solve the puzzle to the valid solutions, one to one. */
  lemma SolutionsArePacked(p: Params, blake: nat -> seq<byte>, idx: seq<nat>, soln: seq<byte>)
    requires GoodParams(p)
    ensures IsSolutionTree(p, blake, idx) && soln == Packed(idx, CollisionBitLength(p) + 1)
       <==> ValidSolution(p, blake, soln) && idx == Elements(soln, CollisionBitLength(p) + 1)
  {
    hide TreeValid, TreeHash, AllZero, Packed, Elements, Pow2;
    var b := CollisionBitLength(p) + 1;
    if |idx| == Pow2(p.k) && Below(idx, InitSize(p)) {
      CountBits(p);
      UnpackPacked(idx, b);
      assert soln == Packed(idx, b) ==> |soln| == SolutionWidth(p);
    }
    if |soln| == SolutionWidth(p) {
      SolutionCount(p, soln);
      PackUnpacked(soln, b);
    }
  }

  lemma CountBits(p: Params)
    requires GoodParams(p)
    ensures var b := CollisionBitLength(p) + 1;
            b * Pow2(p.k) % 8 == 0 && 8 * SolutionWidth(p) == b * Pow2(p.k)
  {
    hide Pow2, CollisionBitLength;
    assert Pow2(p.k) * (CollisionBitLength(p) + 1) == (CollisionBitLength(p) + 1) * Pow2(p.k);
  }

  /** A valid solution has 2^k distinct indices whose expanded hashes XOR to zero. */
  lemma ValidSolutionMeaning(p: Params, blake: nat -> seq<byte>, soln: seq<byte>)
    requires GoodParams(p) && GoodHash(p, blake) && ValidSolution(p, blake, soln)
    ensures var idx := Elements(soln, CollisionBitLength(p) + 1);
            |idx| == Pow2(p.k) && NoRepeats(idx) && AllZero(XorLeaves(PuzzleOf(p, blake), idx))
  {
    hide TreeValid, TreeHash, AllZero, NoRepeats, XorLeaves, Elements, GoodPuzzle, PuzzleOf, Pow2;
    var idx := Elements(soln, CollisionBitLength(p) + 1);
    var pz := PuzzleOf(p, blake);
    PuzzleGood(p, blake);
    PuzzleDepth(p, blake);
    ValidTreeDistinct(pz, idx, p.k);
    SolutionXor(pz, idx);
  }

  /** What is accepted, on the list of indices alone. */
  lemma ValidSolutionIff(p: Params, blake: nat -> seq<byte>, soln: seq<byte>)
    requires GoodParams(p) && GoodHash(p, blake)
    ensures ValidSolution(p, blake, soln) <==>
            && |soln| == SolutionWidth(p)
            && var idx, pz := Elements(soln, CollisionBitLength(p) + 1), PuzzleOf(p, blake);
               && |idx| == Pow2(p.k) && NoRepeats(idx) && AllBound(pz, idx, p.k) && AllZero(XorLeaves(pz, idx))
  {
    hide TreeValid, TreeHash, AllZero, NoRepeats, XorLeaves, Elements, GoodPuzzle, PuzzleOf, AllBound, GoodHash, Pow2;
    var idx := Elements(soln, CollisionBitLength(p) + 1);
    var pz := PuzzleOf(p, blake);
    PuzzleGood(p, blake);
    PuzzleDepth(p, blake);
    if |soln| == SolutionWidth(p) {
      SolutionCount(p, soln);
      ElementsBelow(p, soln);
      ValidOnList(pz, idx, p.k);
      if TreeValid(pz, idx, p.k) { SolutionXor(pz, idx); }
    }
  }

  lemma ElementsBelow(p: Params, soln: seq<byte>)
    ensures Below(Elements(soln, CollisionBitLength(p) + 1), InitSize(p))
  {
    hide CollisionBitLength;
  }

  lemma PuzzleDepth(p: Params, blake: nat -> seq<byte>)
    ensures PuzzleOf(p, blake).k == p.k && PuzzleOf(p, blake).cb == CollisionByteLength(p)
  {
  }

  // ---------------------------------------------------------------- the verifier

  lemma SliceFacts(p: Params, slice: seq<byte>)
    requires GoodParams(p) && |slice| == p.n / 8
    ensures var c := CollisionBitLength(p);
            && GoodWidth(c) && HashLength(p) == 8 * (ElementWidth(c) + 0) * |slice| / c
            && |Expanded(slice, c, 0)| == HashLength(p)
  {
    hide EncodeAll, Elements, ElementWidth, Pow2;
    LeafBuffer(p);
    ElementCount(p, slice);
    EncodeAllLength(Elements(slice, CollisionBitLength(p)), CollisionByteLength(p), 0);
  }

  /** Build the row of an index from the hash output g that covers it. */
  method LeafRow(p: Params, ghost blake: nat -> seq<byte>, tmpHash: seq<byte>, r: nat, i: nat) returns (row: Row)
    requires GoodParams(p) && GoodHash(p, blake) && IndicesPerHashOutput(p) > 0
    requires tmpHash == blake(i / IndicesPerHashOutput(p)) && r == i % IndicesPerHashOutput(p)
    ensures row == RowOf(PuzzleOf(p, blake), [i], 0)
  {
    hide GoodParams, GoodHash, RowOf, PuzzleOf, Expanded, HashLength, CollisionBitLength;
    hide IndicesPerHashOutput, ElementWidth, BytesBE;
    LeafBytesLength(p, blake, i);
    RowOfLeaf(p, blake, i);
    var slice := Take(Drop(tmpHash, r * p.n / 8), p.n / 8);
    SliceFacts(p, slice);
    var hash := new byte[HashLength(p)](_ => 0);
    ExpandArray(slice, hash, CollisionBitLength(p), 0);
    row := hash[..] + BytesBE(i, INDEX_BYTES);
  }

  lemma RowOfLeaf(p: Params, blake: nat -> seq<byte>, i: nat)
    requires GoodParams(p) && GoodHash(p, blake)
    ensures IndicesPerHashOutput(p) > 0
    ensures RowOf(PuzzleOf(p, blake), [i], 0)
         == Expanded(LeafBytes(p, blake, i), CollisionBitLength(p), 0) + BytesBE(i, INDEX_BYTES)
  {
    hide Expanded, GoodHash, LeafBytes, IndicesPerHashOutput, ElementWidth;
    LeafBytesLength(p, blake, i);
    OneIndex(i);
  }

  /** The assertion on the output length in ExpandArray holds for a leaf. */
  lemma LeafBuffer(p: Params)
    requires GoodParams(p)
    ensures HashLength(p) == 8 * CollisionByteLength(p) * (p.n / 8) / CollisionBitLength(p)
  {
    hide ElementWidth, Pow2;
    LeafDivides(p);
    ScaledQuotient(CollisionByteLength(p), p.n / 8, CollisionBitLength(p), p.k + 1);
  }

  lemma ScaledQuotient(w: nat, m: nat, c: nat, q: nat)
    requires c > 0 && 8 * m == q * c
    ensures q * w == 8 * w * m / c
  {
    assert 8 * w * m == w * (8 * m);
    assert w * (q * c) == (q * w) * c;
    DivModUnique(8 * w * m, c, q * w, 0);
  }

  method SolutionRows(p: Params, blake: nat -> seq<byte>, indices: seq<nat>) returns (X: seq<Row>)
    requires GoodParams(p) && GoodHash(p, blake)
    ensures |X| == |indices| && forall j :: 0 <= j < |X| ==> X[j] == RowOf(PuzzleOf(p, blake), [indices[j]], 0)
  {
    hide GoodHash, RowOf, PuzzleOf, IndicesPerHashOutput;
    PerHash(p);
    var iph := IndicesPerHashOutput(p);
    X := [];
    for i := 0 to |indices|
      invariant |X| == i
      invariant forall j :: 0 <= j < i ==> X[j] == RowOf(PuzzleOf(p, blake), [indices[j]], 0)
    {
      var tmpHash := blake(indices[i] / iph);
      var row := LeafRow(p, blake, tmpHash, indices[i] % iph, indices[i]);
      X := X + [row];
    }
  }

  method IsValidSolution(p: Params, blake: nat -> seq<byte>, soln: seq<byte>) returns (ok: bool)
    requires GoodParams(p) && GoodHash(p, blake)
    ensures ok <==> ValidSolution(p, blake, soln)
  {
    hide TreeValid, TreeHash, AllZero, RowOf, Elements, GoodPuzzle, GoodHash, PuzzleOf, Index32, Pow2;
    if |soln| != SolutionWidth(p) {
      return false;
    }
    ghost var idx := Elements32(p, soln);
    PuzzleGood(p, blake);
    PuzzleDepth(p, blake);
    WholeSolution(p, soln);
    var indices := GetIndicesFromMinimal(soln, CollisionBitLength(p));
    var X := SolutionRows(p, blake, indices);
    ok := CheckTree(PuzzleOf(p, blake), X, idx);
  }

  // ---------------------------------------------------------------- the solver: first list

  /** The first list: the rows of all indices below InitSize, in order. */
  method FirstList(p: Params, blake: nat -> seq<byte>) returns (X: seq<Row>)
    requires GoodParams(p) && GoodHash(p, blake)
    ensures |X| == InitSize(p) && forall j :: 0 <= j < |X| ==> X[j] == RowOf(PuzzleOf(p, blake), [j], 0)
  {
    hide GoodHash, RowOf, PuzzleOf, IndicesPerHashOutput, InitSize;
    PerHash(p);
    var iph, size := IndicesPerHashOutput(p), InitSize(p);
    X := [];
    var g: nat := 0;
    while |X| < size
      invariant |X| <= size && (|X| < size ==> |X| == g * iph)
      invariant forall j :: 0 <= j < |X| ==> X[j] == RowOf(PuzzleOf(p, blake), [j], 0)
    {
      X := HashRows(p, blake, g, size, X);
      NextMultiple(g, iph);
      g := g + 1;
    }
  }

  lemma NextMultiple(g: nat, iph: nat)
    ensures (g + 1) * iph == g * iph + iph
  {
  }

  /** The rows cut from one hash output. */
  method HashRows(p: Params, blake: nat -> seq<byte>, g: nat, size: nat, rows: seq<Row>) returns (X: seq<Row>)
    requires GoodParams(p) && GoodHash(p, blake)
    requires |rows| < size && |rows| == g * IndicesPerHashOutput(p)
    requires forall j :: 0 <= j < |rows| ==> rows[j] == RowOf(PuzzleOf(p, blake), [j], 0)
    ensures |rows| < |X| <= size && (|X| < size ==> |X| == |rows| + IndicesPerHashOutput(p))
    ensures forall j :: 0 <= j < |X| ==> X[j] == RowOf(PuzzleOf(p, blake), [j], 0)
  {
    hide GoodHash, RowOf, PuzzleOf, IndicesPerHashOutput;
    PerHash(p);
    var iph := IndicesPerHashOutput(p);
    var tmpHash := blake(g);
    X := rows;
    var i := 0;
    while i < iph && |X| < size
      invariant 0 <= i <= iph && |X| == |rows| + i <= size
      invariant forall j :: 0 <= j < |X| ==> X[j] == RowOf(PuzzleOf(p, blake), [j], 0)
    {
      var index := g * iph + i;
      DivModUnique(index, iph, g, i);
      var row := LeafRow(p, blake, tmpHash, i, index);
      X := X + [row];
      i := i + 1;
    }
  }

  lemma FirstListTrees(p: Params, blake: nat -> seq<byte>, X: seq<Row>)
    requires GoodParams(p) && GoodHash(p, blake)
    requires |X| == InitSize(p) && forall j :: 0 <= j < |X| ==> X[j] == RowOf(PuzzleOf(p, blake), [j], 0)
    ensures HoldsTrees(PuzzleOf(p, blake), X, 0, InitSize(p))
  {
    hide RowOf, PuzzleOf, InitSize, TreeHash, Once, GoodHash, GoodParams;
    var pz, bound := PuzzleOf(p, blake), InitSize(p);
    FirstListOnce(p, blake, X);
    forall i | 0 <= i < |X| ensures SomeTree(pz, X[i], 0, bound) {
      assert TreeOfRow(pz, X[i], [i], 0, bound);
    }
    forall idx | IsTree(pz, idx, 0, bound) ensures RowOf(pz, idx, 0) in X {
      assert idx == [idx[0]];
      assert X[idx[0]] == RowOf(pz, idx, 0);
    }
  }

  lemma FirstListOnce(p: Params, blake: nat -> seq<byte>, X: seq<Row>)
    requires GoodParams(p) && GoodHash(p, blake)
    requires |X| == InitSize(p) && forall j :: 0 <= j < |X| ==> X[j] == RowOf(PuzzleOf(p, blake), [j], 0)
    ensures Once(X)
  {
    hide RowOf, PuzzleOf, InitSize, TreeHash, Once, GoodHash, GoodParams, GoodPuzzle, Pow2;
    var pz, bound := PuzzleOf(p, blake), InitSize(p);
    PuzzleGood(p, blake);
    SmallIndices(p);
    OnePow2();
    forall i, j | 0 <= i < j < |X| ensures X[i] != X[j] {
      if X[i] == X[j] {
        SameTree(pz, [i], [j], 0, bound);
        assert false;
      }
    }
    DistinctOnce(X);
  }

  // ---------------------------------------------------------------- the solver: rounds

  lemma TreesMakeTable(pz: Puzzle, X: seq<Row>, l: nat, bound: nat)
    requires GoodPuzzle(pz) && l < pz.k && bound <= Pow2(8 * INDEX_BYTES) && HoldsTrees(pz, X, l, bound)
    ensures Table(X, HashLen(pz, l), 4 * Pow2(l)) && pz.cb <= HashLen(pz, l)
  {
    hide TreeValid, TreeHash, RowOf, HashLen, GoodPuzzle, Below, Pow2;
    HashLenStep(pz, l);
    forall i | 0 <= i < |X| ensures |X[i]| == HashLen(pz, l) + 4 * Pow2(l) {
      var idx :| TreeOfRow(pz, X[i], idx, l, bound);
      TreeRow(pz, idx, l, bound);
      RowLayout(pz, X[i], idx, l);
    }
  }

  lemma SortedTrees(pz: Puzzle, X: seq<Row>, Y: seq<Row>, l: nat, bound: nat)
    requires HoldsTrees(pz, X, l, bound) && multiset(Y) == multiset(X)
    ensures HoldsTrees(pz, Y, l, bound)
  {
    hide IsTree, SomeTree, RowOf;
    assert Once(Y);
    forall i | 0 <= i < |Y| ensures SomeTree(pz, Y[i], l, bound) {
      assert Y[i] in multiset(X);
    }
    forall row | row in X ensures row in Y {
      assert row in multiset(Y);
    }
  }

  /** A tree exists at every level below a tree. */
  lemma {:induction false} LowerTree(pz: Puzzle, idx: seq<nat>, m: nat, l: nat, bound: nat) returns (sub: seq<nat>)
    requires l <= m && IsTree(pz, idx, m, bound)
    ensures IsTree(pz, sub, l, bound)
    decreases m
  {
    hide IsTree;
    if l == m {
      sub := idx;
    } else {
      TreeHalves(pz, idx, m - 1, bound);
      sub := LowerTree(pz, LeftHalf(idx), m - 1, l, bound);
    }
  }

  /** Sort the table, then replace it by its merges. */
  method OneRound(ghost pz: Puzzle, rows: seq<Row>, hashLen: nat, lenIndices: nat, cb: nat,
                  ghost l: nat, ghost bound: nat)
    returns (X: seq<Row>)
    requires GoodPuzzle(pz) && l < pz.k && bound <= Pow2(8 * INDEX_BYTES)
    requires HoldsTrees(pz, rows, l, bound) && rows != []
    requires hashLen == HashLen(pz, l) && lenIndices == 4 * Pow2(l) && cb == pz.cb
    ensures HoldsTrees(pz, X, l + 1, bound)
  {
    hide HoldsTrees, GoodPuzzle, HashLen, Pow2, Table, Sorted, TableMerges;
    var table := SortRows(rows, cb);
    SortedTrees(pz, rows, table, l, bound);
    TreesMakeTable(pz, table, l, bound);
    assert |multiset(table)| == |multiset(rows)|;
    X := CollideRound(table, hashLen, lenIndices, cb);
    RoundHoldsTrees(pz, table, X, l, bound);
  }

  /** The rounds of the solver, down to the last collision. */
  method CollideRounds(p: Params, blake: nat -> seq<byte>, rows: seq<Row>) returns (X: seq<Row>, l: nat)
    requires GoodParams(p) && GoodHash(p, blake) && HoldsTrees(PuzzleOf(p, blake), rows, 0, InitSize(p))
    ensures l < p.k && HoldsTrees(PuzzleOf(p, blake), X, l, InitSize(p)) && (X != [] ==> l == p.k - 1)
  {
    hide GoodHash, PuzzleOf, HoldsTrees, InitSize, GoodPuzzle, HashLen, CollisionByteLength, Pow2;
    ghost var pz, bound := PuzzleOf(p, blake), InitSize(p);
    PuzzleGood(p, blake);
    PuzzleDepth(p, blake);
    SmallIndices(p);
    X, l := rows, 0;
    var hashLen := HashLength(p);
    var lenIndices := INDEX_BYTES;
    assert Pow2(0) == 1 by { OnePow2(); }
    while l + 1 < p.k && |X| > 0
      invariant l < p.k && HoldsTrees(pz, X, l, bound)
      invariant hashLen == HashLen(pz, l) && lenIndices == 4 * Pow2(l)
      decreases p.k - l
    {
      var cb := CollisionByteLength(p);
      X := OneRound(pz, X, hashLen, lenIndices, cb, l, bound);
      HashLenStep(pz, l);
      DoublePow2(l);
      hashLen := hashLen - cb;
      lenIndices := lenIndices * 2;
      l := l + 1;
    }
  }

  // ---------------------------------------------------------------- the solver: last collision

  lemma ZeroTail(x: seq<byte>, y: seq<byte>, cb: nat)
    requires cb <= |x| == |y|
    ensures x == y <==> Take(x, cb) == Take(y, cb) && AllZero(Drop(XorBytes(x, y), cb))
  {
    hide XorBytes, AllZero;
    XorSplit(x, y, cb);
    XorBytesAt(x[..cb], y[..cb]);
    XorBytesAt(x, y);
    XorZero(x[cb..], y[cb..]);
    assert Drop(XorBytes(x, y), cb) == XorBytes(x[cb..], y[cb..]);
    assert x == x[..cb] + x[cb..] && y == y[..cb] + y[cb..];
  }

  /** The join of two disjoint trees in order solves the puzzle exactly when their hashes agree. */
  lemma JoinSolves(pz: Puzzle, ia: seq<nat>, ib: seq<nat>, l: nat, bound: nat)
    requires GoodPuzzle(pz) && l + 1 == pz.k && IsTree(pz, ia, l, bound) && IsTree(pz, ib, l, bound)
    requires ia[0] < ib[0] && Disjoint(ia, ib)
    ensures |ia + ib| == Pow2(l + 1)
    ensures IsTree(pz, ia + ib, l + 1, bound) && AllZero(TreeHash(pz, ia + ib, l + 1))
       <==> TreeHash(pz, ia, l) == TreeHash(pz, ib, l)
  {
    hide GoodPuzzle, HashLen, TreeValid, XorBytes, AllZero, Pow2;
    Halves(ia, ib, l);
    TreeHashLength(pz, ia, l);
    TreeHashLength(pz, ib, l);
    HashLenStep(pz, l);
    JoinValidIff(pz, ia, ib, l);
    ZeroTail(TreeHash(pz, ia, l), TreeHash(pz, ib, l), pz.cb);
  }

  /** What the last round finds: two rows that agree on all remaining hash bytes. */
  lemma FinalPair(pz: Puzzle, ia: seq<nat>, ib: seq<nat>, l: nat, bound: nat)
    requires GoodPuzzle(pz) && l + 1 == pz.k && bound <= Pow2(8 * INDEX_BYTES)
    requires IsTree(pz, ia, l, bound) && IsTree(pz, ib, l, bound)
    ensures var a, b, h := RowOf(pz, ia, l), RowOf(pz, ib, l), HashLen(pz, l);
            && h <= |a| == |b| && a[h..] == IndexBytes(ia) && b[h..] == IndexBytes(ib)
            && (Mergeable(a, b, h, h) <==> TreeHash(pz, ia, l) == TreeHash(pz, ib, l) && Disjoint(ia, ib))
  {
    hide GoodPuzzle, HashLen, TreeValid, TreeHash, RowOf, IndexBytes, DistinctGroups, Disjoint, Pow2;
    RowParts(pz, ia, l);
    RowParts(pz, ib, l);
    DistinctIsDisjoint(ia, ib);
  }

  /** The index bytes of the merged row are those of the join. */
  lemma FinalIndices(a: Row, b: Row, ia: seq<nat>, ib: seq<nat>, h: nat)
    requires h <= |a| == |b| && a[h..] == IndexBytes(ia) && b[h..] == IndexBytes(ib)
    requires Index32(ia) && Index32(ib) && ia != [] && ib != [] && ia[0] != ib[0]
    ensures |Merged(a, b, h, 0)| >= h && Merged(a, b, h, 0)[h..] == IndexBytes(JoinOf(ia, ib))
  {
    hide IndexBytes, XorBytes, LexLess, Index32;
    XorBytesAt(a[0..h], b[0..h]);
    IndexOrder(ia, ib);
    IndexBytesConcat(ia, ib);
    IndexBytesConcat(ib, ia);
  }

  /** Solutions passed so far are all valid; all but perhaps the last were turned down. */
  ghost predicate Passed(p: Params, blake: nat -> seq<byte>, validBlock: seq<byte> -> bool,
                         tried: seq<seq<byte>>, found: bool)
    requires GoodParams(p)
  {
    && (forall k :: 0 <= k < |tried| ==> ValidSolution(p, blake, tried[k]))
    && (found ==> tried != [] && validBlock(tried[|tried| - 1]))
    && (forall k :: 0 <= k < (if found then |tried| - 1 else |tried|) ==> !validBlock(tried[k]))
  }

  /** The pair of rows a < b has been tried, if it collides and shares no index. */
  ghost predicate PairTried(p: Params, pz: Puzzle, X: seq<Row>, a: nat, b: nat, l: nat, tried: seq<seq<byte>>)
    requires a < |X| && b < |X|
  {
    forall ia, ib :: TreeOfRow(pz, X[a], ia, l, InitSize(p)) && TreeOfRow(pz, X[b], ib, l, InitSize(p))
      && ia != [] && ib != []
      && Mergeable(X[a], X[b], HashLen(pz, l), HashLen(pz, l))
      ==> Packed(JoinOf(ia, ib), CollisionBitLength(p) + 1) in tried
  }

  /** The solution that the pair of rows i < j makes. */
  ghost predicate OfferedBy(p: Params, pz: Puzzle, X: seq<Row>, i: nat, j: nat, l: nat, s: seq<byte>)
  {
    i < j < |X| && exists ia, ib ::
      && TreeOfRow(pz, X[i], ia, l, InitSize(p)) && TreeOfRow(pz, X[j], ib, l, InitSize(p))
      && ia != [] && ib != [] && s == Packed(JoinOf(ia, ib), CollisionBitLength(p) + 1)
  }

  predicate Earlier(i: nat, j: nat, a: nat, b: nat) { i < a || (i == a && j < b) }

  ghost predicate OfferedBefore(p: Params, pz: Puzzle, X: seq<Row>, a: nat, b: nat, l: nat, s: seq<byte>)
  {
    exists i: nat, j: nat :: Earlier(i, j, a, b) && OfferedBy(p, pz, X, i, j, l, s)
  }

  predicate NoneTwice(tried: seq<seq<byte>>) { forall i, j :: 0 <= i < j < |tried| ==> tried[i] != tried[j] }

  /** Nothing was offered twice, and everything came from a pair before (a, b). */
  ghost predicate Offers(p: Params, pz: Puzzle, X: seq<Row>, a: nat, b: nat, l: nat, tried: seq<seq<byte>>)
  {
    NoneTwice(tried) && forall k :: 0 <= k < |tried| ==> OfferedBefore(p, pz, X, a, b, l, tried[k])
  }

  lemma OffersOn(p: Params, pz: Puzzle, X: seq<Row>, a: nat, b: nat, a': nat, b': nat, l: nat, tried: seq<seq<byte>>)
    requires Offers(p, pz, X, a, b, l, tried) && (a < a' || (a == a' && b <= b'))
    ensures Offers(p, pz, X, a', b', l, tried)
  {
    hide OfferedBy, NoneTwice;
    forall k | 0 <= k < |tried| ensures OfferedBefore(p, pz, X, a', b', l, tried[k]) {
      var i: nat, j: nat :| Earlier(i, j, a, b) && OfferedBy(p, pz, X, i, j, l, tried[k]);
      assert Earlier(i, j, a', b');
    }
  }

  /** A join is determined by its packed form. */
  lemma SameJoin(p: Params, x: seq<nat>, y: seq<nat>)
    requires GoodParams(p) && |x| == |y| == Pow2(p.k) && Below(x, InitSize(p)) && Below(y, InitSize(p))
    requires Packed(x, CollisionBitLength(p) + 1) == Packed(y, CollisionBitLength(p) + 1)
    ensures x == y
  {
    hide Packed, Elements, Pow2;
    CountBits(p);
    UnpackPacked(x, CollisionBitLength(p) + 1);
    UnpackPacked(y, CollisionBitLength(p) + 1);
  }

  /** A solution is offered by one pair only. */
  lemma OnlyOneOffers(p: Params, pz: Puzzle, X: seq<Row>, i: nat, j: nat, i': nat, j': nat, l: nat, s: seq<byte>)
    requires GoodParams(p) && l + 1 == p.k && Once(X)
    requires OfferedBy(p, pz, X, i, j, l, s) && OfferedBy(p, pz, X, i', j', l, s)
    ensures i == i' && j == j'
  {
    hide GoodParams, TreeValid, TreeHash, RowOf, InitSize, Packed, Once, Pow2;
    var b := CollisionBitLength(p) + 1;
    var ia, ib :| TreeOfRow(pz, X[i], ia, l, InitSize(p)) && TreeOfRow(pz, X[j], ib, l, InitSize(p))
      && ia != [] && ib != [] && s == Packed(JoinOf(ia, ib), b);
    var ja, jb :| TreeOfRow(pz, X[i'], ja, l, InitSize(p)) && TreeOfRow(pz, X[j'], jb, l, InitSize(p))
      && ja != [] && jb != [] && s == Packed(JoinOf(ja, jb), b);
    DoublePow2(l);
    SameJoin(p, JoinOf(ia, ib), JoinOf(ja, jb));
    SamePair(pz, X, i, j, i', j', ia, ib, ja, jb, l, InitSize(p));
  }

  /** The next pair's solution is a new one. */
  lemma OfferIsNew(p: Params, pz: Puzzle, X: seq<Row>, a: nat, b: nat, l: nat, tried: seq<seq<byte>>, s: seq<byte>)
    requires GoodParams(p) && l + 1 == p.k && Once(X)
    requires Offers(p, pz, X, a, b, l, tried) && OfferedBy(p, pz, X, a, b, l, s)
    ensures Offers(p, pz, X, a, b + 1, l, tried + [s])
  {
    hide GoodParams, OfferedBy, Once;
    OffersOn(p, pz, X, a, b, a, b + 1, l, tried);
    if s in tried {
      var k :| 0 <= k < |tried| && tried[k] == s;
      assert OfferedBefore(p, pz, X, a, b, l, tried[k]);
      var i: nat, j: nat :| Earlier(i, j, a, b) && OfferedBy(p, pz, X, i, j, l, s);
      OnlyOneOffers(p, pz, X, a, b, i, j, l, s);
      assert false;
    }
    assert Earlier(a, b, a, b + 1);
    assert OfferedBefore(p, pz, X, a, b + 1, l, s);
  }

  lemma RowTree(pz: Puzzle, row: Row, l: nat, bound: nat) returns (idx: seq<nat>)
    requires GoodPuzzle(pz) && l + 1 == pz.k && bound <= Pow2(8 * INDEX_BYTES) && SomeTree(pz, row, l, bound)
    ensures TreeOfRow(pz, row, idx, l, bound) && Index32(idx) && |idx| >= 1 && Below(idx, bound)
    ensures forall other :: TreeOfRow(pz, row, other, l, bound) ==> other == idx
  {
    hide GoodPuzzle, HashLen, TreeValid, TreeHash, RowOf, IndexBytes, Pow2;
    idx :| TreeOfRow(pz, row, idx, l, bound);
    forall other | TreeOfRow(pz, row, other, l, bound) ensures other == idx {
      RowParts(pz, idx, l);
      RowParts(pz, other, l);
      IndexBytesInjective(idx, other);
    }
  }

  /** Merge two rows of the last table and offer the result, if their indices are distinct. */
  method TryPair(p: Params, ghost blake: nat -> seq<byte>, validBlock: seq<byte> -> bool,
                 ghost X: seq<Row>, ghost i: nat, ghost j: nat, a: Row, b: Row, hashLen: nat, ghost l: nat,
                 tried: seq<seq<byte>>)
    returns (found: bool, tried': seq<seq<byte>>)
    requires GoodParams(p) && GoodHash(p, blake) && l + 1 == p.k && hashLen == HashLen(PuzzleOf(p, blake), l)
    requires i < j < |X| && a == X[i] && b == X[j]
    requires Once(X) && Offers(p, PuzzleOf(p, blake), X, i, j, l, tried)
    requires SomeTree(PuzzleOf(p, blake), a, l, InitSize(p)) && SomeTree(PuzzleOf(p, blake), b, l, InitSize(p))
    requires Take(a, hashLen) == Take(b, hashLen) && Passed(p, blake, validBlock, tried, false)
    ensures tried <= tried' && Passed(p, blake, validBlock, tried', found)
    ensures PairTried(p, PuzzleOf(p, blake), X, i, j, l, tried')
    ensures Offers(p, PuzzleOf(p, blake), X, i, j + 1, l, tried')
  {
    hide GoodHash, GoodPuzzle, PuzzleOf, HashLen, InitSize, TreeValid, TreeHash, RowOf, IndexBytes, Once, Offers;
    hide DistinctGroups, Merged, Packed, Masked, Below, Index32, AllZero, Elements, Pow2;
    ghost var pz, bound := PuzzleOf(p, blake), InitSize(p);
    PuzzleGood(p, blake);
    PuzzleDepth(p, blake);
    SmallIndices(p);
    ghost var ia := RowTree(pz, a, l, bound);
    ghost var ib := RowTree(pz, b, l, bound);
    FinalPair(pz, ia, ib, l, bound);
    tried', found := tried, false;
    var res := Merge(a, b, hashLen, 0);
    var distinct := DistinctIndices(a, b, hashLen);
    if distinct {
      assert ia[0] != ib[0] by { DisjointHeads(ia, ib); }
      FinalIndices(a, b, ia, ib, hashLen);
      ghost var idx := JoinOf(ia, ib);
      JoinIsSolution(p, blake, ia, ib, l);
      SolutionMasked(p, idx);
      var soln := PackIndexBytes(res[hashLen..], CollisionBitLength(p), idx);
      SolutionsArePacked(p, blake, idx, soln);
      assert OfferedBy(p, pz, X, i, j, l, soln);
      OfferIsNew(p, pz, X, i, j, l, tried, soln);
      tried' := tried + [soln];
      found := validBlock(soln);
    } else {
      OffersOn(p, pz, X, i, j, i, j + 1, l, tried);
    }
  }

  lemma DisjointHeads(ia: seq<nat>, ib: seq<nat>)
    requires Disjoint(ia, ib) && ia != [] && ib != []
    ensures ia[0] != ib[0]
  {
  }

  lemma JoinIsSolution(p: Params, blake: nat -> seq<byte>, ia: seq<nat>, ib: seq<nat>, l: nat)
    requires GoodParams(p) && GoodHash(p, blake) && l + 1 == p.k
    requires IsTree(PuzzleOf(p, blake), ia, l, InitSize(p)) && IsTree(PuzzleOf(p, blake), ib, l, InitSize(p))
    requires Disjoint(ia, ib) && TreeHash(PuzzleOf(p, blake), ia, l) == TreeHash(PuzzleOf(p, blake), ib, l)
    ensures |ia| >= 1 && |ib| >= 1 && IsSolutionTree(p, blake, JoinOf(ia, ib)) && Below(JoinOf(ia, ib), InitSize(p))
  {
    hide GoodHash, GoodPuzzle, PuzzleOf, InitSize, TreeValid, TreeHash, AllZero, Pow2;
    var pz := PuzzleOf(p, blake);
    PuzzleGood(p, blake);
    PuzzleDepth(p, blake);
    assert ia[0] != ib[0];
    if ia[0] < ib[0] {
      JoinSolves(pz, ia, ib, l, InitSize(p));
    } else {
      DisjointSymmetric(ia, ib);
      JoinSolves(pz, ib, ia, l, InitSize(p));
    }
  }

  /** All pairs of row a with later rows before b have been tried. */
  ghost predicate RowTried(p: Params, pz: Puzzle, X: seq<Row>, a: nat, b: nat, l: nat, tried: seq<seq<byte>>)
  {
    forall m :: a < m < b && m < |X| ==> PairTried(p, pz, X, a, m, l, tried)
  }

  /** All pairs whose first row is before n have been tried. */
  ghost predicate RowsTried(p: Params, pz: Puzzle, X: seq<Row>, n: nat, l: nat, tried: seq<seq<byte>>)
  {
    forall a :: 0 <= a < n && a < |X| ==> RowTried(p, pz, X, a, |X|, l, tried)
  }

  lemma PairStillTried(p: Params, pz: Puzzle, X: seq<Row>, a: nat, b: nat, l: nat,
                       tried: seq<seq<byte>>, tried': seq<seq<byte>>)
    requires a < |X| && b < |X| && tried <= tried' && PairTried(p, pz, X, a, b, l, tried)
    ensures PairTried(p, pz, X, a, b, l, tried')
  {
    hide TreeOfRow, Mergeable, HashLen, InitSize, Packed, JoinOf;
    assert forall s :: s in tried ==> s in tried';
  }

  lemma RowStillTried(p: Params, pz: Puzzle, X: seq<Row>, a: nat, b: nat, l: nat,
                      tried: seq<seq<byte>>, tried': seq<seq<byte>>)
    requires a < |X| && tried <= tried' && RowTried(p, pz, X, a, b, l, tried)
    ensures RowTried(p, pz, X, a, b, l, tried')
  {
    hide PairTried;
    forall m | a < m < b && m < |X| ensures PairTried(p, pz, X, a, m, l, tried') {
      PairStillTried(p, pz, X, a, m, l, tried, tried');
    }
  }

  lemma RowsStillTried(p: Params, pz: Puzzle, X: seq<Row>, n: nat, l: nat,
                       tried: seq<seq<byte>>, tried': seq<seq<byte>>)
    requires tried <= tried' && RowsTried(p, pz, X, n, l, tried)
    ensures RowsTried(p, pz, X, n, l, tried')
  {
    hide RowTried;
    forall a | 0 <= a < n && a < |X| ensures RowTried(p, pz, X, a, |X|, l, tried') {
      RowStillTried(p, pz, X, a, |X|, l, tried, tried');
    }
  }

  lemma BeyondGroupTried(p: Params, pz: Puzzle, X: seq<Row>, i: nat, j: nat, a: nat, l: nat, tried: seq<seq<byte>>)
    requires var h := HashLen(pz, l);
             && Sorted(X, h) && GroupAt(X, i, j, h) && i <= a < i + j
             && (forall k :: 0 <= k < |X| ==> |Take(X[k], h)| == h)
    requires RowTried(p, pz, X, a, i + j, l, tried)
    ensures RowTried(p, pz, X, a, |X|, l, tried)
  {
    hide TreeOfRow, HashLen, InitSize, Packed, JoinOf, Sorted, LexLess, Take, DistinctGroups;
    forall m | a < m < |X| ensures PairTried(p, pz, X, a, m, l, tried) {
      if m >= i + j { GroupSeparated(X, i, j, HashLen(pz, l), a, m); }
    }
  }

  /** The last table: sorted by all remaining hash bytes, every row the row of a tree. */
  ghost predicate LastTable(p: Params, blake: nat -> seq<byte>, X: seq<Row>, l: nat)
  {
    && l + 1 == p.k && HoldsTrees(PuzzleOf(p, blake), X, l, InitSize(p))
    && Sorted(X, HashLen(PuzzleOf(p, blake), l))
    && forall k :: 0 <= k < |X| ==> HashLen(PuzzleOf(p, blake), l) <= |X[k]|
  }

  method TryRow(p: Params, ghost blake: nat -> seq<byte>, validBlock: seq<byte> -> bool,
                X: seq<Row>, i: nat, j: nat, a: nat, hashLen: nat, ghost l: nat, tried: seq<seq<byte>>)
    returns (found: bool, tried': seq<seq<byte>>)
    requires GoodParams(p) && GoodHash(p, blake) && LastTable(p, blake, X, l)
    requires hashLen == HashLen(PuzzleOf(p, blake), l)
    requires GroupAt(X, i, j, hashLen) && i <= a < i + j && Passed(p, blake, validBlock, tried, false)
    requires Offers(p, PuzzleOf(p, blake), X, a, 0, l, tried)
    ensures tried <= tried' && Passed(p, blake, validBlock, tried', found)
    ensures !found ==> RowTried(p, PuzzleOf(p, blake), X, a, |X|, l, tried')
    ensures Offers(p, PuzzleOf(p, blake), X, a + 1, 0, l, tried')
  {
    hide GoodParams, GoodHash, PuzzleOf, HashLen, InitSize, Sorted, IsTree, SomeTree, PairTried, Passed, RowOf, Offers;
    hide Once;
    tried', found := tried, false;
    OffersOn(p, PuzzleOf(p, blake), X, a, 0, a, a + 1, l, tried);
    for m := a + 1 to i + j
      invariant tried <= tried' && Passed(p, blake, validBlock, tried', false)
      invariant Offers(p, PuzzleOf(p, blake), X, a, m, l, tried')
      invariant RowTried(p, PuzzleOf(p, blake), X, a, m, l, tried')
    {
      ghost var before := tried';
      found, tried' := TryPair(p, blake, validBlock, X, a, m, X[a], X[m], hashLen, l, tried');
      if found {
        OffersOn(p, PuzzleOf(p, blake), X, a, m + 1, a + 1, 0, l, tried');
        return;
      }
      RowStillTried(p, PuzzleOf(p, blake), X, a, m, l, before, tried');
    }
    found := false;
    OffersOn(p, PuzzleOf(p, blake), X, a, i + j, a + 1, 0, l, tried');
    BeyondGroupTried(p, PuzzleOf(p, blake), X, i, j, a, l, tried');
  }

  method TryGroup(p: Params, ghost blake: nat -> seq<byte>, validBlock: seq<byte> -> bool,
                  X: seq<Row>, i: nat, j: nat, hashLen: nat, ghost l: nat, tried: seq<seq<byte>>)
    returns (found: bool, tried': seq<seq<byte>>)
    requires GoodParams(p) && GoodHash(p, blake) && LastTable(p, blake, X, l)
    requires hashLen == HashLen(PuzzleOf(p, blake), l)
    requires GroupAt(X, i, j, hashLen) && Passed(p, blake, validBlock, tried, false)
    requires RowsTried(p, PuzzleOf(p, blake), X, i, l, tried) && Offers(p, PuzzleOf(p, blake), X, i, 0, l, tried)
    ensures tried <= tried' && Passed(p, blake, validBlock, tried', found)
    ensures !found ==> RowsTried(p, PuzzleOf(p, blake), X, i + j, l, tried')
    ensures Offers(p, PuzzleOf(p, blake), X, i + j, 0, l, tried')
  {
    hide GoodParams, GoodHash, PuzzleOf, HashLen, LastTable, RowTried, Passed, Offers;
    tried', found := tried, false;
    for k := 0 to j
      invariant tried <= tried' && Passed(p, blake, validBlock, tried', false)
      invariant Offers(p, PuzzleOf(p, blake), X, i + k, 0, l, tried')
      invariant RowsTried(p, PuzzleOf(p, blake), X, i + k, l, tried')
    {
      ghost var before := tried';
      found, tried' := TryRow(p, blake, validBlock, X, i, j, i + k, hashLen, l, tried');
      if found {
        OffersOn(p, PuzzleOf(p, blake), X, i + k + 1, 0, i + j, 0, l, tried');
        return;
      }
      RowsStillTried(p, PuzzleOf(p, blake), X, i + k, l, before, tried');
    }
    found := false;
  }

  /** The last round: offer every pair of rows that collide on all remaining bytes. */
  method FinalRound(p: Params, ghost blake: nat -> seq<byte>, validBlock: seq<byte> -> bool,
                    X: seq<Row>, hashLen: nat, ghost l: nat)
    returns (found: bool, tried: seq<seq<byte>>)
    requires GoodParams(p) && GoodHash(p, blake) && LastTable(p, blake, X, l)
    requires hashLen == HashLen(PuzzleOf(p, blake), l)
    requires X != []
    ensures Passed(p, blake, validBlock, tried, found)
    ensures !found ==> RowsTried(p, PuzzleOf(p, blake), X, |X|, l, tried)
    ensures NoneTwice(tried)
  {
    hide GoodParams, GoodHash, PuzzleOf, HashLen, HoldsTrees, Sorted, RowsTried, ValidSolution, Offers;
    hide NoneTwice;
    tried, found := [], false;
    var i: nat := 0;
    NothingTried(p, PuzzleOf(p, blake), X, l);
    while i < |X| - 1
      invariant i <= |X| && Passed(p, blake, validBlock, tried, false)
      invariant RowsTried(p, PuzzleOf(p, blake), X, i, l, tried) && Offers(p, PuzzleOf(p, blake), X, i, 0, l, tried)
    {
      var j := FindGroup(X, X, i, hashLen);
      found, tried := TryGroup(p, blake, validBlock, X, i, j, hashLen, l, tried);
      i := i + j;
      if found {
        OffersOnce(p, PuzzleOf(p, blake), X, i, l, tried);
        return;
      }
    }
    found := false;
    OffersOnce(p, PuzzleOf(p, blake), X, i, l, tried);
    LastRowTried(p, PuzzleOf(p, blake), X, i, l, tried);
  }

  lemma OffersOnce(p: Params, pz: Puzzle, X: seq<Row>, a: nat, l: nat, tried: seq<seq<byte>>)
    requires Offers(p, pz, X, a, 0, l, tried)
    ensures NoneTwice(tried)
  {
  }

  lemma NothingTried(p: Params, pz: Puzzle, X: seq<Row>, l: nat)
    ensures RowsTried(p, pz, X, 0, l, []) && Offers(p, pz, X, 0, 0, l, [])
  {
  }

  lemma LastRowTried(p: Params, pz: Puzzle, X: seq<Row>, i: nat, l: nat, tried: seq<seq<byte>>)
    requires RowsTried(p, pz, X, i, l, tried) && |X| - 1 <= i
    ensures RowsTried(p, pz, X, |X|, l, tried)
  {
    hide PairTried;
  }

  /** When every pair of the last table was tried, so was every solution. */
  lemma AllSolutionsTried(p: Params, blake: nat -> seq<byte>, X: seq<Row>, l: nat, tried: seq<seq<byte>>,
                          soln: seq<byte>)
    requires GoodParams(p) && GoodHash(p, blake) && LastTable(p, blake, X, l)
    requires RowsTried(p, PuzzleOf(p, blake), X, |X|, l, tried) && ValidSolution(p, blake, soln)
    ensures soln in tried
  {
    hide GoodHash, GoodPuzzle, PuzzleOf, HashLen, InitSize, TreeValid, TreeHash, RowOf, Sorted, Mergeable;
    hide Packed, Elements, AllZero, LeftHalf, RightHalf, Below, Pow2, SomeTree;
    var pz, bound := PuzzleOf(p, blake), InitSize(p);
    PuzzleGood(p, blake);
    PuzzleDepth(p, blake);
    SmallIndices(p);
    var idx := Elements(soln, CollisionBitLength(p) + 1);
    SolutionsArePacked(p, blake, idx, soln);
    TreeHalves(pz, idx, l, bound);
    var ia, ib := LeftHalf(idx), RightHalf(idx);
    HalvesAgree(pz, idx, l, bound);
    var a: nat :| a < |X| && X[a] == RowOf(pz, ia, l);
    var b: nat :| b < |X| && X[b] == RowOf(pz, ib, l);
    DistinctRows(pz, ia, ib, l, bound);
    FinalPair(pz, ia, ib, l, bound);
    FinalPair(pz, ib, ia, l, bound);
    DisjointSymmetric(ia, ib);
    assert TreeOfRow(pz, X[a], ia, l, bound) && TreeOfRow(pz, X[b], ib, l, bound);
    if a < b {
      assert RowTried(p, pz, X, a, |X|, l, tried);
      assert PairTried(p, pz, X, a, b, l, tried);
    } else {
      assert RowTried(p, pz, X, b, |X|, l, tried);
      assert PairTried(p, pz, X, b, a, l, tried);
      JoinEither(ia, ib);
    }
  }

  lemma JoinEither(ia: seq<nat>, ib: seq<nat>)
    requires ia != [] && ib != [] && Disjoint(ia, ib)
    ensures JoinOf(ia, ib) == JoinOf(ib, ia)
  {
    assert ia[0] != ib[0];
  }

  lemma HalvesAgree(pz: Puzzle, idx: seq<nat>, l: nat, bound: nat)
    requires GoodPuzzle(pz) && l + 1 == pz.k && IsTree(pz, idx, l + 1, bound) && AllZero(TreeHash(pz, idx, l + 1))
    ensures |LeftHalf(idx)| == |RightHalf(idx)| == Pow2(l)
    ensures TreeHash(pz, LeftHalf(idx), l) == TreeHash(pz, RightHalf(idx), l)
  {
    hide GoodPuzzle, TreeHash, AllZero, LeftHalf, RightHalf, Pow2;
    ValidHalves(pz, idx, l + 1);
    JoinHalves(idx);
    TreeHalves(pz, idx, l, bound);
    JoinSolves(pz, LeftHalf(idx), RightHalf(idx), l, bound);
  }

  /**
   * The basic solver. Every solution it offers is valid and offered once; it stops at the first one that
   * validBlock accepts; and if it returns false it has offered every valid solution there is.
   */
  method BasicSolve(p: Params, blake: nat -> seq<byte>, validBlock: seq<byte> -> bool)
    returns (found: bool, tried: seq<seq<byte>>)
    requires GoodParams(p) && GoodHash(p, blake)
    ensures forall s :: s in tried ==> ValidSolution(p, blake, s)
    ensures found ==> tried != [] && validBlock(tried[|tried| - 1])
    ensures found ==> forall k :: 0 <= k < |tried| - 1 ==> !validBlock(tried[k])
    ensures !found ==> forall s :: s in tried ==> !validBlock(s)
    ensures !found ==> forall s :: ValidSolution(p, blake, s) ==> s in tried
    ensures forall i, j :: 0 <= i < j < |tried| ==> tried[i] != tried[j]
  {
    hide GoodParams, GoodHash, PuzzleOf, HashLen, HoldsTrees, InitSize, ValidSolution, RowsTried, RowOf, LastTable;
    var X := FirstList(p, blake);
    FirstListTrees(p, blake, X);
    var l;
    X, l := CollideRounds(p, blake, X);
    tried, found := [], false;
    if |X| > 1 {
      ghost var before := X;
      var hashLen := HashLength(p) - l * CollisionByteLength(p);
      X := SortRows(X, hashLen);
      LastTableSorted(p, blake, before, X, l, hashLen);
      found, tried := FinalRound(p, blake, validBlock, X, hashLen, l);
      if !found {
        forall s | ValidSolution(p, blake, s) ensures s in tried {
          AllSolutionsTried(p, blake, X, l, tried, s);
        }
      }
    } else {
      forall s ensures !ValidSolution(p, blake, s) {
        if ValidSolution(p, blake, s) { TwoRows(p, blake, X, l, s); }
      }
    }
  }

  lemma LastTableSorted(p: Params, blake: nat -> seq<byte>, X: seq<Row>, Y: seq<Row>, l: nat, hashLen: nat)
    requires GoodParams(p) && GoodHash(p, blake) && l + 1 == p.k
    requires HoldsTrees(PuzzleOf(p, blake), X, l, InitSize(p)) && multiset(Y) == multiset(X)
    requires hashLen == HashLength(p) - l * CollisionByteLength(p) && Sorted(Y, hashLen)
    ensures hashLen == HashLen(PuzzleOf(p, blake), l) && LastTable(p, blake, Y, l) && |Y| == |X|
  {
    hide GoodHash, GoodPuzzle, InitSize, HoldsTrees, Sorted, CollisionByteLength, Pow2, LeafHash;
    var pz := PuzzleOf(p, blake);
    PuzzleGood(p, blake);
    SmallIndices(p);
    SortedTrees(pz, X, Y, l, InitSize(p));
    TreesMakeTable(pz, Y, l, InitSize(p));
    RemainingHash(p.k + 1, l, CollisionByteLength(p));
    assert |multiset(Y)| == |multiset(X)|;
  }

  lemma RemainingHash(k: nat, l: nat, cb: nat)
    requires l <= k
    ensures (k - l) * cb == k * cb - l * cb
  {
  }

  /** A valid solution needs two rows in every table on the way to it. */
  lemma TwoRows(p: Params, blake: nat -> seq<byte>, X: seq<Row>, l: nat, soln: seq<byte>)
    requires GoodParams(p) && GoodHash(p, blake) && l < p.k
    requires HoldsTrees(PuzzleOf(p, blake), X, l, InitSize(p)) && ValidSolution(p, blake, soln)
    ensures |X| >= 2
  {
    hide GoodHash, GoodPuzzle, PuzzleOf, InitSize, TreeValid, TreeHash, RowOf, Elements, AllZero, LeftHalf,
      RightHalf, Below, Pow2;
    var pz, bound := PuzzleOf(p, blake), InitSize(p);
    PuzzleGood(p, blake);
    PuzzleDepth(p, blake);
    SmallIndices(p);
    var sub := LowerTree(pz, Elements(soln, CollisionBitLength(p) + 1), p.k, l + 1, bound);
    TreeHalves(pz, sub, l, bound);
    DistinctRows(pz, LeftHalf(sub), RightHalf(sub), l, bound);
    var i :| 0 <= i < |X| && X[i] == RowOf(pz, LeftHalf(sub), l);
    var j :| 0 <= j < |X| && X[j] == RowOf(pz, RightHalf(sub), l);
    assert i != j;
  }
}
