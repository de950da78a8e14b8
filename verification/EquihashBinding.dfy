/** The conditions on a solution stated on its list of indices, block by block, without the tree. */
module EquihashBinding {
  import opened Prelude
  import opened Bits
  import opened EquihashTree

  predicate LeadingZeros(x: seq<byte>, n: nat) { n <= |x| && AllZero(x[..n]) }

  /** 2^r consecutive leaves: r collisions' worth of leading bytes cancel, and the halves are in order. */
  predicate BlockBound(pz: Puzzle, block: seq<nat>, r: nat)
    requires r >= 1 && |block| == Pow2(r)
  {
    LeadingZeros(XorLeaves(pz, block), r * pz.cb) && block[0] < block[Pow2(r - 1)]
  }

  /** The same for block and halves, all the way down. */
  predicate Bound(pz: Puzzle, idx: seq<nat>, l: nat)
    requires |idx| == Pow2(l)
  {
    l == 0 || (BlockBound(pz, idx, l) && Bound(pz, LeftHalf(idx), l - 1) && Bound(pz, RightHalf(idx), l - 1))
  }

  // ---------------------------------------------------------------- one node

  lemma TrimmedBytes(pz: Puzzle, l: nat)
    requires l <= pz.k
    ensures HashLen(pz, 0) - HashLen(pz, l) == l * pz.cb
  {
    assert (pz.k + 1) * pz.cb == (pz.k + 1 - l) * pz.cb + l * pz.cb;
  }

  /** Above two aligned halves, one more collision is cb more leading zeros. */
  lemma CollisionIff(x: seq<byte>, y: seq<byte>, s: seq<byte>, t: seq<byte>, cb: nat)
    requires ZeroPadded(x, s) && ZeroPadded(y, t) && |x| == |y| && cb <= |s| == |t|
    ensures Take(s, cb) == Take(t, cb) <==> LeadingZeros(XorBytes(x, y), |x| - |s| + cb)
  {
    hide XorBytes, AllZero;
    var n := |x| - |s|;
    var m := n + cb;
    XorSplit(x, y, m);
    XorBytesAt(x, y);
    XorBytesAt(x[..m], y[..m]);
    XorZero(x[..m], y[..m]);
    assert XorBytes(x, y)[..m] == XorBytes(x[..m], y[..m]);
    ZeroUnique(x[..n]);
    ZeroUnique(y[..n]);
    SamePrefix(x, y, n, cb);
    assert x[n..][..cb] == s[..cb] && y[n..][..cb] == t[..cb];
  }

  lemma SamePrefix(x: seq<byte>, y: seq<byte>, n: nat, cb: nat)
    requires n + cb <= |x| == |y| && x[..n] == y[..n]
    ensures x[..n + cb] == y[..n + cb] <==> x[n..][..cb] == y[n..][..cb]
  {
    assert x[..n + cb] == x[..n] + x[n..][..cb];
    assert y[..n + cb] == y[..n] + y[n..][..cb];
  }

  lemma HalfFacts(idx: seq<nat>, l: nat)
    requires l > 0 && |idx| == Pow2(l)
    ensures var a, b := LeftHalf(idx), RightHalf(idx);
            && |a| == |b| == Pow2(l - 1) && a + b == idx && idx != [] && a != [] && b != []
            && a[0] == idx[0] && b[0] == idx[Pow2(l - 1)]
  {
    DoublePow2(l - 1);
  }

  lemma RepeatsSplit(a: seq<nat>, b: seq<nat>)
    ensures NoRepeats(a + b) <==> NoRepeats(a) && NoRepeats(b) && Disjoint(a, b)
  {
    var s := a + b;
    if NoRepeats(s) {
      forall i, j | 0 <= i < j < |a| ensures a[i] != a[j] { assert s[i] != s[j]; }
      forall i, j | 0 <= i < j < |b| ensures b[i] != b[j] { assert s[|a| + i] != s[|a| + j]; }
      forall i, j | 0 <= i < |a| && 0 <= j < |b| ensures a[i] != b[j] { assert s[i] != s[|a| + j]; }
    }
  }

  lemma NodeIff(pz: Puzzle, idx: seq<nat>, l: nat)
    requires GoodPuzzle(pz) && 0 < l <= pz.k && |idx| == Pow2(l)
    requires |LeftHalf(idx)| == |RightHalf(idx)| == Pow2(l - 1)
    requires TreeValid(pz, LeftHalf(idx), l - 1) && TreeValid(pz, RightHalf(idx), l - 1)
    ensures BlockBound(pz, idx, l) <==>
            && Take(TreeHash(pz, LeftHalf(idx), l - 1), pz.cb) == Take(TreeHash(pz, RightHalf(idx), l - 1), pz.cb)
            && LeftHalf(idx) != [] && RightHalf(idx) != [] && LeftHalf(idx)[0] < RightHalf(idx)[0]
  {
    hide TreeValid, TreeHash, XorLeaves, ZeroPadded, GoodPuzzle, LeadingZeros, LeftHalf, RightHalf, Pow2, HashLen;
    var a, b := LeftHalf(idx), RightHalf(idx);
    HalfFacts(idx, l);
    ValidTreeXor(pz, a, l - 1);
    ValidTreeXor(pz, b, l - 1);
    XorLeavesConcat(pz, a, b);
    HalvesAligned(pz, a, b, l - 1);
    XorLeavesLength(pz, a);
    TreeHashLength(pz, a, l - 1);
    TrimmedBytes(pz, l - 1);
    PeelOne(l, pz.cb);
    CollisionIff(XorLeaves(pz, a), XorLeaves(pz, b), TreeHash(pz, a, l - 1), TreeHash(pz, b, l - 1), pz.cb);
  }

  lemma ValidIff(pz: Puzzle, idx: seq<nat>, l: nat)
    requires l > 0 && |idx| == Pow2(l) && |LeftHalf(idx)| == |RightHalf(idx)| == Pow2(l - 1)
    ensures TreeValid(pz, idx, l) <==>
            && TreeValid(pz, LeftHalf(idx), l - 1) && TreeValid(pz, RightHalf(idx), l - 1)
            && Take(TreeHash(pz, LeftHalf(idx), l - 1), pz.cb) == Take(TreeHash(pz, RightHalf(idx), l - 1), pz.cb)
            && LeftHalf(idx) != [] && RightHalf(idx) != [] && LeftHalf(idx)[0] < RightHalf(idx)[0]
            && Disjoint(LeftHalf(idx), RightHalf(idx))
  {
    hide TreeHash, Disjoint;
  }

  /** A tree is valid exactly when all its blocks are bound and no index repeats. */
  lemma {:induction false} TreeIsBound(pz: Puzzle, idx: seq<nat>, l: nat)
    requires GoodPuzzle(pz) && l <= pz.k && |idx| == Pow2(l)
    ensures TreeValid(pz, idx, l) <==> Bound(pz, idx, l) && NoRepeats(idx)
    decreases l
  {
    hide TreeValid, TreeHash, BlockBound, GoodPuzzle, LeftHalf, RightHalf, NoRepeats, Disjoint, Pow2, Take;
    if l == 0 {
      SingleValid(pz, idx);
    } else {
      var a, b := LeftHalf(idx), RightHalf(idx);
      HalfFacts(idx, l);
      TreeIsBound(pz, a, l - 1);
      TreeIsBound(pz, b, l - 1);
      RepeatsSplit(a, b);
      ValidIff(pz, idx, l);
      if TreeValid(pz, a, l - 1) && TreeValid(pz, b, l - 1) { NodeIff(pz, idx, l); }
    }
  }

  lemma SingleValid(pz: Puzzle, idx: seq<nat>)
    requires |idx| == Pow2(0)
    ensures TreeValid(pz, idx, 0) && NoRepeats(idx)
  {
    SingleDistinct(idx);
  }

  // ---------------------------------------------------------------- all blocks at once

  /** The w-th block of 2^r indices lies inside the list and is bound. */
  predicate BoundAt(pz: Puzzle, idx: seq<nat>, r: nat, w: nat)
  {
    var from := w * Pow2(r);
    r >= 1 && from + Pow2(r) <= |idx| && BlockBound(pz, idx[from..from + Pow2(r)], r)
  }

  ghost predicate AllBound(pz: Puzzle, idx: seq<nat>, l: nat)
  {
    forall r: nat, w: nat :: 1 <= r <= l && w < Pow2(l - r) ==> BoundAt(pz, idx, r, w)
  }

  /** Blocks of the halves are blocks of the whole. */
  lemma BlocksOfHalves(pz: Puzzle, idx: seq<nat>, l: nat, r: nat, w: nat)
    requires 1 <= r < l && |idx| == Pow2(l) && w < Pow2(l - 1 - r)
    ensures BoundAt(pz, LeftHalf(idx), r, w) <==> BoundAt(pz, idx, r, w)
    ensures BoundAt(pz, RightHalf(idx), r, w) <==> BoundAt(pz, idx, r, w + Pow2(l - 1 - r))
  {
    hide BlockBound, Pow2, LeftHalf, RightHalf;
    DoublePow2(l - 1);
    Pow2Sum(l - 1 - r, r);
    Places(w, Pow2(l - 1 - r), Pow2(r));
    HalfSlices(idx, Pow2(l - 1), w * Pow2(r), Pow2(r));
  }

  lemma Places(w: nat, q: nat, size: nat)
    requires w < q
    ensures w * size + size <= q * size && (w + q) * size == w * size + q * size
  {
    MulLe(size, w + 1, q);
  }

  lemma HalfSlices(idx: seq<nat>, half: nat, from: nat, size: nat)
    requires |idx| == 2 * half && from + size <= half
    ensures |LeftHalf(idx)| == |RightHalf(idx)| == half
    ensures LeftHalf(idx)[from..from + size] == idx[from..from + size]
    ensures RightHalf(idx)[from..from + size] == idx[from + half..from + half + size]
  {
  }

  lemma WholeBlock(pz: Puzzle, idx: seq<nat>, l: nat)
    requires l >= 1 && |idx| == Pow2(l)
    ensures BoundAt(pz, idx, l, 0) <==> BlockBound(pz, idx, l)
  {
    hide BlockBound, Pow2;
    assert idx[0..Pow2(l)] == idx;
  }

  lemma HalvesBound(pz: Puzzle, idx: seq<nat>, l: nat)
    requires l >= 1 && |idx| == Pow2(l) && AllBound(pz, idx, l)
    ensures AllBound(pz, LeftHalf(idx), l - 1) && AllBound(pz, RightHalf(idx), l - 1)
  {
    hide BoundAt, Pow2, LeftHalf, RightHalf;
    forall r: nat, w: nat | 1 <= r <= l - 1 && w < Pow2(l - 1 - r)
      ensures BoundAt(pz, LeftHalf(idx), r, w) && BoundAt(pz, RightHalf(idx), r, w)
    {
      BlocksOfHalves(pz, idx, l, r, w);
      DoublePow2(l - 1 - r);
    }
  }

  lemma WholeBound(pz: Puzzle, idx: seq<nat>, l: nat)
    requires l >= 1 && |idx| == Pow2(l) && BoundAt(pz, idx, l, 0)
    requires AllBound(pz, LeftHalf(idx), l - 1) && AllBound(pz, RightHalf(idx), l - 1)
    ensures AllBound(pz, idx, l)
  {
    hide BoundAt, Pow2, LeftHalf, RightHalf;
    OnePow2();
    forall r: nat, w: nat | 1 <= r <= l && w < Pow2(l - r)
      ensures BoundAt(pz, idx, r, w)
    {
      if r < l {
        DoublePow2(l - 1 - r);
        var half := Pow2(l - 1 - r);
        if w < half { BlocksOfHalves(pz, idx, l, r, w); } else { BlocksOfHalves(pz, idx, l, r, w - half); }
      }
    }
  }

  lemma {:induction false} BoundIsAll(pz: Puzzle, idx: seq<nat>, l: nat)
    requires |idx| == Pow2(l)
    ensures Bound(pz, idx, l) <==> AllBound(pz, idx, l)
    decreases l
  {
    hide BoundAt, BlockBound, Pow2, AllBound, LeftHalf, RightHalf;
    if l == 0 {
      NoBlocks(pz, idx);
    } else {
      HalfFacts(idx, l);
      BoundIsAll(pz, LeftHalf(idx), l - 1);
      BoundIsAll(pz, RightHalf(idx), l - 1);
      WholeBlock(pz, idx, l);
      if AllBound(pz, idx, l) {
        TopBlock(pz, idx, l);
        HalvesBound(pz, idx, l);
      } else if Bound(pz, idx, l) {
        WholeBound(pz, idx, l);
        assert false;
      }
    }
  }

  lemma NoBlocks(pz: Puzzle, idx: seq<nat>)
    ensures AllBound(pz, idx, 0)
  {
  }

  lemma TopBlock(pz: Puzzle, idx: seq<nat>, l: nat)
    requires l >= 1 && AllBound(pz, idx, l)
    ensures BoundAt(pz, idx, l, 0)
  {
    hide BoundAt;
    OnePow2();
  }

  /**
   * Validity on the flat list: for every level and every block of it the leading bytes cancel and the halves are in
   * order, and no index repeats. With all leaves cancelling, these are the conditions of section 7.7.1 of the Zcash
   * Protocol Specification.
   */
  lemma ValidOnList(pz: Puzzle, idx: seq<nat>, l: nat)
    requires GoodPuzzle(pz) && l <= pz.k && |idx| == Pow2(l)
    ensures TreeValid(pz, idx, l) <==> AllBound(pz, idx, l) && NoRepeats(idx)
  {
    hide TreeValid, AllBound, Bound, NoRepeats, GoodPuzzle;
    TreeIsBound(pz, idx, l);
    BoundIsAll(pz, idx, l);
  }
}
