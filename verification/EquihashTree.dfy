/**
 * Equihash index trees and the rows that represent them: a row is the collapsed hash of a tree
 * of indices followed by the indices themselves, each as four big-endian bytes.
 */
module EquihashTree {
  import opened Prelude
  import opened Bits

  type Row = seq<byte>

  // ---------------------------------------------------------------- byte strings

  function XorByte(a: byte, b: byte): byte
  {
    assert Pow2(8) == 256;
    XorBound(a, b, 8);
    BitXor(a, b)
  }

  function XorBytes(a: seq<byte>, b: seq<byte>): seq<byte>
  {
    if a == [] || b == [] then [] else [XorByte(a[0], b[0])] + XorBytes(a[1..], b[1..])
  }

  predicate AllZero(s: seq<byte>) { forall i :: 0 <= i < |s| ==> s[i] == 0 }

  /** memcmp(a, b) < 0 on strings of one length. */
  predicate LexLess(a: seq<byte>, b: seq<byte>)
  {
    a != [] && b != [] && (a[0] < b[0] || (a[0] == b[0] && LexLess(a[1..], b[1..])))
  }

  function Take<T>(s: seq<T>, n: nat): seq<T> { if n <= |s| then s[..n] else s }

  function Drop<T>(s: seq<T>, n: nat): seq<T> { if n <= |s| then s[n..] else [] }

  lemma {:induction false} XorBytesAt(a: seq<byte>, b: seq<byte>)
    ensures |XorBytes(a, b)| == Min(|a|, |b|)
    ensures forall i :: 0 <= i < |XorBytes(a, b)| ==> XorBytes(a, b)[i] == XorByte(a[i], b[i])
  {
    if a != [] && b != [] {
      XorBytesAt(a[1..], b[1..]);
      var x := XorBytes(a, b);
      assert x[1..] == XorBytes(a[1..], b[1..]);
      forall i | 0 <= i < |x| ensures x[i] == XorByte(a[i], b[i]) {
        if i > 0 { assert x[i] == x[1..][i - 1] == XorByte(a[1..][i - 1], b[1..][i - 1]); }
      }
    }
  }

  lemma XorSymmetric(a: seq<byte>, b: seq<byte>)
    ensures XorBytes(a, b) == XorBytes(b, a)
  {
    XorBytesAt(a, b);
    XorBytesAt(b, a);
    forall i | 0 <= i < |XorBytes(a, b)| ensures XorBytes(a, b)[i] == XorBytes(b, a)[i] {
      XorLaws(a[i], b[i]);
    }
  }

  lemma XorAssociative(a: seq<byte>, b: seq<byte>, c: seq<byte>)
    requires |a| == |b| == |c|
    ensures XorBytes(XorBytes(a, b), c) == XorBytes(a, XorBytes(b, c))
  {
    XorBytesAt(a, b);
    XorBytesAt(b, c);
    XorBytesAt(XorBytes(a, b), c);
    XorBytesAt(a, XorBytes(b, c));
    forall i | 0 <= i < |a| ensures XorBytes(XorBytes(a, b), c)[i] == XorBytes(a, XorBytes(b, c))[i] {
      XorAssoc(a[i], b[i], c[i]);
    }
  }

  /** Two strings collide exactly when their XOR is zero. */
  lemma XorZero(a: seq<byte>, b: seq<byte>)
    requires |a| == |b|
    ensures AllZero(XorBytes(a, b)) <==> a == b
  {
    XorBytesAt(a, b);
    forall i | 0 <= i < |a| ensures XorBytes(a, b)[i] == 0 <==> a[i] == b[i] {
      XorLaws(a[i], b[i]);
    }
  }

  lemma XorSplit(a: seq<byte>, b: seq<byte>, n: nat)
    requires n <= |a| == |b|
    ensures XorBytes(a, b) == XorBytes(a[..n], b[..n]) + XorBytes(a[n..], b[n..])
  {
    XorBytesAt(a, b);
    XorBytesAt(a[..n], b[..n]);
    XorBytesAt(a[n..], b[n..]);
  }

  lemma {:induction false} LexConcat(s: seq<byte>, t: seq<byte>, u: seq<byte>, v: seq<byte>)
    requires |s| == |t|
    ensures LexLess(s + u, t + v) <==> LexLess(s, t) || (s == t && LexLess(u, v))
  {
    if s == [] {
      assert s + u == u && t + v == v;
    } else {
      assert (s + u)[1..] == s[1..] + u && (t + v)[1..] == t[1..] + v;
      LexConcat(s[1..], t[1..], u, v);
      assert s == t <==> s[0] == t[0] && s[1..] == t[1..] by {
        assert s == [s[0]] + s[1..] && t == [t[0]] + t[1..];
      }
    }
  }

  /** Big-endian bytes compare like the numbers they encode. */
  lemma {:induction false} LexNumbers(x: nat, y: nat, w: nat)
    requires x < Pow2(8 * w) && y < Pow2(8 * w)
    ensures LexLess(BytesBE(x, w), BytesBE(y, w)) <==> x < y
    ensures BytesBE(x, w) == BytesBE(y, w) <==> x == y
  {
    ValueOfBytes(x, w);
    ValueOfBytes(y, w);
    if w == 0 {
    } else {
      ByteQuotient(x, w);
      ByteQuotient(y, w);
      LexNumbers(x / 256, y / 256, w - 1);
      LexConcat(BytesBE(x / 256, w - 1), BytesBE(y / 256, w - 1), [x % 256], [y % 256]);
      assert [x % 256][1..] == [] && [y % 256][1..] == [];
    }
  }

  lemma ByteQuotient(v: nat, w: nat)
    requires w > 0 && v < Pow2(8 * w)
    ensures v / 256 < Pow2(8 * (w - 1))
  {
    ByteSplit(v);
    LowSmall(v, 8 * w);
    LowThenShr(v, 8 * w, 8);
    LowBound(Shr(v, 8), 8 * w - 8);
  }

  // ---------------------------------------------------------------- indices as bytes

  const INDEX_BYTES: nat := 4

  /** Indices as four-byte groups. */
  function IndexBytes(idx: seq<nat>): seq<byte>
  {
    if idx == [] then [] else BytesBE(idx[0], INDEX_BYTES) + IndexBytes(idx[1..])
  }

  predicate Index32(idx: seq<nat>) { forall i :: 0 <= i < |idx| ==> idx[i] < Pow2(8 * INDEX_BYTES) }

  predicate Disjoint(a: seq<nat>, b: seq<nat>)
  {
    forall i, j :: 0 <= i < |a| && 0 <= j < |b| ==> a[i] != b[j]
  }

  lemma {:induction false} IndexBytesLength(idx: seq<nat>)
    ensures |IndexBytes(idx)| == 4 * |idx|
  {
    if idx == [] {
    } else {
      IndexBytesLength(idx[1..]);
    }
  }

  lemma {:induction false} IndexBytesConcat(a: seq<nat>, b: seq<nat>)
    ensures IndexBytes(a + b) == IndexBytes(a) + IndexBytes(b)
  {
    if a == [] {
      assert a + b == b;
    } else {
      assert (a + b)[1..] == a[1..] + b;
      IndexBytesConcat(a[1..], b);
      SeqAssoc(BytesBE(a[0], INDEX_BYTES), IndexBytes(a[1..]), IndexBytes(b));
    }
  }

  lemma {:induction false} IndexBytesAt(idx: seq<nat>, i: nat)
    requires i < |idx|
    ensures 4 * i + 4 <= |IndexBytes(idx)| && IndexBytes(idx)[4 * i..4 * i + 4] == BytesBE(idx[i], 4)
  {
    var bs, rest := IndexBytes(idx), IndexBytes(idx[1..]);
    if i == 0 {
    } else {
      IndexBytesAt(idx[1..], i - 1);
      assert bs[4 * i..4 * i + 4] == rest[4 * (i - 1)..4 * (i - 1) + 4];
    }
  }

  lemma {:induction false} IndexBytesInjective(a: seq<nat>, b: seq<nat>)
    requires Index32(a) && Index32(b) && |a| == |b| && IndexBytes(a) == IndexBytes(b)
    ensures a == b
  {
    forall i | 0 <= i < |a| ensures a[i] == b[i] {
      IndexBytesAt(a, i);
      IndexBytesAt(b, i);
      LexNumbers(a[i], b[i], 4);
    }
  }

  /** No four-byte group of x occurs in y. */
  predicate DistinctGroups(x: seq<byte>, y: seq<byte>)
  {
    forall i, j :: 0 <= i < |x| / 4 && 0 <= j < |y| / 4 ==> Group(x, i) != Group(y, j)
  }

  function Group(x: seq<byte>, i: nat): seq<byte>
    requires i < |x| / 4
  {
    x[4 * i..4 * i + 4]
  }

  /** Comparing the byte groups of two index lists compares the indices. */
  lemma DistinctIsDisjoint(a: seq<nat>, b: seq<nat>)
    requires Index32(a) && Index32(b)
    ensures DistinctGroups(IndexBytes(a), IndexBytes(b)) <==> Disjoint(a, b)
  {
    hide IndexBytes, LexLess, BytesBE, Pow2;
    IndexBytesLength(a);
    IndexBytesLength(b);
    forall i, j | 0 <= i < |a| && 0 <= j < |b|
      ensures Group(IndexBytes(a), i) == Group(IndexBytes(b), j) <==> a[i] == b[j]
    {
      IndexBytesAt(a, i);
      IndexBytesAt(b, j);
      LexNumbers(a[i], b[j], 4);
    }
  }

  /** Lists without a common index compare by their first index. */
  lemma IndexOrder(a: seq<nat>, b: seq<nat>)
    requires Index32(a) && Index32(b) && a != [] && b != [] && a[0] != b[0]
    ensures LexLess(IndexBytes(a), IndexBytes(b)) <==> a[0] < b[0]
  {
    LexNumbers(a[0], b[0], 4);
    LexConcat(BytesBE(a[0], 4), BytesBE(b[0], 4), IndexBytes(a[1..]), IndexBytes(b[1..]));
  }

  // ---------------------------------------------------------------- index trees

  /**
   * What the verifier and the solver depend on: the expanded hash of each index, the number of
   * bytes that collide per round, and the number of rounds.
   */
  datatype Puzzle = Puzzle(leaf: nat -> seq<byte>, cb: nat, k: nat)

  ghost predicate GoodPuzzle(pz: Puzzle)
  {
    pz.cb >= 1 && pz.k >= 1 && forall i: nat :: |pz.leaf(i)| == HashLen(pz, 0)
  }

  /** Hash bytes left after l rounds. */
  function HashLen(pz: Puzzle, l: nat): nat { if l <= pz.k then (pz.k + 1 - l) * pz.cb else 0 }

  lemma HashLenStep(pz: Puzzle, l: nat)
    requires l < pz.k
    ensures HashLen(pz, l) == HashLen(pz, l + 1) + pz.cb
    ensures HashLen(pz, l + 1) >= pz.cb
  {
    PeelOne(pz.k + 1 - l, pz.cb);
    PeelOne(pz.k - l, pz.cb);
  }

  function LeftHalf(idx: seq<nat>): seq<nat> { idx[..|idx| / 2] }

  function RightHalf(idx: seq<nat>): seq<nat> { idx[|idx| / 2..] }

  /** XOR of the leaf hashes of a tree of depth l, with the l * cb leading bytes trimmed off. */
  function TreeHash(pz: Puzzle, idx: seq<nat>, l: nat): seq<byte>
    requires |idx| == Pow2(l)
  {
    if l == 0 then pz.leaf(idx[0])
    else Drop(XorBytes(TreeHash(pz, LeftHalf(idx), l - 1), TreeHash(pz, RightHalf(idx), l - 1)), pz.cb)
  }

  /**
   * The conditions on a tree of indices: at every level the two halves collide on the next cb
   * bytes, the left half has the smaller leading index, and the halves share no index.
   */
  predicate TreeValid(pz: Puzzle, idx: seq<nat>, l: nat)
    requires |idx| == Pow2(l)
  {
    l == 0 ||
    (var a, b := LeftHalf(idx), RightHalf(idx);
     && TreeValid(pz, a, l - 1) && TreeValid(pz, b, l - 1)
     && Take(TreeHash(pz, a, l - 1), pz.cb) == Take(TreeHash(pz, b, l - 1), pz.cb)
     && a[0] < b[0]
     && Disjoint(a, b))
  }

  lemma {:induction false} TreeHashLength(pz: Puzzle, idx: seq<nat>, l: nat)
    requires GoodPuzzle(pz) && |idx| == Pow2(l) && l <= pz.k
    ensures |TreeHash(pz, idx, l)| == HashLen(pz, l)
  {
    if l == 0 {
    } else {
      hide GoodPuzzle, XorBytes, HashLen;
      TreeHashLength(pz, LeftHalf(idx), l - 1);
      TreeHashLength(pz, RightHalf(idx), l - 1);
      XorBytesAt(TreeHash(pz, LeftHalf(idx), l - 1), TreeHash(pz, RightHalf(idx), l - 1));
      HashLenStep(pz, l - 1);
    }
  }

  lemma Halves(a: seq<nat>, b: seq<nat>, l: nat)
    requires |a| == |b| == Pow2(l)
    ensures |a + b| == Pow2(l + 1) && LeftHalf(a + b) == a && RightHalf(a + b) == b
  {
  }

  /** The row of a tree. */
  function RowOf(pz: Puzzle, idx: seq<nat>, l: nat): Row
    requires |idx| == Pow2(l)
  {
    TreeHash(pz, idx, l) + IndexBytes(idx)
  }

  lemma RowParts(pz: Puzzle, idx: seq<nat>, l: nat)
    requires GoodPuzzle(pz) && |idx| == Pow2(l) && l <= pz.k
    ensures var row, h := RowOf(pz, idx, l), HashLen(pz, l);
            && |row| == h + 4 * Pow2(l)
            && row[..h] == TreeHash(pz, idx, l)
            && row[h..] == IndexBytes(idx)
  {
    TreeHashLength(pz, idx, l);
    IndexBytesLength(idx);
  }

  // ---------------------------------------------------------------- merging rows

  /** The row built from two rows with len hash bytes each, dropping `trim` of them. */
  function Merged(a: Row, b: Row, len: nat, trim: nat): Row
    requires trim <= len <= |a| && len <= |b|
  {
    var ia, ib := a[len..], b[len..];
    XorBytes(a[trim..len], b[trim..len]) + (if LexLess(ia, ib) then ia + ib else ib + ia)
  }

  lemma {:induction false} LexTotal(a: seq<byte>, b: seq<byte>)
    requires |a| == |b|
    ensures LexLess(a, b) || LexLess(b, a) || a == b
    ensures !(LexLess(a, b) && LexLess(b, a))
  {
    if a == [] {
    } else {
      LexTotal(a[1..], b[1..]);
      assert a == [a[0]] + a[1..] && b == [b[0]] + b[1..];
    }
  }

  /** Merging does not depend on the order of the two rows. */
  lemma MergedSymmetric(a: Row, b: Row, len: nat, trim: nat)
    requires trim <= len <= |a| == |b|
    ensures Merged(a, b, len, trim) == Merged(b, a, len, trim)
  {
    XorSymmetric(a[trim..len], b[trim..len]);
    LexTotal(a[len..], b[len..]);
  }

  /** Merging the rows of two colliding trees gives the row of the tree that joins them in order. */
  lemma MergedRow(pz: Puzzle, a: seq<nat>, b: seq<nat>, l: nat)
    requires GoodPuzzle(pz) && |a| == |b| == Pow2(l) && l < pz.k && Index32(a) && Index32(b) && a[0] < b[0]
    ensures pz.cb <= HashLen(pz, l) <= |RowOf(pz, a, l)| == |RowOf(pz, b, l)|
    ensures Merged(RowOf(pz, a, l), RowOf(pz, b, l), HashLen(pz, l), pz.cb) == RowOf(pz, a + b, l + 1)
  {
    RowParts(pz, a, l);
    RowParts(pz, b, l);
    HashLenStep(pz, l);
    Halves(a, b, l);
    IndexOrder(a, b);
    IndexBytesConcat(a, b);
    var x, y := TreeHash(pz, a, l), TreeHash(pz, b, l);
    XorSplit(x, y, pz.cb);
    XorBytesAt(x[..pz.cb], y[..pz.cb]);
    assert RowOf(pz, a, l)[pz.cb..HashLen(pz, l)] == x[pz.cb..];
    assert RowOf(pz, b, l)[pz.cb..HashLen(pz, l)] == y[pz.cb..];
  }

  // ---------------------------------------------------------------- what a valid tree guarantees

  predicate NoRepeats(idx: seq<nat>)
  {
    forall i, j :: 0 <= i < j < |idx| ==> idx[i] != idx[j]
  }

  /** The conditions on the two halves of a valid tree. */
  lemma ValidHalves(pz: Puzzle, idx: seq<nat>, l: nat)
    requires l > 0 && |idx| == Pow2(l) && TreeValid(pz, idx, l)
    ensures var a, b := LeftHalf(idx), RightHalf(idx);
            && |a| == |b| == Pow2(l - 1) && TreeValid(pz, a, l - 1) && TreeValid(pz, b, l - 1)
            && Take(TreeHash(pz, a, l - 1), pz.cb) == Take(TreeHash(pz, b, l - 1), pz.cb)
            && a[0] < b[0] && Disjoint(a, b)
  {
  }

  lemma JoinHalves(idx: seq<nat>)
    ensures LeftHalf(idx) + RightHalf(idx) == idx
  {
  }

  lemma JoinDistinct(a: seq<nat>, b: seq<nat>)
    requires NoRepeats(a) && NoRepeats(b) && Disjoint(a, b)
    ensures NoRepeats(a + b)
  {
  }

  /** All indices of a valid tree are distinct. */
  lemma {:induction false} ValidTreeDistinct(pz: Puzzle, idx: seq<nat>, l: nat)
    requires |idx| == Pow2(l) && TreeValid(pz, idx, l)
    ensures NoRepeats(idx)
    decreases l
  {
    hide NoRepeats, TreeHash, TreeValid, LeftHalf, RightHalf, Disjoint, Pow2;
    if l == 0 {
      SingleDistinct(idx);
    } else {
      ValidHalves(pz, idx, l);
      ValidTreeDistinct(pz, LeftHalf(idx), l - 1);
      ValidTreeDistinct(pz, RightHalf(idx), l - 1);
      JoinDistinct(LeftHalf(idx), RightHalf(idx));
      JoinHalves(idx);
    }
  }

  lemma SingleDistinct(idx: seq<nat>)
    requires |idx| == Pow2(0)
    ensures NoRepeats(idx)
  {
  }

  /** XOR of the leaf hashes of a list of indices, one after the other. */
  function XorLeaves(pz: Puzzle, idx: seq<nat>): seq<byte>
    requires idx != []
  {
    if |idx| == 1 then pz.leaf(idx[0]) else XorBytes(pz.leaf(idx[0]), XorLeaves(pz, idx[1..]))
  }

  lemma {:induction false} XorLeavesLength(pz: Puzzle, idx: seq<nat>)
    requires GoodPuzzle(pz) && idx != []
    ensures |XorLeaves(pz, idx)| == HashLen(pz, 0)
  {
    if |idx| > 1 {
      XorLeavesLength(pz, idx[1..]);
      XorBytesAt(pz.leaf(idx[0]), XorLeaves(pz, idx[1..]));
    }
  }

  lemma {:induction false} XorLeavesConcat(pz: Puzzle, a: seq<nat>, b: seq<nat>)
    requires GoodPuzzle(pz) && a != [] && b != []
    ensures XorLeaves(pz, a + b) == XorBytes(XorLeaves(pz, a), XorLeaves(pz, b))
  {
    assert (a + b)[1..] == a[1..] + b;
    if |a| > 1 {
      XorLeavesConcat(pz, a[1..], b);
      XorLeavesLength(pz, a[1..]);
      XorLeavesLength(pz, b);
      XorAssociative(pz.leaf(a[0]), XorLeaves(pz, a[1..]), XorLeaves(pz, b));
    } else {
      assert a[1..] + b == b;
    }
  }

  function Zeros(n: nat): (s: seq<byte>)
    ensures |s| == n && AllZero(s)
  {
    seq(n, i => 0)
  }

  lemma ZeroUnique(s: seq<byte>)
    requires AllZero(s)
    ensures s == Zeros(|s|)
  {
  }

  /** x is t with zero bytes in front. */
  predicate ZeroPadded(x: seq<byte>, t: seq<byte>)
  {
    |t| <= |x| && AllZero(x[..|x| - |t|]) && x[|x| - |t|..] == t
  }

  lemma JoinXor(x: seq<byte>, y: seq<byte>, s: seq<byte>, t: seq<byte>, cb: nat)
    requires ZeroPadded(x, s) && ZeroPadded(y, t) && |x| == |y| && cb <= |s| == |t| && s[..cb] == t[..cb]
    ensures ZeroPadded(XorBytes(x, y), Drop(XorBytes(s, t), cb))
  {
    hide XorBytes, XorByte;
    var n := |x| - |s|;
    XorSplit(x, y, n);
    XorSplit(s, t, cb);
    XorBytesAt(s, t);
    XorZero(x[..n], y[..n]);
    XorZero(s[..cb], t[..cb]);
    ZeroUnique(x[..n]);
    ZeroUnique(y[..n]);
    XorBytesAt(x[..n], y[..n]);
    XorBytesAt(s[..cb], t[..cb]);
    var z, z', u := XorBytes(x[..n], y[..n]), XorBytes(s[..cb], t[..cb]), XorBytes(s[cb..], t[cb..]);
    assert XorBytes(x, y) == (z + z') + u;
    assert Drop(XorBytes(s, t), cb) == u;
  }

  lemma JoinTrees(pz: Puzzle, a: seq<nat>, b: seq<nat>, l: nat)
    requires GoodPuzzle(pz) && |a| == |b| == Pow2(l) && l < pz.k
    requires Take(TreeHash(pz, a, l), pz.cb) == Take(TreeHash(pz, b, l), pz.cb)
    requires ZeroPadded(XorLeaves(pz, a), TreeHash(pz, a, l)) && ZeroPadded(XorLeaves(pz, b), TreeHash(pz, b, l))
    ensures |a + b| == Pow2(l + 1) && ZeroPadded(XorLeaves(pz, a + b), TreeHash(pz, a + b, l + 1))
  {
    hide GoodPuzzle, XorLeaves, XorBytes, ZeroPadded;
    XorLeavesConcat(pz, a, b);
    HalvesAligned(pz, a, b, l);
    Halves(a, b, l);
    JoinXor(XorLeaves(pz, a), XorLeaves(pz, b), TreeHash(pz, a, l), TreeHash(pz, b, l), pz.cb);
  }

  /** Every round of collisions zeroes cb more bytes of the XOR of all the leaves. */
  lemma {:induction false} ValidTreeXor(pz: Puzzle, idx: seq<nat>, l: nat)
    requires GoodPuzzle(pz) && |idx| == Pow2(l) && l <= pz.k && TreeValid(pz, idx, l)
    ensures |idx| >= 1 && ZeroPadded(XorLeaves(pz, idx), TreeHash(pz, idx, l))
    decreases l
  {
    hide XorLeaves, TreeHash, ZeroPadded, TreeValid, LeftHalf, RightHalf, GoodPuzzle, Pow2;
    if l == 0 {
      SingleXor(pz, idx);
    } else {
      ValidHalves(pz, idx, l);
      var a, b := LeftHalf(idx), RightHalf(idx);
      ValidTreeXor(pz, a, l - 1);
      ValidTreeXor(pz, b, l - 1);
      JoinTrees(pz, a, b, l - 1);
      JoinHalves(idx);
    }
  }

  lemma SingleXor(pz: Puzzle, idx: seq<nat>)
    requires |idx| == Pow2(0)
    ensures ZeroPadded(XorLeaves(pz, idx), TreeHash(pz, idx, 0))
  {
    assert |idx| == 1;
  }

  lemma HalvesAligned(pz: Puzzle, a: seq<nat>, b: seq<nat>, l: nat)
    requires GoodPuzzle(pz) && |a| == |b| == Pow2(l) && l < pz.k
    ensures |XorLeaves(pz, a)| == |XorLeaves(pz, b)|
    ensures pz.cb <= |TreeHash(pz, a, l)| == |TreeHash(pz, b, l)|
  {
    XorLeavesLength(pz, a);
    XorLeavesLength(pz, b);
    TreeHashLength(pz, a, l);
    TreeHashLength(pz, b, l);
    HashLenStep(pz, l);
  }

  /** A valid tree whose collapsed hash is zero has leaves that XOR to zero, and conversely. */
  lemma SolutionXor(pz: Puzzle, idx: seq<nat>)
    requires GoodPuzzle(pz) && |idx| == Pow2(pz.k) && TreeValid(pz, idx, pz.k)
    ensures AllZero(XorLeaves(pz, idx)) <==> AllZero(TreeHash(pz, idx, pz.k))
  {
    ValidTreeXor(pz, idx, pz.k);
    PaddedZero(XorLeaves(pz, idx), TreeHash(pz, idx, pz.k));
  }

  lemma PaddedZero(x: seq<byte>, t: seq<byte>)
    requires ZeroPadded(x, t)
    ensures AllZero(x) <==> AllZero(t)
  {
    var n := |x| - |t|;
    assert forall i :: 0 <= i < n ==> x[i] == x[..n][i];
    assert forall i :: 0 <= i < |t| ==> x[n + i] == t[i];
    assert forall i :: n <= i < |x| ==> x[i] == t[i - n];
  }
}
