/** Row operations and the solution verifier. */
module EquihashVerify {
  import opened Prelude
  import opened EquihashTree

  // ---------------------------------------------------------------- operations on rows

  method HasCollision(a: Row, b: Row, l: nat) returns (r: bool)
    requires l <= |a| && l <= |b|
    ensures r <==> a[..l] == b[..l]
  {
    for j := 0 to l
      invariant a[..j] == b[..j]
    {
      if a[j] != b[j] {
        assert a[..l][j] != b[..l][j];
        return false;
      }
      assert a[..j + 1] == a[..j] + [a[j]] && b[..j + 1] == b[..j] + [b[j]];
    }
    return true;
  }

  method IsZero(row: Row, len: nat) returns (r: bool)
    requires len <= |row|
    ensures r <==> AllZero(row[..len])
  {
    for i := 0 to len
      invariant forall j :: 0 <= j < i ==> row[j] == 0
    {
      if row[i] != 0 {
        assert row[..len][i] != 0;
        return false;
      }
    }
    return true;
  }

  /** memcmp of n bytes at two offsets, as an order test. */
  method MemLess(a: seq<byte>, b: seq<byte>) returns (r: bool)
    requires |a| == |b|
    ensures r <==> LexLess(a, b)
  {
    for i := 0 to |a|
      invariant LexLess(a, b) <==> LexLess(a[i..], b[i..])
    {
      assert a[i..][1..] == a[i + 1..] && b[i..][1..] == b[i + 1..];
      if a[i] != b[i] { return a[i] < b[i]; }
    }
    return false;
  }

  method IndicesBefore(a: Row, b: Row, len: nat) returns (r: bool)
    requires len <= |a| == |b|
    ensures r <==> LexLess(a[len..], b[len..])
  {
    r := MemLess(a[len..], b[len..]);
  }

  /** No four-byte index of a occurs in b. */
  method DistinctIndices(a: Row, b: Row, len: nat) returns (r: bool)
    requires len <= |a| && len <= |b|
    ensures r <==> DistinctGroups(a[len..], b[len..])
  {
    var x, y := a[len..], b[len..];
    for i := 0 to |x| / 4
      invariant forall i', j :: 0 <= i' < i && 0 <= j < |y| / 4 ==> Group(x, i') != Group(y, j)
    {
      for j := 0 to |y| / 4
        invariant forall j' :: 0 <= j' < j ==> Group(x, i) != Group(y, j')
      {
        if x[4 * i..4 * i + 4] == y[4 * j..4 * j + 4] {
          assert Group(x, i) == Group(y, j);
          return false;
        }
      }
    }
    return true;
  }

  /** The merging row constructor. */
  method Merge(a: Row, b: Row, len: nat, trim: nat) returns (row: Row)
    requires trim <= len <= |a| == |b|
    ensures row == Merged(a, b, len, trim)
  {
    row := [];
    for i := trim to len
      invariant row == XorBytes(a[trim..i], b[trim..i])
    {
      XorBytesAt(a[trim..i + 1], b[trim..i + 1]);
      XorBytesAt(a[trim..i], b[trim..i]);
      assert row + [XorByte(a[i], b[i])] == XorBytes(a[trim..i + 1], b[trim..i + 1]);
      row := row + [XorByte(a[i], b[i])];
    }
    var before := IndicesBefore(a, b, len);
    if before {
      row := row + (a[len..] + b[len..]);
    } else {
      row := row + (b[len..] + a[len..]);
    }
  }

  // ---------------------------------------------------------------- one level of the tree

  /** X holds the rows of the valid trees `blocks`, all of depth l. */
  ghost predicate RowsOf(pz: Puzzle, X: seq<Row>, blocks: seq<seq<nat>>, l: nat)
  {
    && |X| == |blocks|
    && forall i :: 0 <= i < |X| ==> RowFor(pz, X[i], blocks[i], l)
  }

  ghost predicate RowFor(pz: Puzzle, row: Row, idx: seq<nat>, l: nat)
  {
    |idx| == Pow2(l) && Index32(idx) && TreeValid(pz, idx, l) && row == RowOf(pz, idx, l)
  }

  function Flatten(blocks: seq<seq<nat>>): seq<nat>
  {
    if blocks == [] then [] else blocks[0] + Flatten(blocks[1..])
  }

  function PairBlocks(blocks: seq<seq<nat>>): seq<seq<nat>>
  {
    if |blocks| < 2 then [] else [blocks[0] + blocks[1]] + PairBlocks(blocks[2..])
  }

  ghost predicate JoinValid(pz: Puzzle, a: seq<nat>, b: seq<nat>, l: nat)
  {
    |a + b| == Pow2(l + 1) && TreeValid(pz, a + b, l + 1)
  }

  lemma RowLayout(pz: Puzzle, row: Row, idx: seq<nat>, l: nat)
    requires GoodPuzzle(pz) && l < pz.k && RowFor(pz, row, idx, l)
    ensures var h := HashLen(pz, l);
            && pz.cb <= h <= |row| == h + 4 * Pow2(l)
            && row[h..] == IndexBytes(idx)
            && row[..pz.cb] == Take(TreeHash(pz, idx, l), pz.cb)
  {
    var h := HashLen(pz, l);
    RowParts(pz, idx, l);
    HashLenStep(pz, l);
    assert row[..pz.cb] == row[..h][..pz.cb];
  }

  /** A join of two valid trees is valid exactly when they collide, are in order and are disjoint. */
  lemma JoinValidIff(pz: Puzzle, ia: seq<nat>, ib: seq<nat>, l: nat)
    requires |ia| == |ib| == Pow2(l) && TreeValid(pz, ia, l) && TreeValid(pz, ib, l)
    ensures JoinValid(pz, ia, ib, l)
       <==> Take(TreeHash(pz, ia, l), pz.cb) == Take(TreeHash(pz, ib, l), pz.cb)
            && ia[0] < ib[0] && Disjoint(ia, ib)
  {
    Halves(ia, ib, l);
  }

  /** What the three checks on a pair of rows decide. */
  lemma PairChecks(pz: Puzzle, a: Row, b: Row, ia: seq<nat>, ib: seq<nat>, l: nat)
    requires GoodPuzzle(pz) && l < pz.k && RowFor(pz, a, ia, l) && RowFor(pz, b, ib, l)
    requires pz.cb <= HashLen(pz, l) <= |a| == |b|
    ensures JoinValid(pz, ia, ib, l)
       <==> a[..pz.cb] == b[..pz.cb]
            && !LexLess(b[HashLen(pz, l)..], a[HashLen(pz, l)..]) && Disjoint(ia, ib)
  {
    RowLayout(pz, a, ia, l);
    RowLayout(pz, b, ib, l);
    JoinValidIff(pz, ia, ib, l);
    if Disjoint(ia, ib) {
      assert ia[0] != ib[0];
      IndexOrder(ib, ia);
    }
  }

  lemma MergedFor(pz: Puzzle, a: Row, b: Row, ia: seq<nat>, ib: seq<nat>, l: nat)
    requires GoodPuzzle(pz) && l < pz.k && RowFor(pz, a, ia, l) && RowFor(pz, b, ib, l)
    requires pz.cb <= HashLen(pz, l) <= |a| == |b| && JoinValid(pz, ia, ib, l)
    ensures RowFor(pz, Merged(a, b, HashLen(pz, l), pz.cb), ia + ib, l + 1)
  {
    JoinValidIff(pz, ia, ib, l);
    MergedRow(pz, ia, ib, l);
  }

  // ---------------------------------------------------------------- blocks of indices

  lemma {:induction false} PairBlocksFlatten(blocks: seq<seq<nat>>, m: nat)
    requires |blocks| == 2 * m
    ensures Flatten(PairBlocks(blocks)) == Flatten(blocks)
    ensures |PairBlocks(blocks)| == m
  {
    if m == 0 {
    } else {
      PairBlocksFlatten(blocks[2..], m - 1);
      assert blocks[1..][1..] == blocks[2..];
      var ps := PairBlocks(blocks);
      assert ps[1..] == PairBlocks(blocks[2..]);
      SeqAssoc(blocks[0], blocks[1], Flatten(blocks[2..]));
    }
  }

  lemma {:induction false} PairBlocksAt(blocks: seq<seq<nat>>, i: nat)
    requires 2 * i + 1 < |blocks|
    ensures i < |PairBlocks(blocks)| && PairBlocks(blocks)[i] == blocks[2 * i] + blocks[2 * i + 1]
  {
    if i == 0 {
    } else {
      PairBlocksAt(blocks[2..], i - 1);
    }
  }

  lemma {:induction false} FlattenConcat(a: seq<seq<nat>>, b: seq<seq<nat>>)
    ensures Flatten(a + b) == Flatten(a) + Flatten(b)
  {
    if a == [] {
      assert a + b == b;
    } else {
      assert (a + b)[1..] == a[1..] + b;
      FlattenConcat(a[1..], b);
      SeqAssoc(a[0], Flatten(a[1..]), Flatten(b));
    }
  }

  predicate AllOfLength(blocks: seq<seq<nat>>, n: nat) { forall i :: 0 <= i < |blocks| ==> |blocks[i]| == n }

  lemma {:induction false} FlattenLength(blocks: seq<seq<nat>>, n: nat, l: nat)
    requires AllOfLength(blocks, Pow2(l)) && |blocks| == Pow2(n)
    ensures |Flatten(blocks)| == Pow2(n + l)
  {
    if n == 0 {
      assert blocks[1..] == [];
    } else {
      var h := Pow2(n - 1);
      FlattenLength(blocks[..h], n - 1, l);
      FlattenLength(blocks[h..], n - 1, l);
      assert blocks == blocks[..h] + blocks[h..];
      FlattenConcat(blocks[..h], blocks[h..]);
    }
  }

  /** Blocks of 2^l indices that together form a valid tree of depth k. */
  ghost predicate BlocksValid(pz: Puzzle, blocks: seq<seq<nat>>, k: nat, l: nat)
  {
    && l <= k && AllOfLength(blocks, Pow2(l)) && |blocks| == Pow2(k - l)
    && |Flatten(blocks)| == Pow2(k) && TreeValid(pz, Flatten(blocks), k)
  }

  lemma HalfBlocksValid(pz: Puzzle, blocks: seq<seq<nat>>, k: nat, l: nat)
    requires l < k && BlocksValid(pz, blocks, k, l)
    ensures var h := Pow2(k - 1 - l);
            |blocks| == 2 * h && BlocksValid(pz, blocks[..h], k - 1, l) && BlocksValid(pz, blocks[h..], k - 1, l)
  {
    hide TreeHash, Flatten;
    var h := Pow2(k - 1 - l);
    var a, b := blocks[..h], blocks[h..];
    assert blocks == a + b;
    FlattenConcat(a, b);
    FlattenLength(a, k - 1 - l, l);
    FlattenLength(b, k - 1 - l, l);
    Halves(Flatten(a), Flatten(b), k - 1);
  }

  lemma TwoBlocks(blocks: seq<seq<nat>>)
    requires |blocks| == 2
    ensures Flatten(blocks) == blocks[0] + blocks[1]
  {
    OneBlock(blocks[1..]);
  }

  lemma OneBlock(blocks: seq<seq<nat>>)
    requires |blocks| == 1
    ensures Flatten(blocks) == blocks[0]
  {
    assert blocks[1..] == [];
  }

  /** Every aligned pair of blocks inside a valid tree forms a valid subtree. */
  lemma {:induction false} SubtreesValid(pz: Puzzle, blocks: seq<seq<nat>>, k: nat, l: nat, i: nat)
    requires l < k && BlocksValid(pz, blocks, k, l) && 2 * i + 1 < |blocks|
    ensures JoinValid(pz, blocks[2 * i], blocks[2 * i + 1], l)
    decreases k
  {
    hide TreeValid, TreeHash, Flatten;
    HalfBlocksValid(pz, blocks, k, l);
    if k == l + 1 {
      TwoBlocks(blocks);
    } else {
      var h, q := Pow2(k - 1 - l), Pow2(k - 2 - l);
      assert h == 2 * q;
      if i < q {
        SubtreesValid(pz, blocks[..h], k - 1, l, i);
      } else {
        SubtreesValid(pz, blocks[h..], k - 1, l, i - q);
      }
    }
  }

  // ---------------------------------------------------------------- the verifier

  /** One pass of the verifier over the 2m rows of a level. */
  method CheckLevel(pz: Puzzle, X: seq<Row>, hashLen: nat, ghost blocks: seq<seq<nat>>, ghost l: nat, ghost m: nat)
    returns (ok: bool, Xc: seq<Row>)
    requires GoodPuzzle(pz) && l < pz.k && hashLen == HashLen(pz, l)
    requires RowsOf(pz, X, blocks, l) && |X| == 2 * m
    ensures ok ==> RowsOf(pz, Xc, PairBlocks(blocks), l + 1)
    ensures !ok ==> exists i: nat :: 2 * i + 1 < |blocks| && !JoinValid(pz, blocks[2 * i], blocks[2 * i + 1], l)
  {
    hide GoodPuzzle, RowFor, JoinValid, HashLen, Pow2;
    Xc := [];
    PairBlocksFlatten(blocks, m);
    var i := 0;
    while i < |X|
      invariant i == 2 * |Xc| <= |X|
      invariant RowsOf(pz, Xc, PairBlocks(blocks)[..|Xc|], l + 1)
    {
      PairBlocksAt(blocks, |Xc|);
      var good, row := CheckPair(pz, X[i], X[i + 1], hashLen, blocks[i], blocks[i + 1], l);
      if !good {
        return false, Xc;
      }
      Xc := Xc + [row];
      i := i + 2;
    }
    ok := true;
    assert PairBlocks(blocks)[..|Xc|] == PairBlocks(blocks);
  }

  method CheckPair(pz: Puzzle, a: Row, b: Row, hashLen: nat, ghost ia: seq<nat>, ghost ib: seq<nat>, ghost l: nat)
    returns (ok: bool, row: Row)
    requires GoodPuzzle(pz) && l < pz.k && hashLen == HashLen(pz, l)
    requires RowFor(pz, a, ia, l) && RowFor(pz, b, ib, l)
    ensures ok <==> JoinValid(pz, ia, ib, l)
    ensures ok ==> RowFor(pz, row, ia + ib, l + 1)
  {
    RowLayout(pz, a, ia, l);
    RowLayout(pz, b, ib, l);
    PairChecks(pz, a, b, ia, ib, l);
    row := [];
    var collide := HasCollision(a, b, pz.cb);
    if !collide { return false, row; }
    var swapped := IndicesBefore(b, a, hashLen);
    if swapped { return false, row; }
    DistinctIsDisjoint(ia, ib);
    var distinct := DistinctIndices(a, b, hashLen);
    if !distinct { return false, row; }
    MergedFor(pz, a, b, ia, ib, l);
    row := Merge(a, b, hashLen, pz.cb);
    ok := true;
  }

  /** The rows X stand for the given indices, grouped into valid trees of depth l. */
  ghost predicate AtLevel(pz: Puzzle, X: seq<Row>, blocks: seq<seq<nat>>, idx: seq<nat>, l: nat)
  {
    && |idx| == Pow2(pz.k) && Flatten(blocks) == idx
    && l <= pz.k && |X| == Pow2(pz.k - l) && RowsOf(pz, X, blocks, l)
  }

  /** The level-by-level loop over the rows of 2^k indices. */
  method CheckTree(pz: Puzzle, rows: seq<Row>, ghost idx: seq<nat>) returns (ok: bool)
    requires GoodPuzzle(pz) && |idx| == Pow2(pz.k) == |rows| && Index32(idx)
    requires forall i :: 0 <= i < |idx| ==> rows[i] == RowOf(pz, [idx[i]], 0)
    ensures ok <==> TreeValid(pz, idx, pz.k) && AllZero(TreeHash(pz, idx, pz.k))
  {
    hide GoodPuzzle, AtLevel, TreeValid, TreeHash, HashLen, Singletons, PairBlocks;
    var X := rows;
    var hashLen := HashLen(pz, 0);
    ghost var blocks := Singletons(idx);
    ghost var l := 0;
    SingletonRows(pz, rows, idx);
    StartLevel(pz, rows, idx);
    while |X| > 1
      invariant hashLen == HashLen(pz, l) && AtLevel(pz, X, blocks, idx, l)
      decreases pz.k - l
    {
      var good, Xc := NextLevel(pz, X, hashLen, blocks, idx, l);
      if !good {
        return false;
      }
      HashLenStep(pz, l);
      X, blocks := Xc, PairBlocks(blocks);
      hashLen := hashLen - pz.cb;
      l := l + 1;
    }
    TopLevel(pz, X, blocks, idx, l);
    ok := IsZero(X[0], hashLen);
  }

  lemma StartLevel(pz: Puzzle, rows: seq<Row>, idx: seq<nat>)
    requires |idx| == Pow2(pz.k) == |rows| && RowsOf(pz, rows, Singletons(idx), 0) && Flatten(Singletons(idx)) == idx
    ensures AtLevel(pz, rows, Singletons(idx), idx, 0)
  {
    hide TreeValid, TreeHash, Singletons, Flatten, Pow2;
  }

  method NextLevel(pz: Puzzle, X: seq<Row>, hashLen: nat,
                   ghost blocks: seq<seq<nat>>, ghost idx: seq<nat>, ghost l: nat)
    returns (ok: bool, Xc: seq<Row>)
    requires GoodPuzzle(pz) && AtLevel(pz, X, blocks, idx, l) && hashLen == HashLen(pz, l) && |X| > 1
    ensures l < pz.k
    ensures ok ==> AtLevel(pz, Xc, PairBlocks(blocks), idx, l + 1)
    ensures !ok ==> !TreeValid(pz, idx, pz.k)
  {
    hide GoodPuzzle, RowFor, TreeValid, TreeHash, HashLen, PairBlocks, Flatten, JoinValid, Pow2;
    ghost var m := HalfOf(pz.k, l);
    ok, Xc := CheckLevel(pz, X, hashLen, blocks, l, m);
    if ok {
      PairBlocksFlatten(blocks, m);
    } else {
      RejectLevel(pz, X, blocks, idx, l);
    }
  }

  lemma HalfOf(k: nat, l: nat) returns (m: nat)
    requires l <= k && Pow2(k - l) > 1
    ensures l < k && m == Pow2(k - (l + 1)) && Pow2(k - l) == 2 * m
  {
    m := Pow2(k - l - 1);
  }

  function Singletons(idx: seq<nat>): (r: seq<seq<nat>>)
    ensures |r| == |idx|
  {
    if idx == [] then [] else [[idx[0]]] + Singletons(idx[1..])
  }

  lemma {:induction false} SingletonsFlatten(idx: seq<nat>)
    ensures Flatten(Singletons(idx)) == idx
    ensures forall i :: 0 <= i < |idx| ==> Singletons(idx)[i] == [idx[i]]
  {
    if idx == [] {
    } else {
      SingletonsFlatten(idx[1..]);
      assert Singletons(idx)[1..] == Singletons(idx[1..]);
      forall i | 0 <= i < |idx| ensures Singletons(idx)[i] == [idx[i]] {
        if i > 0 { assert Singletons(idx)[i] == Singletons(idx[1..])[i - 1]; }
      }
    }
  }

  lemma SingletonRows(pz: Puzzle, rows: seq<Row>, idx: seq<nat>)
    requires |rows| == |idx| && Index32(idx)
    requires forall i :: 0 <= i < |idx| ==> rows[i] == RowOf(pz, [idx[i]], 0)
    ensures RowsOf(pz, rows, Singletons(idx), 0) && Flatten(Singletons(idx)) == idx
  {
    SingletonsFlatten(idx);
    forall i | 0 <= i < |idx| ensures RowFor(pz, rows[i], Singletons(idx)[i], 0) {
      assert Singletons(idx)[i] == [idx[i]];
    }
  }

  lemma RejectLevel(pz: Puzzle, X: seq<Row>, blocks: seq<seq<nat>>, idx: seq<nat>, l: nat)
    requires AtLevel(pz, X, blocks, idx, l) && l < pz.k
    requires exists i: nat :: 2 * i + 1 < |blocks| && !JoinValid(pz, blocks[2 * i], blocks[2 * i + 1], l)
    ensures !TreeValid(pz, idx, pz.k)
  {
    hide TreeValid, TreeHash, Flatten, JoinValid, Pow2;
    var i: nat :| 2 * i + 1 < |blocks| && !JoinValid(pz, blocks[2 * i], blocks[2 * i + 1], l);
    if TreeValid(pz, idx, pz.k) {
      RowLengths(pz, X, blocks, l);
      SubtreesValid(pz, blocks, pz.k, l, i);
    }
  }

  lemma RowLengths(pz: Puzzle, X: seq<Row>, blocks: seq<seq<nat>>, l: nat)
    requires RowsOf(pz, X, blocks, l)
    ensures AllOfLength(blocks, Pow2(l))
  {
    hide TreeValid, TreeHash, RowOf, Pow2;
    forall i | 0 <= i < |blocks| ensures |blocks[i]| == Pow2(l) {
      assert RowFor(pz, X[i], blocks[i], l);
    }
  }

  lemma TopLevel(pz: Puzzle, X: seq<Row>, blocks: seq<seq<nat>>, idx: seq<nat>, l: nat)
    requires GoodPuzzle(pz) && AtLevel(pz, X, blocks, idx, l) && |X| <= 1
    ensures l == pz.k && |X| == 1 && TreeValid(pz, idx, pz.k) && HashLen(pz, l) <= |X[0]|
    ensures X[0][..HashLen(pz, l)] == TreeHash(pz, idx, pz.k)
  {
    AtTop(pz.k, l);
    hide TreeValid, TreeHash, Flatten, HashLen;
    OneBlock(blocks);
    assert RowFor(pz, X[0], blocks[0], l);
    RowParts(pz, idx, l);
  }

  lemma AtTop(k: nat, l: nat)
    requires l <= k && Pow2(k - l) <= 1
    ensures l == k
  {
  }
}
