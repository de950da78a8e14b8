/** One collision round of the basic solver, on any sorted table of rows. */
module EquihashSolve {
  import opened Prelude
  import opened EquihashTree
  import opened EquihashVerify

  // ---------------------------------------------------------------- tables

  /** Rows of len hash bytes followed by w index bytes. */
  predicate Table(X: seq<Row>, len: nat, w: nat) { forall i :: 0 <= i < |X| ==> |X[i]| == len + w }

  /** Sorted by the first c bytes. */
  predicate Sorted(X: seq<Row>, c: nat)
  {
    forall i, j :: 0 <= i < j < |X| ==> !LexLess(Take(X[j], c), Take(X[i], c))
  }

  /** Two rows that collide on cb bytes and share no index. */
  predicate Mergeable(a: Row, b: Row, len: nat, cb: nat)
  {
    Take(a, cb) == Take(b, cb) && DistinctGroups(Drop(a, len), Drop(b, len))
  }

  function MergeOf(a: Row, b: Row, len: nat, cb: nat): Row
  {
    if cb <= len <= |a| && len <= |b| then Merged(a, b, len, cb) else []
  }

  /** Merges of row a with the rows after it and before b. */
  function RowMerges(X: seq<Row>, a: nat, b: nat, len: nat, cb: nat): multiset<Row>
    requires a < |X| && b <= |X|
  {
    if b <= a + 1 then multiset{}
    else RowMerges(X, a, b - 1, len, cb)
         + (if Mergeable(X[a], X[b - 1], len, cb) then multiset{MergeOf(X[a], X[b - 1], len, cb)} else multiset{})
  }

  /** Merges of each of the first n rows with every row after it. */
  function TableMerges(X: seq<Row>, n: nat, len: nat, cb: nat): multiset<Row>
    requires n <= |X|
  {
    if n == 0 then multiset{} else TableMerges(X, n - 1, len, cb) + RowMerges(X, n - 1, |X|, len, cb)
  }

  predicate MergePair(X: seq<Row>, i: nat, j: nat, len: nat, cb: nat, row: Row)
  {
    i < j < |X| && Mergeable(X[i], X[j], len, cb) && row == MergeOf(X[i], X[j], len, cb)
  }

  lemma NoMerges(X: seq<Row>, a: nat, b: nat, len: nat, cb: nat)
    requires a < |X| && b <= |X| && b <= a + 1
    ensures RowMerges(X, a, b, len, cb) == multiset{}
  {
  }

  lemma OneMoreMerge(X: seq<Row>, a: nat, b: nat, len: nat, cb: nat)
    requires a < b < |X|
    ensures RowMerges(X, a, b + 1, len, cb)
         == RowMerges(X, a, b, len, cb)
            + (if Mergeable(X[a], X[b], len, cb) then multiset{MergeOf(X[a], X[b], len, cb)} else multiset{})
  {
    hide Mergeable, MergeOf;
  }

  lemma LastMerge(X: seq<Row>, a: nat, b: nat, len: nat, cb: nat, row: Row)
    requires a + 1 < b <= |X|
    ensures row in RowMerges(X, a, b, len, cb)
       <==> row in RowMerges(X, a, b - 1, len, cb) || MergePair(X, a, b - 1, len, cb, row)
  {
    hide Mergeable, MergeOf;
  }

  lemma {:induction false} RowMergesMember(X: seq<Row>, a: nat, b: nat, len: nat, cb: nat, row: Row)
    requires a < |X| && b <= |X|
    ensures row in RowMerges(X, a, b, len, cb) <==> exists j: nat :: j < b && MergePair(X, a, j, len, cb, row)
  {
    hide Mergeable, MergeOf, RowMerges;
    if b <= a + 1 {
      NoMerges(X, a, b, len, cb);
    } else {
      RowMergesMember(X, a, b - 1, len, cb, row);
      LastMerge(X, a, b, len, cb, row);
    }
  }

  /** A row is among the merges exactly when two mergeable rows produce it. */
  lemma {:induction false} TableMergesMember(X: seq<Row>, n: nat, len: nat, cb: nat, row: Row)
    requires n <= |X|
    ensures row in TableMerges(X, n, len, cb)
       <==> exists i: nat, j: nat :: i < n && MergePair(X, i, j, len, cb, row)
  {
    hide MergePair, RowMerges;
    if n == 0 {
    } else {
      TableMergesMember(X, n - 1, len, cb, row);
      RowMergesMember(X, n - 1, |X|, len, cb, row);
      MergePairBound(X, n - 1, len, cb, row);
      assert row in TableMerges(X, n, len, cb)
        <==> row in TableMerges(X, n - 1, len, cb) || row in RowMerges(X, n - 1, |X|, len, cb);
    }
  }

  lemma MergePairBound(X: seq<Row>, i: nat, len: nat, cb: nat, row: Row)
    ensures forall j: nat :: MergePair(X, i, j, len, cb, row) ==> j < |X|
  {
  }

  // ---------------------------------------------------------------- rows that occur once

  /** No row occurs twice. */
  ghost predicate Once(X: seq<Row>) { forall row :: row in multiset(X) ==> multiset(X)[row] == 1 }

  lemma SameIndex(X: seq<Row>, i: nat, j: nat)
    requires Once(X) && i < |X| && j < |X| && X[i] == X[j]
    ensures i == j
  {
    if i < j { Twice(X, i, j); } else if j < i { Twice(X, j, i); }
  }

  lemma Twice(X: seq<Row>, i: nat, j: nat)
    requires i < j < |X| && X[i] == X[j]
    ensures X[i] in multiset(X) && multiset(X)[X[i]] >= 2
  {
    assert X == X[..j] + [X[j]] + X[j + 1..];
    assert X[..j][i] == X[i];
    assert X[i] in multiset(X[..j]);
  }

  lemma {:induction false} DistinctOnce(X: seq<Row>)
    requires forall i, j :: 0 <= i < j < |X| ==> X[i] != X[j]
    ensures Once(X)
  {
    if X == [] {
    } else {
      var n := |X| - 1;
      DistinctOnce(X[..n]);
      assert X == X[..n] + [X[n]];
      assert X[n] !in X[..n];
    }
  }

  /** The row is made by one pair at most. */
  ghost predicate OnePair(X: seq<Row>, len: nat, cb: nat, row: Row)
  {
    forall i: nat, j: nat, i': nat, j': nat ::
      MergePair(X, i, j, len, cb, row) && MergePair(X, i', j', len, cb, row) ==> i == i' && j == j'
  }

  lemma {:induction false} RowMergesOnce(X: seq<Row>, a: nat, b: nat, len: nat, cb: nat, row: Row)
    requires a < |X| && b <= |X| && OnePair(X, len, cb, row)
    ensures RowMerges(X, a, b, len, cb)[row] <= 1
    decreases b
  {
    hide Mergeable, MergeOf, RowMerges;
    if b <= a + 1 {
      NoMerges(X, a, b, len, cb);
    } else {
      OneMoreMerge(X, a, b - 1, len, cb);
      RowMergesOnce(X, a, b - 1, len, cb, row);
      if MergePair(X, a, b - 1, len, cb, row) { RowMergesMember(X, a, b - 1, len, cb, row); }
    }
  }

  lemma {:induction false} TableMergesOnce(X: seq<Row>, n: nat, len: nat, cb: nat, row: Row)
    requires n <= |X| && OnePair(X, len, cb, row)
    ensures TableMerges(X, n, len, cb)[row] <= 1
  {
    hide MergePair, RowMerges;
    if n == 0 {
    } else {
      TableMergesOnce(X, n - 1, len, cb, row);
      RowMergesOnce(X, n - 1, |X|, len, cb, row);
      TableMergesMember(X, n - 1, len, cb, row);
      RowMergesMember(X, n - 1, |X|, len, cb, row);
    }
  }

  // ---------------------------------------------------------------- sorting

  /** Stands for std::sort: any stable or unstable order by the first c bytes. */
  method SortRows(X: seq<Row>, c: nat) returns (Y: seq<Row>)
    ensures multiset(Y) == multiset(X) && Sorted(Y, c)
  {
    hide LexLess;
    Y := [];
    for i := 0 to |X|
      invariant multiset(Y) == multiset(X[..i]) && Sorted(Y, c)
    {
      assert X[..i + 1] == X[..i] + [X[i]];
      Y := InsertRow(Y, X[i], c);
    }
    assert X[..|X|] == X;
  }

  method InsertRow(Y: seq<Row>, row: Row, c: nat) returns (Z: seq<Row>)
    requires Sorted(Y, c)
    ensures multiset(Z) == multiset(Y) + multiset{row} && Sorted(Z, c)
  {
    hide LexLess;
    var k := 0;
    while k < |Y| && !LexLess(Take(row, c), Take(Y[k], c))
      invariant 0 <= k <= |Y|
      invariant forall i :: 0 <= i < k ==> !LexLess(Take(row, c), Take(Y[i], c))
    {
      k := k + 1;
    }
    Z := Y[..k] + [row] + Y[k..];
    assert Y == Y[..k] + Y[k..];
    InsertedSorted(Y, row, k, c);
  }

  lemma InsertedSorted(Y: seq<Row>, row: Row, k: nat, c: nat)
    requires Sorted(Y, c) && k <= |Y|
    requires forall i :: 0 <= i < k ==> !LexLess(Take(row, c), Take(Y[i], c))
    requires k < |Y| ==> LexLess(Take(row, c), Take(Y[k], c))
    ensures Sorted(Y[..k] + [row] + Y[k..], c)
  {
    hide LexLess, Take;
    var Z := Y[..k] + [row] + Y[k..];
    forall i, j | 0 <= i < j < |Z| ensures !LexLess(Take(Z[j], c), Take(Z[i], c)) {
      if i == k {
        var y := Y[j - 1];
        assert Z[i] == row && Z[j] == y;
        LexAsymmetric(Take(row, c), Take(y, c));
        if LexLess(Take(y, c), Take(row, c)) { LexTransitive(Take(y, c), Take(row, c), Take(Y[k], c)); }
      } else if j == k {
        assert Z[j] == row && Z[i] == Y[i];
      } else {
        assert Z[i] == Y[if i < k then i else i - 1] && Z[j] == Y[if j < k then j else j - 1];
      }
    }
  }

  lemma {:induction false} LexTransitive(a: seq<byte>, b: seq<byte>, c: seq<byte>)
    requires LexLess(a, b) && LexLess(b, c)
    ensures LexLess(a, c)
  {
    if a[0] == b[0] == c[0] { LexTransitive(a[1..], b[1..], c[1..]); }
  }

  lemma {:induction false} LexAsymmetric(a: seq<byte>, b: seq<byte>)
    ensures !(LexLess(a, b) && LexLess(b, a))
  {
    if a != [] && b != [] { LexAsymmetric(a[1..], b[1..]); }
  }

  // ---------------------------------------------------------------- groups of colliding rows

  /** Rows i to i+j-1 agree on c bytes and no later row agrees with them. */
  predicate GroupAt(X: seq<Row>, i: nat, j: nat, c: nat)
  {
    && 1 <= j && i + j <= |X|
    && (forall k :: i <= k < i + j ==> Take(X[k], c) == Take(X[i], c))
    && (i + j < |X| ==> Take(X[i + j], c) != Take(X[i], c))
  }

  /** In a sorted table nothing after the end of a group collides with it. */
  lemma GroupSeparated(X: seq<Row>, i: nat, j: nat, c: nat, a: nat, b: nat)
    requires Sorted(X, c) && GroupAt(X, i, j, c) && i <= a < i + j <= b < |X|
    requires forall k :: 0 <= k < |X| ==> |Take(X[k], c)| == c
    ensures Take(X[a], c) != Take(X[b], c)
  {
    hide LexLess, Take;
    var m := i + j;
    LexTotal(Take(X[i], c), Take(X[m], c));
    if m < b {
      LexTotal(Take(X[m], c), Take(X[b], c));
    }
  }

  lemma {:induction false} NoMergesBeyond(X: seq<Row>, i: nat, j: nat, a: nat, b: nat, len: nat, cb: nat)
    requires Sorted(X, cb) && GroupAt(X, i, j, cb) && i <= a < i + j <= b <= |X|
    requires forall k :: 0 <= k < |X| ==> |Take(X[k], cb)| == cb
    ensures RowMerges(X, a, b, len, cb) == RowMerges(X, a, i + j, len, cb)
    decreases b
  {
    hide Sorted, LexLess, Take, MergeOf, DistinctGroups, RowMerges;
    if b > i + j {
      NoMergesBeyond(X, i, j, a, b - 1, len, cb);
      GroupSeparated(X, i, j, cb, a, b - 1);
      SkipRow(X, a, b, len, cb);
    }
  }

  lemma SkipRow(X: seq<Row>, a: nat, b: nat, len: nat, cb: nat)
    requires a + 1 < b <= |X| && !Mergeable(X[a], X[b - 1], len, cb)
    ensures RowMerges(X, a, b, len, cb) == RowMerges(X, a, b - 1, len, cb)
  {
    hide Mergeable, MergeOf;
  }

  /** From row i on, the table still is as it was when the round began. */
  predicate Unread(X: seq<Row>, was: seq<Row>, i: nat)
  {
    |X| == |was| && forall k :: i <= k < |X| ==> X[k] == was[k]
  }

  /** The loop that finds the end of the group starting at row i. */
  method FindGroup(X: seq<Row>, ghost was: seq<Row>, i: nat, c: nat) returns (j: nat)
    requires i < |X| && Unread(X, was, i) && forall k :: 0 <= k < |was| ==> c <= |was[k]|
    ensures GroupAt(was, i, j, c)
  {
    j := 1;
    while i + j < |X|
      invariant 1 <= j && i + j <= |X|
      invariant forall k :: i <= k < i + j ==> Take(was[k], c) == Take(was[i], c)
    {
      var same := HasCollision(X[i], X[i + j], c);
      if !same { return; }
      j := j + 1;
    }
  }

  /** The double loop over the pairs of a group. */
  method MergeGroup(X: seq<Row>, ghost was: seq<Row>, i: nat, j: nat, len: nat, w: nat, cb: nat, Xc: seq<Row>)
    returns (Xc': seq<Row>)
    requires Unread(X, was, i) && Table(was, len, w) && Sorted(was, cb) && GroupAt(was, i, j, cb) && cb <= len
    ensures multiset(Xc') + TableMerges(was, i, len, cb) == multiset(Xc) + TableMerges(was, i + j, len, cb)
  {
    hide Sorted, LexLess, RowMerges, DistinctGroups, Take, Drop, MergeOf;
    Xc' := Xc;
    for l := 0 to j - 1
      invariant multiset(Xc') + TableMerges(was, i, len, cb) == multiset(Xc) + TableMerges(was, i + l, len, cb)
    {
      ghost var before := multiset(Xc');
      Xc' := MergeRow(X, was, i, j, i + l, len, w, cb, Xc');
      AddBoth(before, TableMerges(was, i, len, cb), multiset(Xc), TableMerges(was, i + l, len, cb),
              RowMerges(was, i + l, |was|, len, cb));
      TableMergesStep(was, i + l + 1, len, cb);
    }
    LastOfGroup(was, i, j, len, w, cb);
    TableMergesStep(was, i + j, len, cb);
  }

  lemma AddBoth<T>(a: multiset<T>, b: multiset<T>, c: multiset<T>, d: multiset<T>, e: multiset<T>)
    requires a + b == c + d
    ensures (a + e) + b == c + (d + e)
  {
    assert forall x :: ((a + e) + b)[x] == (a + b)[x] + e[x];
    assert forall x :: (c + (d + e))[x] == (c + d)[x] + e[x];
  }

  lemma TableMergesStep(X: seq<Row>, n: nat, len: nat, cb: nat)
    requires 1 <= n <= |X|
    ensures TableMerges(X, n, len, cb) == TableMerges(X, n - 1, len, cb) + RowMerges(X, n - 1, |X|, len, cb)
  {
    hide RowMerges;
  }

  lemma LastOfGroup(X: seq<Row>, i: nat, j: nat, len: nat, w: nat, cb: nat)
    requires Table(X, len, w) && Sorted(X, cb) && GroupAt(X, i, j, cb) && cb <= len
    ensures RowMerges(X, i + j - 1, |X|, len, cb) == multiset{}
  {
    hide Sorted, Mergeable, MergeOf;
    NoMergesBeyond(X, i, j, i + j - 1, |X|, len, cb);
  }

  method MergePairInto(a: Row, b: Row, len: nat, w: nat, cb: nat, Xc: seq<Row>) returns (Xc': seq<Row>)
    requires |a| == |b| == len + w && cb <= len && Take(a, cb) == Take(b, cb)
    ensures multiset(Xc') == multiset(Xc) +
              (if Mergeable(a, b, len, cb) then multiset{MergeOf(a, b, len, cb)} else multiset{})
  {
    hide DistinctGroups, Merged;
    Xc' := Xc;
    var distinct := DistinctIndices(a, b, len);
    if distinct {
      var row := Merge(a, b, len, cb);
      Xc' := Xc' + [row];
    }
  }

  /** The inner loop: merges of row a with the later rows of its group. */
  method MergeRow(X: seq<Row>, ghost was: seq<Row>, i: nat, j: nat, a: nat, len: nat, w: nat, cb: nat, Xc: seq<Row>)
    returns (Xc': seq<Row>)
    requires Unread(X, was, i) && Table(was, len, w) && Sorted(was, cb) && GroupAt(was, i, j, cb) && cb <= len
    requires i <= a < i + j
    ensures multiset(Xc') == multiset(Xc) + RowMerges(was, a, |was|, len, cb)
  {
    hide Sorted, Mergeable, MergeOf, RowMerges, Take;
    Xc' := Xc;
    NoMerges(was, a, a + 1, len, cb);
    for b := a + 1 to i + j
      invariant multiset(Xc') == multiset(Xc) + RowMerges(was, a, b, len, cb)
    {
      OneMoreMerge(was, a, b, len, cb);
      Xc' := MergePairInto(X[a], X[b], len, w, cb, Xc');
    }
    TakeLengths(was, len, w, cb);
    NoMergesBeyond(was, i, j, a, |was|, len, cb);
  }

  lemma TakeLengths(X: seq<Row>, len: nat, w: nat, c: nat)
    requires Table(X, len, w) && c <= len
    ensures forall k :: 0 <= k < |X| ==> |Take(X[k], c)| == c
  {
  }

  // ---------------------------------------------------------------- the round

  /** Store pending rows into the free prefix, below the limit, taking them from the back. */
  method StoreFree(X: seq<Row>, posFree: nat, limit: nat, Xc: seq<Row>)
    returns (X': seq<Row>, posFree': nat, Xc': seq<Row>)
    requires posFree <= limit <= |X|
    ensures posFree <= posFree' <= limit && Unread(X', X, limit)
    ensures multiset(X'[..posFree']) + multiset(Xc') == multiset(X[..posFree]) + multiset(Xc)
    ensures posFree' == limit || Xc' == []
  {
    X', posFree', Xc' := X, posFree, Xc;
    while posFree' < limit && |Xc'| > 0
      invariant posFree <= posFree' <= limit && Unread(X', X, limit)
      invariant multiset(X'[..posFree']) + multiset(Xc') == multiset(X[..posFree]) + multiset(Xc)
      decreases |Xc'|
    {
      var row := Xc'[|Xc'| - 1];
      assert X'[posFree' := row][..posFree' + 1] == X'[..posFree'] + [row];
      assert Xc' == Xc'[..|Xc'| - 1] + [row];
      X' := X'[posFree' := row];
      posFree' := posFree' + 1;
      Xc' := Xc'[..|Xc'| - 1];
    }
  }

  /** What the round keeps: unread rows are untouched and every merge so far is stored or pending. */
  ghost predicate Rounding(X: seq<Row>, was: seq<Row>, i: nat, posFree: nat, Xc: seq<Row>, len: nat, cb: nat)
  {
    && posFree <= i <= |X| && Unread(X, was, i)
    && multiset(X[..posFree]) + multiset(Xc) == TableMerges(was, i, len, cb)
  }

  /**
   * One round over a sorted table: replaces the rows in place by exactly the merges of all
   * pairs that collide and share no index.
   */
  method CollideRound(table: seq<Row>, len: nat, w: nat, cb: nat) returns (X: seq<Row>)
    requires table != [] && Table(table, len, w) && Sorted(table, cb) && cb <= len
    ensures multiset(X) == TableMerges(table, |table|, len, cb)
  {
    hide Sorted, Table, TableMerges;
    X := table;
    var i: nat, posFree: nat := 0, 0;
    var Xc: seq<Row> := [];
    RoundStart(table, len, cb);
    while i < |X| - 1
      invariant Rounding(X, table, i, posFree, Xc, len, cb)
      decreases |X| - i
    {
      X, i, posFree, Xc := CollideGroup(X, table, i, posFree, Xc, len, w, cb);
    }
    RoundLast(X, table, i, posFree, Xc, len, cb);
    // The final table entry may have no collision of its own.
    X, posFree, Xc := StoreFree(X, posFree, |X|, Xc);
    if |Xc| > 0 {
      assert X[..posFree] == X;
      X := X + Xc;
    } else if posFree < |X| {
      X := X[..posFree];
    } else {
      assert X[..posFree] == X;
    }
  }

  lemma RoundStart(table: seq<Row>, len: nat, cb: nat)
    ensures Rounding(table, table, 0, 0, [], len, cb)
  {
  }

  lemma RoundLast(X: seq<Row>, was: seq<Row>, i: nat, posFree: nat, Xc: seq<Row>, len: nat, cb: nat)
    requires Rounding(X, was, i, posFree, Xc, len, cb) && i >= |X| - 1 && X != []
    ensures multiset(X[..posFree]) + multiset(Xc) == TableMerges(was, |was|, len, cb)
  {
    hide Mergeable, MergeOf;
    if i == |X| - 1 { TableMergesStep(was, |was|, len, cb); }
  }

  /** One group: find it, merge its pairs, store what fits. */
  method CollideGroup(X: seq<Row>, ghost was: seq<Row>, i: nat, posFree: nat, Xc: seq<Row>, len: nat, w: nat, cb: nat)
    returns (X': seq<Row>, i': nat, posFree': nat, Xc': seq<Row>)
    requires Table(was, len, w) && Sorted(was, cb) && cb <= len && i < |X|
    requires Rounding(X, was, i, posFree, Xc, len, cb)
    ensures Rounding(X', was, i', posFree', Xc', len, cb) && i < i' && |X'| == |X|
  {
    hide TableMerges, Sorted;
    var j := FindGroup(X, was, i, cb);
    Xc' := MergeGroup(X, was, i, j, len, w, cb, Xc);
    ghost var pending := multiset(Xc');
    i' := i + j;
    X', posFree', Xc' := StoreFree(X, posFree, i', Xc');
    Cancel(multiset(X[..posFree]), pending, TableMerges(was, i, len, cb), multiset(Xc), TableMerges(was, i', len, cb));
  }

  lemma Cancel<T>(s: multiset<T>, p: multiset<T>, t: multiset<T>, q: multiset<T>, u: multiset<T>)
    requires p + t == q + u && s + q == t
    ensures s + p == u
  {
    assert forall x :: p[x] + t[x] == (p + t)[x] == q[x] + u[x];
    assert forall x :: s[x] + q[x] == (s + q)[x] == t[x];
  }

  // ---------------------------------------------------------------- tables of trees

  predicate Below(idx: seq<nat>, bound: nat) { forall i :: 0 <= i < |idx| ==> idx[i] < bound }

  /** A valid tree of depth l over indices below the bound. */
  ghost predicate IsTree(pz: Puzzle, idx: seq<nat>, l: nat, bound: nat)
  {
    |idx| == Pow2(l) && Below(idx, bound) && TreeValid(pz, idx, l)
  }

  ghost predicate TreeOfRow(pz: Puzzle, row: Row, idx: seq<nat>, l: nat, bound: nat)
  {
    IsTree(pz, idx, l, bound) && row == RowOf(pz, idx, l)
  }

  ghost predicate SomeTree(pz: Puzzle, row: Row, l: nat, bound: nat)
  {
    exists idx :: TreeOfRow(pz, row, idx, l, bound)
  }

  /** The table holds the rows of exactly the valid trees of depth l, each of them once. */
  ghost predicate HoldsTrees(pz: Puzzle, X: seq<Row>, l: nat, bound: nat)
  {
    && Once(X)
    && (forall i :: 0 <= i < |X| ==> SomeTree(pz, X[i], l, bound))
    && (forall idx :: IsTree(pz, idx, l, bound) ==> RowOf(pz, idx, l) in X)
  }

  /** Two index lists joined in the order of their first index. */
  function JoinOf(ia: seq<nat>, ib: seq<nat>): seq<nat>
    requires ia != [] && ib != []
  {
    if ia[0] < ib[0] then ia + ib else ib + ia
  }

  lemma TreeRow(pz: Puzzle, idx: seq<nat>, l: nat, bound: nat)
    requires IsTree(pz, idx, l, bound) && bound <= Pow2(8 * INDEX_BYTES)
    ensures RowFor(pz, RowOf(pz, idx, l), idx, l)
  {
    hide TreeValid, TreeHash, RowOf, Pow2;
  }

  /** What Mergeable means for the rows of two trees. */
  lemma MergeableTrees(pz: Puzzle, ia: seq<nat>, ib: seq<nat>, l: nat, bound: nat)
    requires GoodPuzzle(pz) && l < pz.k && bound <= Pow2(8 * INDEX_BYTES)
    requires IsTree(pz, ia, l, bound) && IsTree(pz, ib, l, bound)
    ensures Mergeable(RowOf(pz, ia, l), RowOf(pz, ib, l), HashLen(pz, l), pz.cb)
       <==> Take(TreeHash(pz, ia, l), pz.cb) == Take(TreeHash(pz, ib, l), pz.cb) && Disjoint(ia, ib)
  {
    hide TreeValid, TreeHash, RowOf, DistinctGroups, Disjoint, HashLen, GoodPuzzle, Pow2, IndexBytes;
    TreeRow(pz, ia, l, bound);
    TreeRow(pz, ib, l, bound);
    RowLayout(pz, RowOf(pz, ia, l), ia, l);
    RowLayout(pz, RowOf(pz, ib, l), ib, l);
    DistinctIsDisjoint(ia, ib);
  }

  /** Merging the rows of two mergeable trees gives the row of their join, a tree one level up. */
  lemma MergeTrees(pz: Puzzle, ia: seq<nat>, ib: seq<nat>, l: nat, bound: nat)
    requires GoodPuzzle(pz) && l < pz.k && bound <= Pow2(8 * INDEX_BYTES)
    requires IsTree(pz, ia, l, bound) && IsTree(pz, ib, l, bound)
    requires Mergeable(RowOf(pz, ia, l), RowOf(pz, ib, l), HashLen(pz, l), pz.cb)
    ensures ia != [] && ib != [] && IsTree(pz, JoinOf(ia, ib), l + 1, bound)
    ensures MergeOf(RowOf(pz, ia, l), RowOf(pz, ib, l), HashLen(pz, l), pz.cb) == RowOf(pz, JoinOf(ia, ib), l + 1)
  {
    hide TreeValid, TreeHash, RowOf, HashLen, GoodPuzzle, Mergeable, Merged, Pow2;
    MergeableTrees(pz, ia, ib, l, bound);
    TreeRow(pz, ia, l, bound);
    TreeRow(pz, ib, l, bound);
    var a, b := RowOf(pz, ia, l), RowOf(pz, ib, l);
    RowLayout(pz, a, ia, l);
    RowLayout(pz, b, ib, l);
    assert ia[0] != ib[0];
    JoinValidIff(pz, ia, ib, l);
    JoinValidIff(pz, ib, ia, l);
    if ia[0] < ib[0] {
      MergedFor(pz, a, b, ia, ib, l);
    } else {
      DisjointSymmetric(ia, ib);
      MergedSymmetric(a, b, HashLen(pz, l), pz.cb);
      MergedFor(pz, b, a, ib, ia, l);
    }
  }

  lemma DisjointSymmetric(ia: seq<nat>, ib: seq<nat>)
    ensures Disjoint(ia, ib) <==> Disjoint(ib, ia)
  {
  }

  /** Disjoint trees have different rows. */
  lemma DistinctRows(pz: Puzzle, ia: seq<nat>, ib: seq<nat>, l: nat, bound: nat)
    requires GoodPuzzle(pz) && l < pz.k && bound <= Pow2(8 * INDEX_BYTES)
    requires IsTree(pz, ia, l, bound) && IsTree(pz, ib, l, bound) && Disjoint(ia, ib)
    ensures RowOf(pz, ia, l) != RowOf(pz, ib, l)
  {
    hide TreeValid, TreeHash, RowOf, HashLen, GoodPuzzle, IndexBytes, Pow2;
    TreeRow(pz, ia, l, bound);
    TreeRow(pz, ib, l, bound);
    RowLayout(pz, RowOf(pz, ia, l), ia, l);
    RowLayout(pz, RowOf(pz, ib, l), ib, l);
    assert ia[0] != ib[0];
    if RowOf(pz, ia, l) == RowOf(pz, ib, l) {
      IndexBytesInjective(ia, ib);
    }
  }

  /** A row determines its index tree. */
  lemma SameTree(pz: Puzzle, ia: seq<nat>, ib: seq<nat>, l: nat, bound: nat)
    requires GoodPuzzle(pz) && l <= pz.k && bound <= Pow2(8 * INDEX_BYTES)
    requires IsTree(pz, ia, l, bound) && IsTree(pz, ib, l, bound) && RowOf(pz, ia, l) == RowOf(pz, ib, l)
    ensures ia == ib
  {
    hide TreeValid, TreeHash, RowOf, HashLen, GoodPuzzle, IndexBytes, Pow2;
    RowParts(pz, ia, l);
    RowParts(pz, ib, l);
    IndexBytesInjective(ia, ib);
  }

  /** A join determines the two lists, up to their order. */
  lemma JoinParts(ia: seq<nat>, ib: seq<nat>, ja: seq<nat>, jb: seq<nat>, l: nat)
    requires |ia| == |ib| == |ja| == |jb| == Pow2(l) && ia != [] && ib != [] && ja != [] && jb != []
    requires JoinOf(ia, ib) == JoinOf(ja, jb)
    ensures (ia == ja && ib == jb) || (ia == jb && ib == ja)
  {
    hide Pow2, LeftHalf, RightHalf;
    Halves(ia, ib, l);
    Halves(ib, ia, l);
    Halves(ja, jb, l);
    Halves(jb, ja, l);
  }

  /** Two pairs of rows with the same join are the same pair. */
  lemma SamePair(pz: Puzzle, X: seq<Row>, i: nat, j: nat, i': nat, j': nat,
                 ia: seq<nat>, ib: seq<nat>, ja: seq<nat>, jb: seq<nat>, l: nat, bound: nat)
    requires Once(X) && i < j < |X| && i' < j' < |X|
    requires TreeOfRow(pz, X[i], ia, l, bound) && TreeOfRow(pz, X[j], ib, l, bound)
    requires TreeOfRow(pz, X[i'], ja, l, bound) && TreeOfRow(pz, X[j'], jb, l, bound)
    requires ia != [] && ib != [] && ja != [] && jb != [] && JoinOf(ia, ib) == JoinOf(ja, jb)
    ensures i == i' && j == j'
  {
    hide TreeValid, TreeHash, RowOf, Below, Pow2, JoinOf, Once;
    JoinParts(ia, ib, ja, jb, l);
    if ia == ja && ib == jb {
      SameIndex(X, i, i');
      SameIndex(X, j, j');
    } else {
      SameIndex(X, i, j');
      SameIndex(X, j, i');
      assert false;
    }
  }

  /** Every row of a round comes from one pair. */
  lemma RoundOnePair(pz: Puzzle, X: seq<Row>, l: nat, bound: nat, row: Row)
    requires GoodPuzzle(pz) && l < pz.k && bound <= Pow2(8 * INDEX_BYTES) && HoldsTrees(pz, X, l, bound)
    ensures OnePair(X, HashLen(pz, l), pz.cb, row)
  {
    hide TreeValid, TreeHash, Below, RowOf, HashLen, GoodPuzzle, Mergeable, MergeOf, Pow2, Once, JoinOf;
    var h := HashLen(pz, l);
    forall i: nat, j: nat, i': nat, j': nat
      | MergePair(X, i, j, h, pz.cb, row) && MergePair(X, i', j', h, pz.cb, row)
      ensures i == i' && j == j'
    {
      var ia :| TreeOfRow(pz, X[i], ia, l, bound);
      var ib :| TreeOfRow(pz, X[j], ib, l, bound);
      var ja :| TreeOfRow(pz, X[i'], ja, l, bound);
      var jb :| TreeOfRow(pz, X[j'], jb, l, bound);
      MergeTrees(pz, ia, ib, l, bound);
      MergeTrees(pz, ja, jb, l, bound);
      SameTree(pz, JoinOf(ia, ib), JoinOf(ja, jb), l + 1, bound);
      SamePair(pz, X, i, j, i', j', ia, ib, ja, jb, l, bound);
    }
  }

  lemma RoundOnce(pz: Puzzle, X: seq<Row>, Y: seq<Row>, l: nat, bound: nat)
    requires GoodPuzzle(pz) && l < pz.k && bound <= Pow2(8 * INDEX_BYTES) && HoldsTrees(pz, X, l, bound)
    requires multiset(Y) == TableMerges(X, |X|, HashLen(pz, l), pz.cb)
    ensures Once(Y)
  {
    hide HoldsTrees, HashLen, GoodPuzzle, TableMerges, OnePair, Pow2;
    forall row | row in multiset(Y) ensures multiset(Y)[row] == 1 {
      RoundOnePair(pz, X, l, bound, row);
      TableMergesOnce(X, |X|, HashLen(pz, l), pz.cb, row);
    }
  }

  /** After a round the table holds exactly the trees one level up. */
  lemma RoundHoldsTrees(pz: Puzzle, X: seq<Row>, Y: seq<Row>, l: nat, bound: nat)
    requires GoodPuzzle(pz) && l < pz.k && bound <= Pow2(8 * INDEX_BYTES)
    requires HoldsTrees(pz, X, l, bound)
    requires multiset(Y) == TableMerges(X, |X|, HashLen(pz, l), pz.cb)
    ensures HoldsTrees(pz, Y, l + 1, bound)
  {
    hide TreeValid, TreeHash, Below, SomeTree, RowOf, HashLen, GoodPuzzle, TableMerges, Once, Pow2;
    var m := l + 1;
    RoundOnce(pz, X, Y, l, bound);
    forall r | 0 <= r < |Y| ensures SomeTree(pz, Y[r], m, bound) {
      assert Y[r] in multiset(Y);
      RoundSound(pz, X, l, bound, Y[r]);
    }
    forall idx | IsTree(pz, idx, m, bound) ensures RowOf(pz, idx, m) in Y {
      RoundComplete(pz, X, l, bound, idx);
      assert RowOf(pz, idx, m) in multiset(Y);
    }
  }

  lemma RoundSound(pz: Puzzle, X: seq<Row>, l: nat, bound: nat, row: Row)
    requires GoodPuzzle(pz) && l < pz.k && bound <= Pow2(8 * INDEX_BYTES) && HoldsTrees(pz, X, l, bound)
    requires row in TableMerges(X, |X|, HashLen(pz, l), pz.cb)
    ensures SomeTree(pz, row, l + 1, bound)
  {
    hide TreeValid, TreeHash, Below, RowOf, HashLen, GoodPuzzle, TableMerges, Mergeable, MergeOf, Once, Pow2;
    TableMergesMember(X, |X|, HashLen(pz, l), pz.cb, row);
    var i: nat, j: nat :| i < |X| && MergePair(X, i, j, HashLen(pz, l), pz.cb, row);
    var ia :| TreeOfRow(pz, X[i], ia, l, bound);
    var ib :| TreeOfRow(pz, X[j], ib, l, bound);
    MergeTrees(pz, ia, ib, l, bound);
    assert TreeOfRow(pz, row, JoinOf(ia, ib), l + 1, bound);
  }

  lemma RoundComplete(pz: Puzzle, X: seq<Row>, l: nat, bound: nat, idx: seq<nat>)
    requires GoodPuzzle(pz) && l < pz.k && bound <= Pow2(8 * INDEX_BYTES) && HoldsTrees(pz, X, l, bound)
    requires IsTree(pz, idx, l + 1, bound)
    ensures RowOf(pz, idx, l + 1) in TableMerges(X, |X|, HashLen(pz, l), pz.cb)
  {
    hide TreeValid, TreeHash, Below, SomeTree, RowOf, HashLen, GoodPuzzle, TableMerges, Mergeable, MergeOf;
    hide LeftHalf, RightHalf, Pow2, Merged, Disjoint, Once;
    var ia, ib := LeftHalf(idx), RightHalf(idx);
    TreeHalves(pz, idx, l, bound);
    MergeableTrees(pz, ia, ib, l, bound);
    MergeTrees(pz, ia, ib, l, bound);
    DistinctRows(pz, ia, ib, l, bound);
    var a, b := RowOf(pz, ia, l), RowOf(pz, ib, l);
    var i: nat :| i < |X| && X[i] == a;
    var j: nat :| j < |X| && X[j] == b;
    MergeSymmetric(pz, ia, ib, l, bound);
    if i < j {
      assert MergePair(X, i, j, HashLen(pz, l), pz.cb, RowOf(pz, idx, l + 1));
    } else {
      assert MergePair(X, j, i, HashLen(pz, l), pz.cb, RowOf(pz, idx, l + 1));
    }
    TableMergesMember(X, |X|, HashLen(pz, l), pz.cb, RowOf(pz, idx, l + 1));
  }

  lemma TreeHalves(pz: Puzzle, idx: seq<nat>, l: nat, bound: nat)
    requires IsTree(pz, idx, l + 1, bound)
    ensures var ia, ib := LeftHalf(idx), RightHalf(idx);
            && IsTree(pz, ia, l, bound) && IsTree(pz, ib, l, bound)
            && Take(TreeHash(pz, ia, l), pz.cb) == Take(TreeHash(pz, ib, l), pz.cb) && Disjoint(ia, ib)
            && |ia| >= 1 && |ib| >= 1 && JoinOf(ia, ib) == idx
  {
    hide TreeValid, TreeHash;
    ValidHalves(pz, idx, l + 1);
    JoinHalves(idx);
  }

  lemma MergeSymmetric(pz: Puzzle, ia: seq<nat>, ib: seq<nat>, l: nat, bound: nat)
    requires GoodPuzzle(pz) && l < pz.k && bound <= Pow2(8 * INDEX_BYTES)
    requires IsTree(pz, ia, l, bound) && IsTree(pz, ib, l, bound)
    ensures var a, b, h := RowOf(pz, ia, l), RowOf(pz, ib, l), HashLen(pz, l);
            && MergeOf(a, b, h, pz.cb) == MergeOf(b, a, h, pz.cb)
            && (Mergeable(a, b, h, pz.cb) <==> Mergeable(b, a, h, pz.cb))
  {
    hide TreeValid, TreeHash, RowOf, HashLen, GoodPuzzle, Merged, Mergeable, Pow2;
    MergeableTrees(pz, ia, ib, l, bound);
    MergeableTrees(pz, ib, ia, l, bound);
    DisjointSymmetric(ia, ib);
    TreeRow(pz, ia, l, bound);
    TreeRow(pz, ib, l, bound);
    RowLayout(pz, RowOf(pz, ia, l), ia, l);
    RowLayout(pz, RowOf(pz, ib, l), ib, l);
    MergedSymmetric(RowOf(pz, ia, l), RowOf(pz, ib, l), HashLen(pz, l), pz.cb);
  }
}
