/**
 * The note commitment tree as mathematics: the full padded binary tree, the collapsed
 * frontier that represents it, and the laws relating the two.
 */
module MerkleSpec {
  import opened Prelude

  /** A hash type: its default value `Hash()` and the compression function `combine`. */
  datatype HashFn<!H> = HashFn(zero: H, combine: (H, H) -> H)

  // ---------------------------------------------------------------- the naive tree

  /** Root of an empty subtree of depth d. */
  function EmptyRoot<H>(hf: HashFn<H>, d: nat): H
  {
    if d == 0 then hf.zero
    else hf.combine(EmptyRoot(hf, d - 1), EmptyRoot(hf, d - 1))
  }

  /** Root of the full binary tree of depth d over `leaves`, padded on the right with `Hash()`. */
  function NodeRoot<H>(hf: HashFn<H>, d: nat, leaves: seq<H>): H
    requires |leaves| <= Pow2(d)
  {
    if d == 0 then (if leaves == [] then hf.zero else leaves[0])
    else
      var half := Min(Pow2(d - 1), |leaves|);
      hf.combine(NodeRoot(hf, d - 1, leaves[..half]), NodeRoot(hf, d - 1, leaves[half..]))
  }

  lemma {:induction false} NodeRootEmpty<H>(hf: HashFn<H>, d: nat)
    ensures NodeRoot(hf, d, []) == EmptyRoot(hf, d)
  {
    if d == 0 {
    } else {
      NodeRootEmpty(hf, d - 1);
      var none: seq<H> := [];
      assert none[..0] == none && none[0..] == none;
    }
  }

  // ---------------------------------------------------------------- the frontier

  /** The collapsed tree: the last pair of leaves and the completed left subtrees above it. */
  datatype Frontier<H> = Frontier(left: Option<H>, right: Option<H>, parents: seq<Option<H>>)

  function EmptyFrontier<H>(): Frontier<H> { Frontier(None, None, []) }

  function Head<H>(ps: seq<Option<H>>): Option<H> { if ps == [] then None else ps[0] }

  function Tail<H>(ps: seq<Option<H>>): seq<Option<H>> { if ps == [] then [] else ps[1..] }

  /** The canonical-form conditions that deserialization enforces. */
  predicate Canonical<H>(t: Frontier<H>, depth: nat)
  {
    && |t.parents| < depth
    && (t.parents == [] || t.parents[|t.parents| - 1].Some?)
    && (t.right.Some? ==> t.left.Some?)
    && (t.parents != [] ==> t.left.Some?)
  }

  /** Leaves under the completed subtrees ps, whose first entry sits at level d. */
  function Count<H>(ps: seq<Option<H>>, d: nat): nat
  {
    if ps == [] then 0
    else (if ps[0].Some? then Pow2(d) else 0) + Count(ps[1..], d + 1)
  }

  /** Number of leaves represented by a frontier. */
  function Size<H>(t: Frontier<H>): nat
  {
    (if t.left.Some? then 1 else 0) + (if t.right.Some? then 1 else 0) + Count(t.parents, 1)
  }

  predicate AllSome<H>(ps: seq<Option<H>>) { forall i :: 0 <= i < |ps| ==> ps[i].Some? }

  predicate Complete<H>(t: Frontier<H>, d: int)
  {
    t.left.Some? && t.right.Some? && |t.parents| == d - 1 && AllSome(t.parents)
  }

  /** Propagate a completed subtree up the binary counter of parents. */
  function CarryIn<H>(hf: HashFn<H>, ps: seq<Option<H>>, c: H): seq<Option<H>>
  {
    if ps == [] then [Some(c)]
    else if ps[0].None? then [Some(c)] + ps[1..]
    else [None] + CarryIn(hf, ps[1..], hf.combine(ps[0].value, c))
  }

  function Appended<H>(hf: HashFn<H>, t: Frontier<H>, x: H): Frontier<H>
  {
    if t.left.None? then t.(left := Some(x))
    else if t.right.None? then t.(right := Some(x))
    else Frontier(Some(x), None, CarryIn(hf, t.parents, hf.combine(t.left.value, t.right.value)))
  }

  function AppendAll<H>(hf: HashFn<H>, t: Frontier<H>, xs: seq<H>): Frontier<H>
    decreases |xs|
  {
    if xs == [] then t else AppendAll(hf, Appended(hf, t, xs[0]), xs[1..])
  }

  lemma {:induction false} AppendAllSnoc<H>(hf: HashFn<H>, t: Frontier<H>, xs: seq<H>, x: H)
    ensures AppendAll(hf, t, xs + [x]) == Appended(hf, AppendAll(hf, t, xs), x)
    decreases |xs|
  {
    if xs == [] {
      assert [x][1..] == [];
    } else {
      assert (xs + [x])[1..] == xs[1..] + [x];
      AppendAllSnoc(hf, Appended(hf, t, xs[0]), xs[1..], x);
    }
  }

  // ---------------------------------------------------------------- size and canonical form

  lemma {:induction false} CountCarryIn<H>(hf: HashFn<H>, ps: seq<Option<H>>, c: H, d: nat)
    ensures Count(CarryIn(hf, ps, c), d) == Count(ps, d) + Pow2(d)
    decreases |ps|
  {
    var qs := CarryIn(hf, ps, c);
    if ps == [] {
      assert qs[1..] == [];
    } else if ps[0].None? {
      assert qs[1..] == ps[1..];
    } else {
      assert qs[1..] == CarryIn(hf, ps[1..], hf.combine(ps[0].value, c));
      CountCarryIn(hf, ps[1..], hf.combine(ps[0].value, c), d + 1);
    }
  }

  lemma {:induction false} CarryInShape<H>(hf: HashFn<H>, ps: seq<Option<H>>, c: H)
    ensures |CarryIn(hf, ps, c)| == if AllSome(ps) then |ps| + 1 else |ps|
    ensures ps == [] || ps[|ps| - 1].Some? ==>
              CarryIn(hf, ps, c)[|CarryIn(hf, ps, c)| - 1].Some?
    decreases |ps|
  {
    if ps != [] && ps[0].Some? {
      CarryInShape(hf, ps[1..], hf.combine(ps[0].value, c));
      assert AllSome(ps) <==> AllSome(ps[1..]) by {
        assert forall i :: 1 <= i < |ps| ==> ps[i] == ps[1..][i - 1];
      }
    }
  }

  lemma {:induction false} CountBounds<H>(ps: seq<Option<H>>, d: nat)
    ensures Count(ps, d) + Pow2(d) <= Pow2(d + |ps|)
    ensures Count(ps, d) + Pow2(d) == Pow2(d + |ps|) <==> AllSome(ps)
    ensures ps != [] && ps[|ps| - 1].Some? ==> Count(ps, d) >= Pow2(d + |ps| - 1)
    decreases |ps|
  {
    if ps == [] {
    } else {
      CountBounds(ps[1..], d + 1);
      assert AllSome(ps) <==> ps[0].Some? && AllSome(ps[1..]) by {
        assert forall i :: 1 <= i < |ps| ==> ps[i] == ps[1..][i - 1];
      }
      if |ps| > 1 { assert ps[1..][|ps| - 2] == ps[|ps| - 1]; }
    }
  }

  /** A canonical frontier is full to depth d exactly when it holds 2^d leaves. */
  lemma CompleteIffFull<H>(t: Frontier<H>, depth: nat, d: nat)
    requires Canonical(t, depth) && d >= 1
    ensures Complete(t, d) <==> Size(t) == Pow2(d)
  {
    CountBounds(t.parents, 1);
    var n := |t.parents|;
    if Size(t) == Pow2(d) {
      if n < d - 1 {
        Pow2Monotone(1 + n, d - 1);
      } else if n > d - 1 {
        Pow2Monotone(d, n);
      }
    }
  }

  lemma SizeAtMost<H>(t: Frontier<H>, depth: nat)
    requires Canonical(t, depth)
    ensures Size(t) <= Pow2(depth)
  {
    CountBounds(t.parents, 1);
    Pow2Monotone(1 + |t.parents|, depth);
  }

  /** Appending to a canonical tree that is not full keeps it canonical and adds one leaf. */
  lemma AppendedCanonical<H>(hf: HashFn<H>, t: Frontier<H>, x: H, depth: nat)
    requires Canonical(t, depth) && Size(t) < Pow2(depth)
    ensures Canonical(Appended(hf, t, x), depth)
    ensures Size(Appended(hf, t, x)) == Size(t) + 1
  {
    if t.left.Some? && t.right.Some? {
      var c := hf.combine(t.left.value, t.right.value);
      CountCarryIn(hf, t.parents, c, 1);
      CarryInShape(hf, t.parents, c);
      CompleteIffFull(t, depth, depth);
    }
  }

  lemma {:induction false} AppendAllCanonical<H>(hf: HashFn<H>, t: Frontier<H>, xs: seq<H>, depth: nat)
    requires Canonical(t, depth) && Size(t) + |xs| <= Pow2(depth)
    ensures Canonical(AppendAll(hf, t, xs), depth)
    ensures Size(AppendAll(hf, t, xs)) == Size(t) + |xs|
    decreases |xs|
  {
    if xs == [] {
    } else {
      AppendedCanonical(hf, t, xs[0], depth);
      AppendAllCanonical(hf, Appended(hf, t, xs[0]), xs[1..], depth);
    }
  }

  // ---------------------------------------------------------------- root with fillers

  /**
   * Climb from a level-d hash r through the parents and up to level `depth`, taking missing
   * right siblings from the queue q and, once it is exhausted, empty subtrees.
   */
  function Climb<H>(hf: HashFn<H>, ps: seq<Option<H>>, r: H, d: nat, depth: nat, q: seq<H>): H
    decreases |ps|, depth - d
  {
    if ps == [] && d >= depth then r
    else if Head(ps).Some? then Climb(hf, Tail(ps), hf.combine(ps[0].value, r), d + 1, depth, q)
    else
      var sib := NextFiller(hf, q, d);
      Climb(hf, Tail(ps), hf.combine(r, sib), d + 1, depth, q[Min(1, |q|)..])
  }

  function NextFiller<H>(hf: HashFn<H>, q: seq<H>, d: nat): H
  {
    if q == [] then EmptyRoot(hf, d) else q[0]
  }

  /** The hash of the bottom pair, with the fillers it uses up removed from the queue. */
  function BottomPair<H>(hf: HashFn<H>, t: Frontier<H>, q: seq<H>): (H, seq<H>)
  {
    var l := if t.left.Some? then t.left.value else NextFiller(hf, q, 0);
    var q1 := if t.left.Some? then q else q[Min(1, |q|)..];
    var r := if t.right.Some? then t.right.value else NextFiller(hf, q1, 0);
    var q2 := if t.right.Some? then q1 else q1[Min(1, |q1|)..];
    (hf.combine(l, r), q2)
  }

  function RootWith<H>(hf: HashFn<H>, t: Frontier<H>, depth: nat, q: seq<H>): H
  {
    var b := BottomPair(hf, t, q);
    Climb(hf, t.parents, b.0, 1, depth, b.1)
  }

  // ---------------------------------------------------------------- feeding leaves, level by level

  /** One level up: adjacent nodes combined, an odd last node paired with `pad`. */
  function PairUp<H>(hf: HashFn<H>, s: seq<H>, pad: H): seq<H>
  {
    if s == [] then []
    else if |s| == 1 then [hf.combine(s[0], pad)]
    else [hf.combine(s[0], s[1])] + PairUp(hf, s[2..], pad)
  }

  /** Root over the subtrees ps followed by the level-d nodes s. */
  function FeedRoot<H>(hf: HashFn<H>, ps: seq<Option<H>>, s: seq<H>, d: nat, depth: nat): H
    requires s != [] && d <= depth
    decreases depth - d
  {
    if d == depth then s[0]
    else
      var row := if Head(ps).Some? then [ps[0].value] + s else s;
      FeedRoot(hf, Tail(ps), PairUp(hf, row, EmptyRoot(hf, d)), d + 1, depth)
  }

  function Present<H>(o: Option<H>): seq<H> { if o.Some? then [o.value] else [] }

  /** Root of the tree represented by t with the leaves xs placed after its own. */
  function FeedTree<H>(hf: HashFn<H>, t: Frontier<H>, xs: seq<H>, depth: nat): H
    requires depth >= 1
  {
    var s := Present(t.left) + Present(t.right) + xs;
    var e := EmptyRoot(hf, 0);
    FeedRoot(hf, t.parents, if s == [] then [hf.combine(e, e)] else PairUp(hf, s, e), 1, depth)
  }

  /** Free positions above level d. */
  predicate HasRoom<H>(ps: seq<Option<H>>, d: nat, depth: nat)
  {
    d < depth && (|ps| < depth - d || exists i :: 0 <= i < depth - d && ps[i].None?)
  }

  lemma {:induction false} FeedCarry<H>(hf: HashFn<H>, ps: seq<Option<H>>, c: H, s: seq<H>, d: nat, depth: nat)
    requires s != [] && HasRoom(ps, d, depth)
    ensures FeedRoot(hf, ps, [c] + s, d, depth) == FeedRoot(hf, CarryIn(hf, ps, c), s, d, depth)
    decreases depth - d
  {
    var e := EmptyRoot(hf, d);
    var qs := CarryIn(hf, ps, c);
    if Head(ps).Some? {
      var pc := hf.combine(ps[0].value, c);
      var row := [ps[0].value] + ([c] + s);
      assert row[2..] == s;
      assert PairUp(hf, row, e) == [pc] + PairUp(hf, s, e);
      assert qs[1..] == CarryIn(hf, ps[1..], pc);
      assert HasRoom(ps[1..], d + 1, depth) by {
        if |ps| >= depth - d {
          var i :| 0 <= i < depth - d && ps[i].None?;
          assert ps[1..][i - 1].None?;
        }
      }
      FeedCarry(hf, ps[1..], pc, PairUp(hf, s, e), d + 1, depth);
    } else {
      assert qs[0] == Some(c) && qs[1..] == Tail(ps);
    }
  }

  /** Feeding a leaf and then the rest is feeding the whole list. */
  lemma FeedAppend<H>(hf: HashFn<H>, t: Frontier<H>, x: H, xs: seq<H>, depth: nat)
    requires depth >= 1 && Canonical(t, depth) && Size(t) < Pow2(depth)
    ensures FeedTree(hf, t, [x] + xs, depth) == FeedTree(hf, Appended(hf, t, x), xs, depth)
  {
    hide FeedRoot, EmptyRoot, CarryIn, Count, Pow2;
    var e := EmptyRoot(hf, 0);
    if t.left.Some? && t.right.Some? {
      var s := Present(t.left) + Present(t.right) + ([x] + xs);
      var c := hf.combine(t.left.value, t.right.value);
      assert s[2..] == [x] + xs;
      assert PairUp(hf, s, e) == [c] + PairUp(hf, [x] + xs, e);
      CompleteIffFull(t, depth, depth);
      assert HasRoom(t.parents, 1, depth);
      FeedCarry(hf, t.parents, c, PairUp(hf, [x] + xs, e), 1, depth);
      assert Present(Some(x)) + Present(None) + xs == [x] + xs;
    } else {
      var t1 := Appended(hf, t, x);
      assert Present(t.left) + Present(t.right) + ([x] + xs) == Present(t1.left) + Present(t1.right) + xs;
    }
  }

  /** With nothing further to feed, the climb with empty fillers is the root. */
  lemma {:induction false} ClimbIsFeed<H>(hf: HashFn<H>, ps: seq<Option<H>>, r: H, d: nat, depth: nat)
    requires d + |ps| <= depth
    ensures Climb(hf, ps, r, d, depth, []) == FeedRoot(hf, ps, [r], d, depth)
    decreases depth - d
  {
    if d >= depth {
    } else {
      var e := EmptyRoot(hf, d);
      if Head(ps).Some? {
        var row := [ps[0].value] + [r];
        assert row[2..] == [];
        assert PairUp(hf, row, e) == [hf.combine(ps[0].value, r)];
        ClimbIsFeed(hf, Tail(ps), hf.combine(ps[0].value, r), d + 1, depth);
      } else {
        var none: seq<H> := [];
        assert none[0..] == none;
        ClimbIsFeed(hf, Tail(ps), hf.combine(r, e), d + 1, depth);
      }
    }
  }

  lemma RootIsFeed<H>(hf: HashFn<H>, t: Frontier<H>, depth: nat)
    requires Canonical(t, depth)
    ensures RootWith(hf, t, depth, []) == FeedTree(hf, t, [], depth)
  {
    var none: seq<H> := [];
    assert none[0..] == none;
    var e := EmptyRoot(hf, 0);
    var s := Present(t.left) + Present(t.right) + [];
    var b := BottomPair(hf, t, []);
    if |s| == 2 { assert s[2..] == []; }
    assert (if s == [] then [hf.combine(e, e)] else PairUp(hf, s, e)) == [b.0];
    assert b.1 == [];
    ClimbIsFeed(hf, t.parents, b.0, 1, depth);
  }

  /** The incremental tree after further appends has the root of the fed tree. */
  lemma {:induction false} AppendAllRoot<H>(hf: HashFn<H>, t: Frontier<H>, xs: seq<H>, depth: nat)
    requires depth >= 1 && Canonical(t, depth) && Size(t) + |xs| <= Pow2(depth)
    ensures RootWith(hf, AppendAll(hf, t, xs), depth, []) == FeedTree(hf, t, xs, depth)
    decreases |xs|
  {
    hide RootWith, FeedTree, Canonical, Size, Appended, Pow2;
    if xs == [] {
      RootIsFeed(hf, t, depth);
    } else {
      AppendedCanonical(hf, t, xs[0], depth);
      AppendAllRoot(hf, Appended(hf, t, xs[0]), xs[1..], depth);
      FeedAppend(hf, t, xs[0], xs[1..], depth);
      assert [xs[0]] + xs[1..] == xs;
    }
  }

  // ---------------------------------------------------------------- agreement with the naive tree

  /** The level-d nodes over a list of leaves: roots of consecutive blocks of 2^d leaves. */
  function Nodes<H>(hf: HashFn<H>, d: nat, xs: seq<H>): seq<H>
    decreases |xs|
  {
    if xs == [] then []
    else
      var k := Min(Pow2(d), |xs|);
      [NodeRoot(hf, d, xs[..k])] + Nodes(hf, d, xs[k..])
  }

  lemma {:induction false} NodesZero<H>(hf: HashFn<H>, xs: seq<H>)
    ensures Nodes(hf, 0, xs) == xs
    decreases |xs|
  {
    if xs == [] {
    } else {
      NodesZero(hf, xs[1..]);
      assert [xs[0]] + xs[1..] == xs;
    }
  }

  /** Pairing up the level-d nodes gives the level-(d+1) nodes. */
  lemma {:induction false} PairUpNodes<H>(hf: HashFn<H>, d: nat, xs: seq<H>)
    ensures PairUp(hf, Nodes(hf, d, xs), EmptyRoot(hf, d)) == Nodes(hf, d + 1, xs)
    decreases |xs|
  {
    if xs == [] {
    } else {
      var e := EmptyRoot(hf, d);
      var k := Min(Pow2(d), |xs|);
      var k2 := Min(Pow2(d + 1), |xs|);
      var rest := xs[k..];
      var block := xs[..k2];
      assert block[..k] == xs[..k];
      assert Min(Pow2(d), |block|) == k;
      if rest == [] {
        assert block[k..] == [];
        NodeRootEmpty(hf, d);
        assert xs[k2..] == [];
      } else {
        var j := Min(Pow2(d), |rest|);
        assert block[k..] == rest[..j];
        assert rest[j..] == xs[k2..];
        var ns := Nodes(hf, d, xs);
        assert ns[1] == NodeRoot(hf, d, rest[..j]);
        assert ns[2..] == Nodes(hf, d, xs[k2..]);
        PairUpNodes(hf, d, xs[k2..]);
      }
    }
  }

  lemma {:induction false} FeedNodes<H>(hf: HashFn<H>, xs: seq<H>, d: nat, depth: nat)
    requires xs != [] && d <= depth && |xs| <= Pow2(depth)
    ensures FeedRoot(hf, [], Nodes(hf, d, xs), d, depth) == NodeRoot(hf, depth, xs)
    decreases depth - d
  {
    if d == depth {
      assert xs[..|xs|] == xs;
    } else {
      PairUpNodes(hf, d, xs);
      FeedNodes(hf, xs, d + 1, depth);
    }
  }

  /** Feeding leaves into the empty tree gives the root of the padded full tree. */
  lemma FeedEmptyIsNaive<H>(hf: HashFn<H>, xs: seq<H>, depth: nat)
    requires depth >= 1 && |xs| <= Pow2(depth)
    ensures FeedTree(hf, EmptyFrontier(), xs, depth) == NodeRoot(hf, depth, xs)
  {
    hide NodeRoot, Pow2, FeedRoot, Nodes, PairUp;
    var t := EmptyFrontier<H>();
    assert Present(t.left) + Present(t.right) + xs == xs;
    if xs == [] {
      FeedEmpty(hf, 1, depth);
      NodeRootEmpty(hf, depth);
    } else {
      NodesZero(hf, xs);
      PairUpNodes(hf, 0, xs);
      FeedNodes(hf, xs, 1, depth);
    }
  }

  lemma {:induction false} FeedEmpty<H>(hf: HashFn<H>, d: nat, depth: nat)
    requires d <= depth
    ensures FeedRoot(hf, [], [EmptyRoot(hf, d)], d, depth) == EmptyRoot(hf, depth)
    decreases depth - d
  {
    if d == depth {
    } else {
      FeedEmpty(hf, d + 1, depth);
    }
  }

  /**
   * Main theorem on the tree: after appending any list of at most 2^depth leaves to the empty
   * tree, the frontier is canonical, counts the leaves, and its root is the padded tree's.
   */
  lemma TreeIsNaive<H>(hf: HashFn<H>, xs: seq<H>, depth: nat)
    requires depth >= 1 && |xs| <= Pow2(depth)
    ensures var t := AppendAll(hf, EmptyFrontier(), xs);
            && Canonical(t, depth)
            && Size(t) == |xs|
            && RootWith(hf, t, depth, []) == NodeRoot(hf, depth, xs)
  {
    hide NodeRoot;
    AppendAllCanonical(hf, EmptyFrontier(), xs, depth);
    AppendAllRoot(hf, EmptyFrontier(), xs, depth);
    FeedEmptyIsNaive(hf, xs, depth);
  }

  // ---------------------------------------------------------------- free slots and their fillers

  /** Levels of the missing right siblings at levels d up to depth, in the order they fill. */
  function SlotsFrom<H>(ps: seq<Option<H>>, d: nat, depth: nat): seq<nat>
    decreases depth - d
  {
    if d >= depth then []
    else (if Head(ps).Some? then [] else [d]) + SlotsFrom(Tail(ps), d + 1, depth)
  }

  function Slots<H>(t: Frontier<H>, depth: nat): seq<nat>
  {
    (if t.left.Some? then [] else [0]) + (if t.right.Some? then [] else [0])
    + SlotsFrom(t.parents, 1, depth)
  }

  /** Leaves that fill a list of slots. */
  function Capacity(slots: seq<nat>): nat
  {
    if slots == [] then 0 else Pow2(slots[0]) + Capacity(slots[1..])
  }

  /** The subtree roots that the leaves xs put into the slots, the last one possibly partial. */
  function Fillers<H>(hf: HashFn<H>, slots: seq<nat>, xs: seq<H>): seq<H>
  {
    if xs == [] || slots == [] then []
    else
      var k := Min(Pow2(slots[0]), |xs|);
      [NodeRoot(hf, slots[0], xs[..k])] + Fillers(hf, slots[1..], xs[k..])
  }

  lemma SlotsFromStep<H>(ps: seq<Option<H>>, d: nat, depth: nat)
    requires d < depth
    ensures var up := SlotsFrom(Tail(ps), d + 1, depth);
            var slots := SlotsFrom(ps, d, depth);
            if Head(ps).Some? then slots == up else |slots| == 1 + |up| && slots[0] == d && slots[1..] == up
  {
  }

  lemma {:induction false} SlotsFromCapacity<H>(ps: seq<Option<H>>, d: nat, depth: nat)
    requires d + |ps| <= depth
    ensures Capacity(SlotsFrom(ps, d, depth)) + Count(ps, d) + Pow2(d) == Pow2(depth)
    decreases depth - d
  {
    if d >= depth {
    } else {
      SlotsFromCapacity(Tail(ps), d + 1, depth);
      SlotsFromStep(ps, d, depth);
    }
  }

  /** The slots of a canonical tree hold exactly the leaves it is short of 2^depth. */
  lemma SlotsCapacity<H>(t: Frontier<H>, depth: nat)
    requires Canonical(t, depth)
    ensures Capacity(Slots(t, depth)) + Size(t) == Pow2(depth)
  {
    SlotsFromCapacity(t.parents, 1, depth);
    var up := SlotsFrom(t.parents, 1, depth);
    if t.left.Some? && t.right.Some? {
      assert Slots(t, depth) == up;
    } else if t.left.Some? {
      assert Slots(t, depth)[1..] == up;
    } else {
      assert Slots(t, depth)[1..][1..] == up;
    }
  }

  /** Level of the next free slot once `skip` of them are filled, as found by scanning the parents. */
  function NextDepthFrom<H>(ps: seq<Option<H>>, d: nat, skip: nat): nat
  {
    if ps == [] then d + skip
    else if ps[0].Some? then NextDepthFrom(ps[1..], d + 1, skip)
    else if skip == 0 then d
    else NextDepthFrom(ps[1..], d + 1, skip - 1)
  }

  lemma NextDepthStep<H>(ps: seq<Option<H>>, d: nat, skip: nat)
    ensures NextDepthFrom(ps, d, skip) ==
            if Head(ps).Some? then NextDepthFrom(Tail(ps), d + 1, skip)
            else if skip == 0 then d
            else NextDepthFrom(Tail(ps), d + 1, skip - 1)
  {
  }

  lemma NextDepthEnd<H>(d: nat, skip: nat)
    ensures NextDepthFrom<H>([], d, skip) == d + skip
  {
  }

  lemma NoSlots<H>(ps: seq<Option<H>>, d: nat, depth: nat)
    requires d >= depth && d + |ps| <= depth
    ensures ps == [] && SlotsFrom(ps, d, depth) == []
    ensures forall skip: nat :: NextDepthFrom(ps, d, skip) >= depth
  {
  }

  lemma {:induction false} NextDepthIsSlot<H>(ps: seq<Option<H>>, d: nat, skip: nat, depth: nat)
    requires d + |ps| <= depth
    ensures var slots := SlotsFrom(ps, d, depth);
            var r := NextDepthFrom(ps, d, skip);
            if skip < |slots| then r == slots[skip] else r >= depth
    decreases depth - d, skip
  {
    hide SlotsFrom, NextDepthFrom;
    NextDepthStep(ps, d, skip);
    if d >= depth {
      NoSlots(ps, d, depth);
    } else {
      SlotsFromStep(ps, d, depth);
      var slots, up := SlotsFrom(ps, d, depth), SlotsFrom(Tail(ps), d + 1, depth);
      if Head(ps).Some? {
        NextDepthIsSlot(Tail(ps), d + 1, skip, depth);
      } else if skip > 0 {
        NextDepthIsSlot(Tail(ps), d + 1, skip - 1, depth);
        if skip < |slots| { assert slots[skip] == slots[1..][skip - 1]; }
      }
    }
  }

  lemma {:induction false} CapacitySplit(slots: seq<nat>, k: nat)
    requires k <= |slots|
    ensures Capacity(slots) == Capacity(slots[..k]) + Capacity(slots[k..])
  {
    if k > 0 {
      CapacitySplit(slots[1..], k - 1);
      assert slots[..k][1..] == slots[1..][..k - 1];
      assert slots[1..][k - 1..] == slots[k..];
    } else {
      assert slots[0..] == slots;
    }
  }

  /** Leaves u that fill the slots a exactly, followed by leaves v for the slots b. */
  lemma {:induction false} FillersSplit<H>(hf: HashFn<H>, a: seq<nat>, b: seq<nat>, u: seq<H>, v: seq<H>)
    requires Capacity(a) == |u|
    ensures |Fillers(hf, a, u)| == |a|
    ensures Fillers(hf, a + b, u + v) == Fillers(hf, a, u) + Fillers(hf, b, v)
    decreases |a|
  {
    hide NodeRoot, Pow2, Fillers;
    if a == [] {
      assert a + b == b && u + v == v;
      FillersOfNothing(hf, u);
      assert [] + Fillers(hf, b, v) == Fillers(hf, b, v);
    } else {
      var p := Pow2(a[0]);
      FillersSplit(hf, a[1..], b, u[p..], v);
      assert (a + b)[1..] == a[1..] + b;
      assert (u + v)[..p] == u[..p];
      assert (u + v)[p..] == u[p..] + v;
      FillersStep(hf, a, u);
      FillersStep(hf, a + b, u + v);
      SeqAssoc([NodeRoot(hf, a[0], u[..p])], Fillers(hf, a[1..], u[p..]), Fillers(hf, b, v));
    }
  }

  lemma FillersOfNothing<H>(hf: HashFn<H>, xs: seq<H>)
    ensures Fillers(hf, [], xs) == []
  {
  }

  lemma FillersStep<H>(hf: HashFn<H>, slots: seq<nat>, xs: seq<H>)
    requires slots != [] && Pow2(slots[0]) <= |xs|
    ensures var p := Pow2(slots[0]);
            Fillers(hf, slots, xs) == [NodeRoot(hf, slots[0], xs[..p])] + Fillers(hf, slots[1..], xs[p..])
  {
  }

  /** Level by level, the climb fed by the fillers of xs is the feed of xs. */
  lemma {:induction false} ClimbWithFillers<H>(
      hf: HashFn<H>, ps: seq<Option<H>>, r: H, d: nat, depth: nat, xs: seq<H>)
    requires d + |ps| <= depth && |xs| <= Capacity(SlotsFrom(ps, d, depth))
    ensures Climb(hf, ps, r, d, depth, Fillers(hf, SlotsFrom(ps, d, depth), xs))
         == FeedRoot(hf, ps, [r] + Nodes(hf, d, xs), d, depth)
    decreases depth - d
  {
    hide PairUp, NodeRoot, EmptyRoot, Climb, FeedRoot, Nodes, Fillers, SlotsFrom;
    if d >= depth {
      ClimbTop(hf, ps, r, d, depth, xs);
    } else {
      SlotsFromStep(ps, d, depth);
      if Head(ps).Some? {
        ClimbStored(hf, ps, r, d, depth, xs);
        ClimbWithFillers(hf, Tail(ps), hf.combine(ps[0].value, r), d + 1, depth, xs);
      } else if xs == [] {
        ClimbWithFillers(hf, Tail(ps), hf.combine(r, EmptyRoot(hf, d)), d + 1, depth, []);
        ClimbOutOfLeaves(hf, ps, r, d, depth);
      } else {
        var k := Min(Pow2(d), |xs|);
        ClimbWithFillers(hf, Tail(ps), hf.combine(r, NodeRoot(hf, d, xs[..k])), d + 1, depth, xs[k..]);
        ClimbOneFiller(hf, ps, r, d, depth, xs, k);
      }
    }
  }

  lemma ClimbTop<H>(hf: HashFn<H>, ps: seq<Option<H>>, r: H, d: nat, depth: nat, xs: seq<H>)
    requires d >= depth && d + |ps| <= depth && |xs| <= Capacity(SlotsFrom(ps, d, depth))
    ensures Climb(hf, ps, r, d, depth, Fillers(hf, SlotsFrom(ps, d, depth), xs))
         == FeedRoot(hf, ps, [r] + Nodes(hf, d, xs), d, depth)
  {
    hide NodeRoot, EmptyRoot, PairUp;
  }

  lemma ClimbStored<H>(hf: HashFn<H>, ps: seq<Option<H>>, r: H, d: nat, depth: nat, xs: seq<H>)
    requires d < depth && Head(ps).Some?
    ensures var r' := hf.combine(ps[0].value, r);
            && SlotsFrom(ps, d, depth) == SlotsFrom(Tail(ps), d + 1, depth)
            && Climb(hf, ps, r, d, depth, Fillers(hf, SlotsFrom(ps, d, depth), xs))
               == Climb(hf, Tail(ps), r', d + 1, depth, Fillers(hf, SlotsFrom(ps, d, depth), xs))
            && FeedRoot(hf, ps, [r] + Nodes(hf, d, xs), d, depth)
               == FeedRoot(hf, Tail(ps), [r'] + Nodes(hf, d + 1, xs), d + 1, depth)
  {
    hide PairUp, NodeRoot, EmptyRoot, Nodes, Fillers;
    SlotsFromStep(ps, d, depth);
    PairUpRow(hf, ps[0].value, r, d, xs);
  }

  lemma ClimbOutOfLeaves<H>(hf: HashFn<H>, ps: seq<Option<H>>, r: H, d: nat, depth: nat)
    requires d < depth && Head(ps).None?
    ensures var r' := hf.combine(r, EmptyRoot(hf, d));
            && Climb(hf, ps, r, d, depth, Fillers(hf, SlotsFrom(ps, d, depth), []))
               == Climb(hf, Tail(ps), r', d + 1, depth, Fillers(hf, SlotsFrom(Tail(ps), d + 1, depth), []))
            && FeedRoot(hf, ps, [r] + Nodes(hf, d, []), d, depth)
               == FeedRoot(hf, Tail(ps), [r'] + Nodes(hf, d + 1, []), d + 1, depth)
  {
    hide NodeRoot, EmptyRoot, SlotsFrom, Climb;
    var r' := hf.combine(r, EmptyRoot(hf, d));
    ClimbNoFiller(hf, ps, r, d, depth);
    assert [r] + Nodes(hf, d, []) == [r];
    assert [r'] + Nodes(hf, d + 1, []) == [r'];
    NoLeavesNoFillers(hf, SlotsFrom(ps, d, depth));
    NoLeavesNoFillers(hf, SlotsFrom(Tail(ps), d + 1, depth));
  }

  lemma NoLeavesNoFillers<H>(hf: HashFn<H>, slots: seq<nat>)
    ensures Fillers(hf, slots, []) == []
  {
  }

  lemma ClimbOneFiller<H>(hf: HashFn<H>, ps: seq<Option<H>>, r: H, d: nat, depth: nat, xs: seq<H>, k: nat)
    requires d < depth && Head(ps).None? && xs != [] && k == Min(Pow2(d), |xs|)
    ensures var up := SlotsFrom(Tail(ps), d + 1, depth);
            var r' := hf.combine(r, NodeRoot(hf, d, xs[..k]));
            && Climb(hf, ps, r, d, depth, Fillers(hf, SlotsFrom(ps, d, depth), xs))
               == Climb(hf, Tail(ps), r', d + 1, depth, Fillers(hf, up, xs[k..]))
            && FeedRoot(hf, ps, [r] + Nodes(hf, d, xs), d, depth)
               == FeedRoot(hf, Tail(ps), [r'] + Nodes(hf, d + 1, xs[k..]), d + 1, depth)
  {
    SlotsFromStep(ps, d, depth);
    var first := NodeRoot(hf, d, xs[..k]);
    var q := Fillers(hf, SlotsFrom(ps, d, depth), xs);
    assert q[0] == first && q[1..] == Fillers(hf, SlotsFrom(Tail(ps), d + 1, depth), xs[k..]);
    PairUpRow(hf, r, first, d, xs[k..]);
    assert [r] + Nodes(hf, d, xs) == [r] + ([first] + Nodes(hf, d, xs[k..]));
  }

  lemma PairUpRow<H>(hf: HashFn<H>, a: H, b: H, d: nat, xs: seq<H>)
    ensures PairUp(hf, [a] + ([b] + Nodes(hf, d, xs)), EmptyRoot(hf, d))
         == [hf.combine(a, b)] + Nodes(hf, d + 1, xs)
  {
    PairUpNodes(hf, d, xs);
    assert ([a] + ([b] + Nodes(hf, d, xs)))[2..] == Nodes(hf, d, xs);
  }

  lemma ClimbNoFiller<H>(hf: HashFn<H>, ps: seq<Option<H>>, r: H, d: nat, depth: nat)
    requires d < depth && Head(ps).None?
    ensures Climb(hf, ps, r, d, depth, [])
         == Climb(hf, Tail(ps), hf.combine(r, EmptyRoot(hf, d)), d + 1, depth, [])
  {
    var none: seq<H> := [];
    assert none[0..] == none;
  }

  /** The leaves that complete the bottom pair, and what is left of xs. */
  function MissingLeaves<H>(t: Frontier<H>, xs: seq<H>): (r: nat)
    ensures r <= |xs|
  {
    Min((if t.left.Some? then 0 else 1) + (if t.right.Some? then 0 else 1), |xs|)
  }

  lemma OneSlotFiller<H>(hf: HashFn<H>, up: seq<nat>, xs: seq<H>)
    ensures var q := Fillers(hf, [0] + up, xs);
            if xs == [] then q == [] else q == [xs[0]] + Fillers(hf, up, xs[1..])
  {
    assert ([0] + up)[1..] == up;
  }

  /** At the bottom the first fillers are the missing leaves of the last pair themselves. */
  lemma BottomFillers<H>(hf: HashFn<H>, t: Frontier<H>, xs: seq<H>, depth: nat)
    requires Canonical(t, depth)
    ensures var k := MissingLeaves(t, xs);
            BottomPair(hf, t, Fillers(hf, Slots(t, depth), xs)).1
            == Fillers(hf, SlotsFrom(t.parents, 1, depth), xs[k..])
  {
    var up := SlotsFrom(t.parents, 1, depth);
    var none: seq<H> := [];
    assert none[0..] == none;
    if t.left.Some? && t.right.Some? {
      assert Slots(t, depth) == up && xs[0..] == xs;
    } else if t.left.Some? {
      assert Slots(t, depth) == [0] + up;
      OneSlotFiller(hf, up, xs);
    } else {
      assert Slots(t, depth) == [0] + ([0] + up);
      OneSlotFiller(hf, [0] + up, xs);
      if xs != [] {
        OneSlotFiller(hf, up, xs[1..]);
        if |xs| > 1 { assert xs[1..][1..] == xs[2..]; }
      }
    }
  }

  function LeafOr<H>(hf: HashFn<H>, s: seq<H>, i: nat): H
  {
    if i < |s| then s[i] else EmptyRoot(hf, 0)
  }

  lemma BottomHash<H>(hf: HashFn<H>, t: Frontier<H>, xs: seq<H>, depth: nat)
    requires Canonical(t, depth)
    ensures var s := Present(t.left) + Present(t.right) + xs;
            BottomPair(hf, t, Fillers(hf, Slots(t, depth), xs)).0
            == hf.combine(LeafOr(hf, s, 0), LeafOr(hf, s, 1))
  {
    var up := SlotsFrom(t.parents, 1, depth);
    if t.left.Some? && t.right.Some? {
    } else if t.left.Some? {
      assert Slots(t, depth) == [0] + up;
      OneSlotFiller(hf, up, xs);
    } else {
      assert Slots(t, depth) == [0] + ([0] + up);
      OneSlotFiller(hf, [0] + up, xs);
      if xs != [] { OneSlotFiller(hf, up, xs[1..]); }
    }
  }

  lemma BottomFeed<H>(hf: HashFn<H>, t: Frontier<H>, xs: seq<H>, depth: nat)
    requires Canonical(t, depth)
    ensures var k := MissingLeaves(t, xs);
            var s := Present(t.left) + Present(t.right) + xs;
            var c := hf.combine(LeafOr(hf, s, 0), LeafOr(hf, s, 1));
            FeedTree(hf, t, xs, depth) == FeedRoot(hf, t.parents, [c] + Nodes(hf, 1, xs[k..]), 1, depth)
  {
    hide Nodes, PairUp, FeedRoot, EmptyRoot;
    var s := Present(t.left) + Present(t.right) + xs;
    BottomRow(hf, s);
    assert s[Min(2, |s|)..] == xs[MissingLeaves(t, xs)..];
  }

  lemma BottomRow<H>(hf: HashFn<H>, s: seq<H>)
    ensures var e := EmptyRoot(hf, 0);
            var c := hf.combine(LeafOr(hf, s, 0), LeafOr(hf, s, 1));
            (if s == [] then [hf.combine(e, e)] else PairUp(hf, s, e)) == [c] + Nodes(hf, 1, s[Min(2, |s|)..])
  {
    if |s| >= 2 {
      hide PairUp, NodeRoot, Nodes, EmptyRoot;
      NodesZero(hf, s[2..]);
      PairUpRow(hf, s[0], s[1], 0, s[2..]);
      assert s == [s[0]] + ([s[1]] + s[2..]);
    } else {
      hide PairUp, NodeRoot, Nodes, EmptyRoot;
      ShortRow(hf, s);
    }
  }

  /** Fewer than two leaves make one node. */
  lemma ShortRow<H>(hf: HashFn<H>, s: seq<H>)
    requires |s| < 2
    ensures var e := EmptyRoot(hf, 0);
            var c := hf.combine(LeafOr(hf, s, 0), LeafOr(hf, s, 1));
            (if s == [] then [hf.combine(e, e)] else PairUp(hf, s, e)) == [c] + Nodes(hf, 1, s[Min(2, |s|)..])
  {
    hide NodeRoot, EmptyRoot;
    assert s[Min(2, |s|)..] == [];
  }

  /**
   * Filling the free slots of any canonical tree with the subtree roots over xs gives the
   * root of that tree with xs appended one leaf at a time.
   */
  lemma FillersGiveRoot<H>(hf: HashFn<H>, t: Frontier<H>, xs: seq<H>, depth: nat)
    requires Canonical(t, depth) && Size(t) + |xs| <= Pow2(depth)
    ensures RootWith(hf, t, depth, Fillers(hf, Slots(t, depth), xs))
         == RootWith(hf, AppendAll(hf, t, xs), depth, [])
  {
    var k := MissingLeaves(t, xs);
    var b := BottomPair(hf, t, Fillers(hf, Slots(t, depth), xs));
    BottomFillers(hf, t, xs, depth);
    BottomHash(hf, t, xs, depth);
    BottomFeed(hf, t, xs, depth);
    SlotsFromCapacity(t.parents, 1, depth);
    ClimbWithFillers(hf, t.parents, b.0, 1, depth, xs[k..]);
    AppendAllRoot(hf, t, xs, depth);
  }

  // ---------------------------------------------------------------- authentication paths

  /** Siblings met by Climb, bottom first. */
  function ClimbPath<H>(hf: HashFn<H>, ps: seq<Option<H>>, d: nat, depth: nat, q: seq<H>): seq<H>
    decreases |ps|, depth - d
  {
    if ps == [] && d >= depth then []
    else if Head(ps).Some? then [ps[0].value] + ClimbPath(hf, Tail(ps), d + 1, depth, q)
    else [NextFiller(hf, q, d)] + ClimbPath(hf, Tail(ps), d + 1, depth, q[Min(1, |q|)..])
  }

  /** For each level, bottom first, whether the climb comes from the right child. */
  function ClimbIndex<H>(ps: seq<Option<H>>, d: nat, depth: nat): seq<bool>
    decreases |ps|, depth - d
  {
    if ps == [] && d >= depth then []
    else [Head(ps).Some?] + ClimbIndex(Tail(ps), d + 1, depth)
  }

  function PathNodes<H>(hf: HashFn<H>, t: Frontier<H>, depth: nat, q: seq<H>): seq<H>
    requires t.left.Some?
  {
    if t.right.Some? then [t.left.value] + ClimbPath(hf, t.parents, 1, depth, q)
    else [NextFiller(hf, q, 0)] + ClimbPath(hf, t.parents, 1, depth, q[Min(1, |q|)..])
  }

  function PathIndex<H>(t: Frontier<H>, depth: nat): seq<bool>
  {
    [t.right.Some?] + ClimbIndex(t.parents, 1, depth)
  }

  function LastLeaf<H>(t: Frontier<H>): H
    requires t.left.Some?
  {
    if t.right.Some? then t.right.value else t.left.value
  }

  function Reverse<T>(s: seq<T>): (r: seq<T>)
    ensures |r| == |s|
  {
    if s == [] then [] else Reverse(s[1..]) + [s[0]]
  }

  /** Merkle path validity: the root obtained from a leaf and a path listed from the root down. */
  function PathRoot<H>(hf: HashFn<H>, leaf: H, path: seq<H>, index: seq<bool>): H
    requires |path| == |index|
  {
    if path == [] then leaf
    else
      var below := PathRoot(hf, leaf, path[1..], index[1..]);
      if index[0] then hf.combine(path[0], below) else hf.combine(below, path[0])
  }

  /** The leaf position that the index bits, listed from the root down, denote. */
  function PathPosition(index: seq<bool>): nat
  {
    if index == [] then 0
    else (if index[0] then Pow2(|index| - 1) else 0) + PathPosition(index[1..])
  }

  lemma {:induction false} PathRootSnoc<H>(hf: HashFn<H>, leaf: H, path: seq<H>, index: seq<bool>, p: H, b: bool)
    requires |path| == |index|
    ensures PathRoot(hf, leaf, path + [p], index + [b])
         == PathRoot(hf, if b then hf.combine(p, leaf) else hf.combine(leaf, p), path, index)
    decreases |path|
  {
    if path == [] {
      assert (path + [p])[1..] == [] && (index + [b])[1..] == [];
    } else {
      assert (path + [p])[1..] == path[1..] + [p];
      assert (index + [b])[1..] == index[1..] + [b];
      PathRootSnoc(hf, leaf, path[1..], index[1..], p, b);
    }
  }

  lemma {:induction false} PathPositionSnoc(index: seq<bool>, b: bool)
    ensures PathPosition(index + [b]) == 2 * PathPosition(index) + (if b then 1 else 0)
    decreases |index|
  {
    if index == [] {
      assert [b][1..] == [];
    } else {
      assert (index + [b])[1..] == index[1..] + [b];
      PathPositionSnoc(index[1..], b);
    }
  }

  lemma {:induction false} ClimbAlongPath<H>(hf: HashFn<H>, ps: seq<Option<H>>, r: H, d: nat, depth: nat, q: seq<H>)
    ensures |ClimbPath(hf, ps, d, depth, q)| == |ClimbIndex(ps, d, depth)|
    ensures PathRoot(hf, r, Reverse(ClimbPath(hf, ps, d, depth, q)), Reverse(ClimbIndex(ps, d, depth)))
         == Climb(hf, ps, r, d, depth, q)
    decreases |ps|, depth - d
  {
    if ps == [] && d >= depth {
    } else {
      var b := Head(ps).Some?;
      var p := if b then ps[0].value else NextFiller(hf, q, d);
      var q' := if b then q else q[Min(1, |q|)..];
      var r' := if b then hf.combine(p, r) else hf.combine(r, p);
      ClimbAlongPath(hf, Tail(ps), r', d + 1, depth, q');
      var path := ClimbPath(hf, Tail(ps), d + 1, depth, q');
      var index := ClimbIndex(Tail(ps), d + 1, depth);
      ReverseCons(p, path);
      ReverseCons(b, index);
      PathRootSnoc(hf, r, Reverse(path), Reverse(index), p, b);
    }
  }

  lemma ReverseCons<T>(x: T, s: seq<T>)
    ensures Reverse([x] + s) == Reverse(s) + [x]
  {
    assert ([x] + s)[1..] == s;
  }

  lemma ScaleStep(w: nat, pos: nat, bit: nat)
    ensures w * (2 * pos + bit) == (2 * w) * pos + w * bit
  {
  }

  lemma {:induction false} ClimbPosition<H>(ps: seq<Option<H>>, d: nat, depth: nat)
    requires d + |ps| <= depth
    ensures |ClimbIndex(ps, d, depth)| == depth - d
    ensures Pow2(d) * PathPosition(Reverse(ClimbIndex(ps, d, depth))) == Count(ps, d)
    decreases depth - d
  {
    if d >= depth {
    } else {
      ClimbPosition(Tail(ps), d + 1, depth);
      var index := ClimbIndex(Tail(ps), d + 1, depth);
      ReverseCons(Head(ps).Some?, index);
      PathPositionSnoc(Reverse(index), Head(ps).Some?);
      ScaleStep(Pow2(d), PathPosition(Reverse(index)), if Head(ps).Some? then 1 else 0);
    }
  }

  /**
   * Folding the last leaf up the authentication path gives the root with the same fillers,
   * for every filler list; the path has one entry per level and its index bits spell the
   * position of that leaf.
   */
  lemma PathGivesRoot<H>(hf: HashFn<H>, t: Frontier<H>, depth: nat, q: seq<H>)
    requires t.left.Some?
    ensures |PathNodes(hf, t, depth, q)| == |PathIndex(t, depth)|
    ensures PathRoot(hf, LastLeaf(t), Reverse(PathNodes(hf, t, depth, q)), Reverse(PathIndex(t, depth)))
         == RootWith(hf, t, depth, q)
    ensures Canonical(t, depth) ==>
              && |PathIndex(t, depth)| == depth
              && PathPosition(Reverse(PathIndex(t, depth))) == Size(t) - 1
  {
    var b := t.right.Some?;
    var p := if b then t.left.value else NextFiller(hf, q, 0);
    var q' := if b then q else q[Min(1, |q|)..];
    var r := hf.combine(if b then p else LastLeaf(t), if b then LastLeaf(t) else p);
    var path := ClimbPath(hf, t.parents, 1, depth, q');
    var index := ClimbIndex(t.parents, 1, depth);
    ClimbAlongPath(hf, t.parents, r, 1, depth, q');
    ReverseCons(p, path);
    ReverseCons(b, index);
    PathRootSnoc(hf, LastLeaf(t), Reverse(path), Reverse(index), p, b);
    PathPositionSnoc(Reverse(index), b);
    if Canonical(t, depth) { ClimbPosition(t.parents, 1, depth); }
  }

  // ---------------------------------------------------------------- filling slot after slot

  lemma {:induction false} SlotsBelow<H>(ps: seq<Option<H>>, d: nat, depth: nat)
    ensures forall i :: 0 <= i < |SlotsFrom(ps, d, depth)| ==> SlotsFrom(ps, d, depth)[i] < depth
    decreases depth - d
  {
    if d < depth { SlotsBelow(Tail(ps), d + 1, depth); }
  }

  /** Leaves needed to fill the first k slots. */
  function Filled(slots: seq<nat>, k: nat): nat
    requires k <= |slots|
  {
    Capacity(slots[..k])
  }

  lemma FilledStep(slots: seq<nat>, k: nat)
    requires k < |slots|
    ensures Filled(slots, k + 1) == Filled(slots, k) + Pow2(slots[k])
    ensures Filled(slots, k + 1) <= Capacity(slots)
  {
    CapacitySplit(slots[..k + 1], k);
    assert slots[..k + 1][..k] == slots[..k];
    assert slots[..k + 1][k..] == [slots[k]];
    assert [slots[k]][1..] == [];
    CapacitySplit(slots, k + 1);
  }

  /** One partially or completely filled slot after k complete ones. */
  lemma FillersAfter<H>(hf: HashFn<H>, slots: seq<nat>, k: nat, u: seq<H>, v: seq<H>)
    requires k < |slots| && |u| == Filled(slots, k) && 1 <= |v| <= Pow2(slots[k])
    ensures Fillers(hf, slots, u + v) == Fillers(hf, slots[..k], u) + [NodeRoot(hf, slots[k], v)]
    ensures Fillers(hf, slots[..k + 1], u + v) == Fillers(hf, slots[..k], u) + [NodeRoot(hf, slots[k], v)]
  {
    assert slots == slots[..k] + slots[k..];
    FillersSplit(hf, slots[..k], slots[k..], u, v);
    OneFiller(hf, slots[k..], v);
    assert slots[..k + 1] == slots[..k] + [slots[k]];
    FillersSplit(hf, slots[..k], [slots[k]], u, v);
    OneFiller(hf, [slots[k]], v);
  }

  lemma OneFiller<H>(hf: HashFn<H>, slots: seq<nat>, v: seq<H>)
    requires slots != [] && 1 <= |v| <= Pow2(slots[0])
    ensures Fillers(hf, slots, v) == [NodeRoot(hf, slots[0], v)]
  {
    assert v[..|v|] == v && v[|v|..] == [];
  }
}
