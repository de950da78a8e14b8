/**
 * The incremental Merkle tree and its witness as objects updated in place, proved against the
 * naive padded tree of MerkleSpec.
 */
module MerkleTree {
  import opened Prelude
  import opened MerkleSpec

  /** Roots of the empty subtrees of depth 0 to `depth`, computed once. */
  class EmptyMerkleRoots<H> {
    const hf: HashFn<H>
    const depth: nat
    const roots: seq<H>

    ghost predicate Valid()
    {
      |roots| == depth + 1 && forall d :: 0 <= d <= depth ==> roots[d] == EmptyRoot(hf, d)
    }

    constructor (hf: HashFn<H>, depth: nat)
      ensures Valid() && this.hf == hf && this.depth == depth
    {
      var rs := [hf.zero];
      for d := 1 to depth + 1
        invariant |rs| == d
        invariant forall i :: 0 <= i < d ==> rs[i] == EmptyRoot(hf, i)
      {
        rs := rs + [hf.combine(rs[d - 1], rs[d - 1])];
      }
      this.hf, this.depth, this.roots := hf, depth, rs;
    }
  }

  /** Supplies missing siblings: queued hashes first, empty subtrees afterwards. */
  class PathFiller<H> {
    var queue: seq<H>
    const empty: EmptyMerkleRoots<H>

    constructor (queue: seq<H>, empty: EmptyMerkleRoots<H>)
      ensures this.queue == queue && this.empty == empty
    {
      this.queue, this.empty := queue, empty;
    }

    method Next(d: nat) returns (h: H)
      requires empty.Valid() && d <= empty.depth
      modifies this
      ensures h == NextFiller(empty.hf, old(queue), d)
      ensures queue == old(queue)[Min(1, |old(queue)|)..]
    {
      if |queue| > 0 {
        h := queue[0];
        queue := queue[1..];
      } else {
        h := empty.roots[d];
      }
    }
  }

  /** An authentication path, listed from the root down. */
  datatype MerklePath<H> = MerklePath(authenticationPath: seq<H>, index: seq<bool>)

  class IncrementalMerkleTree<H> {
    const empty: EmptyMerkleRoots<H>
    var left: Option<H>
    var right: Option<H>
    var parents: seq<Option<H>>

    ghost function Value(): Frontier<H>
      reads this
    {
      Frontier(left, right, parents)
    }

    /** What the constructor establishes and deserialization checks. */
    ghost predicate Valid()
      reads this
    {
      empty.Valid() && empty.depth >= 1 && Canonical(Value(), empty.depth)
    }

    constructor (empty: EmptyMerkleRoots<H>)
      requires empty.Valid() && empty.depth >= 1
      ensures this.empty == empty && Value() == EmptyFrontier() && Valid()
    {
      this.empty := empty;
      left, right, parents := None, None, [];
    }

    /** The implicit copy constructor. */
    constructor Copy(t: IncrementalMerkleTree<H>)
      ensures empty == t.empty && Value() == t.Value()
    {
      empty := t.empty;
      left, right, parents := t.left, t.right, t.parents;
    }

    method WfCheck() returns (r: Result<(), string>)
      ensures r.Ok? <==> Canonical(Value(), empty.depth)
    {
      if |parents| >= empty.depth {
        return Err("tree has too many parents");
      }
      if parents != [] && parents[|parents| - 1].None? {
        return Err("tree has non-canonical representation of parent");
      }
      if left.None? && right.Some? {
        return Err("tree has non-canonical representation; right should not exist");
      }
      if left.None? && |parents| > 0 {
        return Err("tree has non-canonical representation; parents should not be unempty");
      }
      return Ok(());
    }

    method Last() returns (r: Result<H, string>)
      requires Valid()
      ensures r.Ok? <==> Size(Value()) > 0
      ensures r.Ok? ==> left.Some? && r.value == LastLeaf(Value())
    {
      if right.Some? {
        return Ok(right.value);
      } else if left.Some? {
        return Ok(left.value);
      } else {
        return Err("tree has no cursor");
      }
    }

    method GetSize() returns (n: nat)
      requires Valid()
      ensures n == Size(Value()) <= Pow2(empty.depth)
    {
      n := 0;
      if left.Some? { n := n + 1; }
      if right.Some? { n := n + 1; }
      for i := 0 to |parents|
        invariant n + Count(parents[i..], i + 1) == Size(Value())
      {
        assert parents[i..][1..] == parents[i + 1..];
        if parents[i].Some? {
          n := n + Pow2(i + 1);
        }
      }
      SizeAtMost(Value(), empty.depth);
    }

    method IsComplete(d: nat) returns (b: bool)
      requires Valid() && d >= 1
      ensures b <==> Size(Value()) == Pow2(d)
    {
      CompleteIffFull(Value(), empty.depth, d);
      if left.None? || right.None? {
        return false;
      }
      if |parents| != d - 1 {
        return false;
      }
      for i := 0 to |parents|
        invariant forall k :: 0 <= k < i ==> parents[k].Some?
      {
        if parents[i].None? {
          return false;
        }
      }
      return true;
    }

    /** Refuses exactly when 2^depth leaves are present; otherwise adds one leaf. */
    method Append(obj: H) returns (r: Result<(), string>)
      requires Valid()
      modifies this
      ensures Valid()
      ensures r.Ok? <==> old(Size(Value())) < Pow2(empty.depth)
      ensures r.Ok? ==> Value() == Appended(empty.hf, old(Value()), obj)
      ensures r.Ok? ==> Size(Value()) == old(Size(Value())) + 1
      ensures r.Err? ==> Value() == old(Value())
    {
      SizeAtMost(Value(), empty.depth);
      var full := IsComplete(empty.depth);
      if full {
        return Err("tree is full");
      }
      AppendedCanonical(empty.hf, Value(), obj, empty.depth);
      if left.None? {
        left := Some(obj);
      } else if right.None? {
        right := Some(obj);
      } else {
        var hf := empty.hf;
        var combined := hf.combine(left.value, right.value);
        left := Some(obj);
        right := None;
        Propagate(combined);
      }
      r := Ok(());
    }

    /** The carry loop of Append: combine a completed subtree into the parents. */
    method Propagate(subtree: H)
      requires |parents| < empty.depth
      modifies this`parents
      ensures parents == CarryIn(empty.hf, old(parents), subtree)
    {
      hide CarryIn;
      var hf := empty.hf;
      var combined := subtree;
      var i := 0;
      while i < empty.depth
        invariant 0 <= i <= |parents| == |old(parents)|
        invariant parents[i..] == old(parents)[i..]
        invariant CarryIn(hf, old(parents), subtree) == parents[..i] + CarryIn(hf, parents[i..], combined)
      {
        CarryCases(hf, parents, i, combined);
        if i < |parents| {
          ghost var rest := parents[i + 1..];
          if parents[i].Some? {
            combined := hf.combine(parents[i].value, combined);
            SeqAssoc(parents[..i], [None], CarryIn(hf, rest, combined));
            parents := parents[i := None];
            assert parents[..i + 1] == parents[..i] + [None] && parents[i + 1..] == rest;
          } else {
            SeqAssoc(parents[..i], [Some(combined)], rest);
            assert parents[i := Some(combined)] == (parents[..i] + [Some(combined)]) + rest;
            parents := parents[i := Some(combined)];
            return;
          }
        } else {
          assert parents[i..] == [] && parents[..i] == parents;
          parents := parents + [Some(combined)];
          return;
        }
        i := i + 1;
      }
    }

    /** The level of the next unfilled subtree, given that `skip` of them are already filled. */
    method NextDepth(skip: nat) returns (d: nat)
      requires Valid()
      ensures var slots := Slots(Value(), empty.depth);
              if skip < |slots| then d == slots[skip] else d >= empty.depth
    {
      hide SlotsFrom, NextDepthFrom;
      var skip: nat := skip;
      ghost var up := SlotsFrom(parents, 1, empty.depth);
      ghost var below := Slots(Value(), empty.depth)[..|Slots(Value(), empty.depth)| - |up|];
      assert Slots(Value(), empty.depth) == below + up;
      if left.None? {
        if skip > 0 { skip := skip - 1; } else { return 0; }
      }
      if right.None? {
        if skip > 0 { skip := skip - 1; } else { return 0; }
      }
      NextDepthIsSlot(parents, 1, skip, empty.depth);
      ghost var goal := NextDepthFrom(parents, 1, skip);
      d := 1;
      for i := 0 to |parents|
        invariant d == i + 1
        invariant NextDepthFrom(parents[i..], d, skip) == goal
      {
        assert Head(parents[i..]) == parents[i] && Tail(parents[i..]) == parents[i + 1..];
        NextDepthStep(parents[i..], d, skip);
        if parents[i].None? {
          if skip > 0 { skip := skip - 1; } else { return; }
        }
        d := d + 1;
      }
      assert parents[|parents|..] == [];
      NextDepthEnd<H>(d, skip);
      d := d + skip;
    }

    method RootAt(depth: nat, fillers: seq<H>) returns (root: H)
      requires Valid() && |parents| < depth <= empty.depth
      ensures root == RootWith(empty.hf, Value(), depth, fillers)
    {
      var hf := empty.hf;
      var filler := new PathFiller(fillers, empty);
      var l, r;
      if left.Some? { l := left.value; } else { l := filler.Next(0); }
      if right.Some? { r := right.value; } else { r := filler.Next(0); }
      root := hf.combine(l, r);
      ghost var goal := RootWith(hf, Value(), depth, fillers);
      assert goal == Climb(hf, parents, root, 1, depth, filler.queue);
      var d := 1;
      assert parents[0..] == parents;
      for i := 0 to |parents|
        invariant d == i + 1 && filler.empty == empty && fresh(filler)
        invariant goal == Climb(hf, parents[i..], root, d, depth, filler.queue)
      {
        assert parents[i..][1..] == parents[i + 1..];
        if parents[i].Some? {
          root := hf.combine(parents[i].value, root);
        } else {
          var sib := filler.Next(d);
          root := hf.combine(root, sib);
        }
        d := d + 1;
      }
      while d < depth
        invariant |parents| < d <= depth && filler.empty == empty && fresh(filler)
        invariant goal == Climb(hf, [], root, d, depth, filler.queue)
      {
        var sib := filler.Next(d);
        root := hf.combine(root, sib);
        d := d + 1;
      }
    }

    method Root() returns (root: H)
      requires Valid()
      ensures root == RootWith(empty.hf, Value(), empty.depth, [])
      ensures forall xs :: |xs| <= Pow2(empty.depth) && Value() == AppendAll(empty.hf, EmptyFrontier(), xs)
                ==> root == NodeRoot(empty.hf, empty.depth, xs)
    {
      root := RootAt(empty.depth, []);
      forall xs | |xs| <= Pow2(empty.depth) && Value() == AppendAll(empty.hf, EmptyFrontier(), xs)
        ensures root == NodeRoot(empty.hf, empty.depth, xs)
      {
        TreeIsNaive(empty.hf, xs, empty.depth);
      }
    }

    /** The path certifies the last leaf against the root with the same fillers. */
    method Path(fillers: seq<H>) returns (r: Result<MerklePath<H>, string>)
      requires Valid()
      ensures r.Ok? <==> Size(Value()) > 0
      ensures r.Ok? ==>
                && left.Some?
                && |r.value.authenticationPath| == |r.value.index| == empty.depth
                && PathRoot(empty.hf, LastLeaf(Value()), r.value.authenticationPath, r.value.index)
                   == RootWith(empty.hf, Value(), empty.depth, fillers)
                && PathPosition(r.value.index) == Size(Value()) - 1
    {
      if left.None? {
        return Err("can't create an authentication path for the beginning of the tree");
      }
      var path, index := CollectPath(fillers);
      PathGivesRoot(empty.hf, Value(), empty.depth, fillers);
      return Ok(MerklePath(Reverse(path), Reverse(index)));
    }

    /** The siblings and index bits of the path, bottom first. */
    method CollectPath(fillers: seq<H>) returns (path: seq<H>, index: seq<bool>)
      requires Valid() && left.Some?
      ensures path == PathNodes(empty.hf, Value(), empty.depth, fillers)
      ensures index == PathIndex(Value(), empty.depth)
    {
      var filler := new PathFiller(fillers, empty);
      ghost var goal := PathNodes(empty.hf, Value(), empty.depth, fillers);
      if right.Some? {
        index := [true];
        path := [left.value];
      } else {
        index := [false];
        var sib := filler.Next(0);
        path := [sib];
      }
      var d := 1;
      assert parents[0..] == parents;
      for i := 0 to |parents|
        invariant d == i + 1 && filler.empty == empty && fresh(filler)
        invariant goal == path + ClimbPath(empty.hf, parents[i..], d, empty.depth, filler.queue)
        invariant PathIndex(Value(), empty.depth) == index + ClimbIndex(parents[i..], d, empty.depth)
      {
        assert parents[i..][1..] == parents[i + 1..];
        var sib;
        if parents[i].Some? {
          sib := parents[i].value;
        } else {
          sib := filler.Next(d);
        }
        SeqAssoc(path, [sib], ClimbPath(empty.hf, parents[i + 1..], d + 1, empty.depth, filler.queue));
        SeqAssoc(index, [parents[i].Some?], ClimbIndex(parents[i + 1..], d + 1, empty.depth));
        index := index + [parents[i].Some?];
        path := path + [sib];
        d := d + 1;
      }
      while d < empty.depth
        invariant |parents| < d <= empty.depth && filler.empty == empty && fresh(filler)
        invariant goal == path + ClimbPath(empty.hf, [], d, empty.depth, filler.queue)
        invariant PathIndex(Value(), empty.depth) == index + ClimbIndex<H>([], d, empty.depth)
      {
        var sib := filler.Next(d);
        SeqAssoc(path, [sib], ClimbPath(empty.hf, [], d + 1, empty.depth, filler.queue));
        SeqAssoc(index, [false], ClimbIndex<H>([], d + 1, empty.depth));
        index := index + [false];
        path := path + [sib];
        d := d + 1;
      }
    }
  }

  /**
   * A witness: a frozen copy of a tree, kept current by the subtree roots that fill its free
   * slots. `appended` records the leaves it has been fed.
   */
  class IncrementalWitness<H> {
    const tree: IncrementalMerkleTree<H>
    var filled: seq<H>
    var cursor: IncrementalMerkleTree?<H>
    var cursorDepth: nat
    ghost var appended: seq<H>

    ghost function FreeSlots(): seq<nat>
      reads this, tree
    {
      Slots(tree.Value(), tree.empty.depth)
    }

    /** The leaves in the subtree under construction. */
    ghost function Current(): seq<H>
      requires |filled| <= |FreeSlots()| && Filled(FreeSlots(), |filled|) <= |appended|
      reads this, tree
    {
      appended[Filled(FreeSlots(), |filled|)..]
    }

    /**
     * The filled hashes are the roots of the leading blocks of leaves. A live cursor sits in the
     * next free slot, at the depth that next_depth reports, and holds between 1 and
     * 2^cursorDepth - 1 leaves; without a cursor every leaf is accounted for.
     */
    ghost predicate Valid()
      reads this, tree, cursor
    {
      && tree.Valid()
      && cursor != tree
      && |filled| <= |FreeSlots()|
      && Filled(FreeSlots(), |filled|) <= |appended|
      && filled == Fillers(tree.empty.hf, FreeSlots()[..|filled|], appended[..Filled(FreeSlots(), |filled|)])
      && (cursor == null ==> Current() == [])
      && (cursor != null ==> CursorValid() && |Current()| < Pow2(cursorDepth))
    }

    ghost predicate CursorValid()
      requires cursor != null && |filled| <= |FreeSlots()| && Filled(FreeSlots(), |filled|) <= |appended|
      reads this, tree, cursor
    {
      && cursor.Valid()
      && cursor.empty == tree.empty
      && |filled| < |FreeSlots()|
      && cursorDepth == FreeSlots()[|filled|] >= 1
      && 1 <= |Current()| <= Pow2(cursorDepth)
      && cursor.Value() == AppendAll(tree.empty.hf, EmptyFrontier(), Current())
    }

    /** The tree that has received every leaf given to the witness. */
    ghost function Followed(): Frontier<H>
      reads this, tree
    {
      AppendAll(tree.empty.hf, tree.Value(), appended)
    }

    constructor (t: IncrementalMerkleTree<H>)
      requires t.Valid()
      ensures Valid() && fresh(tree) && appended == [] && cursor == null
      ensures tree.empty == t.empty && tree.Value() == t.Value()
    {
      tree := new IncrementalMerkleTree.Copy(t);
      filled, cursor, cursorDepth, appended := [], null, 0, [];
    }

    /** How full the followed tree is. */
    lemma Room()
      requires Valid()
      ensures Size(tree.Value()) + |appended| <= Pow2(tree.empty.depth)
      ensures Size(tree.Value()) + |appended| == Pow2(tree.empty.depth)
              <==> cursor == null && |filled| == |FreeSlots()|
      ensures Canonical(Followed(), tree.empty.depth)
      ensures Size(Followed()) == Size(tree.Value()) + |appended|
    {
      SlotsCapacity(tree.Value(), tree.empty.depth);
      var slots, k := FreeSlots(), |filled|;
      if k < |slots| {
        FilledStep(slots, k);
      } else {
        assert slots[..k] == slots;
      }
      AppendAllCanonical(tree.empty.hf, tree.Value(), appended, tree.empty.depth);
    }

    /** A live cursor read at its own depth is the root over the leaves it holds. */
    lemma CursorRoot()
      requires tree.Valid() && FilledValid() && cursor != null && CursorValid()
      ensures Canonical(cursor.Value(), cursorDepth) && cursorDepth < tree.empty.depth
      ensures Size(cursor.Value()) == |Current()|
      ensures RootWith(tree.empty.hf, cursor.Value(), cursorDepth, [])
           == NodeRoot(tree.empty.hf, cursorDepth, Current())
    {
      TreeIsNaive(tree.empty.hf, Current(), cursorDepth);
      SlotsBelow(tree.parents, 1, tree.empty.depth);
    }

    method PartialPath() returns (uncles: seq<H>)
      requires Valid()
      ensures uncles == Fillers(tree.empty.hf, FreeSlots(), appended)
    {
      uncles := filled;
      ghost var slots, k := FreeSlots(), |filled|;
      ghost var u := appended[..Filled(slots, k)];
      assert appended == u + Current();
      if cursor != null {
        CursorRoot();
        var r := cursor.RootAt(cursorDepth, []);
        uncles := uncles + [r];
        FillersAfter(tree.empty.hf, slots, k, u, Current());
      } else {
        assert slots == slots[..k] + slots[k..];
        FillersSplit(tree.empty.hf, slots[..k], slots[k..], u, Current());
      }
    }

    /** The witness root is the root of the tree that was fed the same leaves. */
    method Root() returns (root: H)
      requires Valid()
      ensures root == RootWith(tree.empty.hf, Followed(), tree.empty.depth, [])
    {
      var uncles := PartialPath();
      root := tree.RootAt(tree.empty.depth, uncles);
      Room();
      FillersGiveRoot(tree.empty.hf, tree.Value(), appended, tree.empty.depth);
    }

    /** The witnessed element, with its path, authenticates against the current root. */
    method Path() returns (r: Result<MerklePath<H>, string>)
      requires Valid()
      ensures r.Ok? <==> Size(tree.Value()) > 0
      ensures r.Ok? ==>
                && tree.left.Some?
                && |r.value.authenticationPath| == |r.value.index| == tree.empty.depth
                && PathRoot(tree.empty.hf, LastLeaf(tree.Value()), r.value.authenticationPath, r.value.index)
                   == RootWith(tree.empty.hf, Followed(), tree.empty.depth, [])
                && PathPosition(r.value.index) == Size(tree.Value()) - 1
    {
      var uncles := PartialPath();
      r := tree.Path(uncles);
      Room();
      FillersGiveRoot(tree.empty.hf, tree.Value(), appended, tree.empty.depth);
    }

    method Element() returns (r: Result<H, string>)
      requires Valid()
      ensures r.Ok? <==> Size(tree.Value()) > 0
      ensures r.Ok? ==> tree.left.Some? && r.value == LastLeaf(tree.Value())
    {
      r := tree.Last();
    }

    /** Deserialization recomputes the cursor depth; for a live cursor that changes nothing. */
    method Reload()
      requires Valid()
      modifies this`cursorDepth
      ensures Valid()
      ensures cursor != null ==> cursorDepth == old(cursorDepth)
    {
      cursorDepth := tree.NextDepth(|filled|);
    }

    /** Refuses exactly when the followed tree is full; otherwise follows it by one leaf. */
    method Append(obj: H) returns (r: Result<(), string>)
      requires Valid()
      modifies this, cursor
      ensures Valid() && (cursor == null || cursor == old(cursor) || fresh(cursor))
      ensures r.Ok? <==> old(Size(Followed())) < Pow2(tree.empty.depth)
      ensures appended == if r.Ok? then old(appended) + [obj] else old(appended)
      ensures r.Err? ==> filled == old(filled) && cursor == old(cursor)
    {
      hide Fillers, Capacity, AppendAll, SlotsFrom, Count, Pow2, Canonical;
      Room();
      if cursor != null {
        AppendToCursor(obj);
      } else {
        cursorDepth := tree.NextDepth(|filled|);
        SlotsBelow(tree.parents, 1, tree.empty.depth);
        if cursorDepth >= tree.empty.depth {
          return Err("tree is full");
        }
        OpenSlot(obj);
      }
      r := Ok(());
    }

    /** Start on the next free slot: a single leaf fills level 0, a deeper slot needs a cursor. */
    method OpenSlot(obj: H)
      requires Valid() && cursor == null && |filled| < |FreeSlots()| && cursorDepth == FreeSlots()[|filled|]
      modifies this
      ensures Valid() && (cursor == null || fresh(cursor))
      ensures appended == old(appended) + [obj]
    {
      ghost var c := Filled(FreeSlots(), |filled|);
      assert appended == appended[..c];
      appended := appended + [obj];
      assert appended[..c] == old(appended) && Current() == [obj];
      if cursorDepth == 0 {
        FillNext(obj);
      } else {
        var t := new IncrementalMerkleTree(tree.empty);
        var ok := t.Append(obj);
        cursor := t;
        assert [obj][1..] == [];
      }
    }

    /** The leaves of the filled slots, in order. */
    ghost predicate FilledValid()
      reads this, tree
    {
      && |filled| < |FreeSlots()|
      && Filled(FreeSlots(), |filled|) <= |appended|
      && filled == Fillers(tree.empty.hf, FreeSlots()[..|filled|], appended[..Filled(FreeSlots(), |filled|)])
    }

    /** Record the root of a completed subtree in the next free slot. */
    method FillNext(h: H)
      requires tree.Valid() && FilledValid()
      requires |Current()| == Pow2(FreeSlots()[|filled|])
      requires h == NodeRoot(tree.empty.hf, FreeSlots()[|filled|], Current())
      modifies this`filled, this`cursor
      ensures Valid() && cursor == null
    {
      hide NodeRoot, Fillers, AppendAll, Slots, Canonical, Pow2, Capacity;
      ghost var slots, k := FreeSlots(), |filled|;
      ghost var u, v := appended[..Filled(slots, k)], Current();
      FilledStep(slots, k);
      FillersAfter(tree.empty.hf, slots, k, u, v);
      assert appended == u + v;
      filled := filled + [h];
      cursor := null;
      assert appended[..|appended|] == appended;
    }

    /** Put a leaf into the subtree under construction. */
    method Extend(obj: H)
      requires Valid() && cursor != null
      modifies this`appended, cursor
      ensures tree.Valid() && cursor != tree && FilledValid() && CursorValid()
      ensures appended == old(appended) + [obj]
    {
      ghost var now := Current();
      CursorRoot();
      Pow2Monotone(cursorDepth, tree.empty.depth);
      AppendAllSnoc(tree.empty.hf, EmptyFrontier(), now, obj);
      var ok := cursor.Append(obj);
      ghost var c := Filled(FreeSlots(), |filled|);
      assert (appended + [obj])[..c] == appended[..c];
      assert (appended + [obj])[c..] == now + [obj];
      appended := appended + [obj];
    }

    method AppendToCursor(obj: H)
      requires Valid() && cursor != null
      modifies this, cursor
      ensures Valid() && (cursor == null || cursor == old(cursor))
      ensures appended == old(appended) + [obj]
    {
      Extend(obj);
      CursorRoot();
      var full := cursor.IsComplete(cursorDepth);
      if full {
        var root := cursor.RootAt(cursorDepth, []);
        FillNext(root);
      }
    }
  }

  /** The carry at one level of the frontier. */
  lemma CarryCases<H>(hf: HashFn<H>, ps: seq<Option<H>>, i: nat, x: H)
    requires i <= |ps|
    ensures i == |ps| ==> CarryIn(hf, ps[i..], x) == [Some(x)]
    ensures i < |ps| && ps[i].None? ==> CarryIn(hf, ps[i..], x) == [Some(x)] + ps[i + 1..]
    ensures i < |ps| && ps[i].Some? ==>
              CarryIn(hf, ps[i..], x) == [None] + CarryIn(hf, ps[i + 1..], hf.combine(ps[i].value, x))
  {
    if i < |ps| { assert ps[i..][1..] == ps[i + 1..]; }
  }
}
