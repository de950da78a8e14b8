/** Combining partial signature sets and turning a stack into an input script. */
module Sign {

  import opened Prelude
  import opened ScriptNum
  import opened Script
  import opened Machine
  import opened MachineSafety
  import opened Multisig

  // ---------------------------------------------------------------- matching signatures to keys

  /** Which key each signature was found for. */
  type Assignment = map<Element, Element>

  /** Every entry checks, for a listed key and a supplied signature. */
  predicate Sound(c: Context, script: Code, keys: seq<Element>, sigs: set<Element>, a: Assignment)
  {
    forall k :: k in a ==> k in keys && a[k] in sigs && c.checkSig(a[k], k, script)
  }

  /** The signature is in use, or every key it fits already has one. */
  predicate Settled(c: Context, script: Code, keys: seq<Element>, a: Assignment, sig: Element)
  {
    || (exists k :: k in a && a[k] == sig)
    || (forall k :: k in keys && c.checkSig(sig, k, script) ==> k in a)
  }

  method NonEmpty(sigs: seq<Element>) returns (r: set<Element>)
    ensures r == set s | s in sigs && s != []
  {
    r := {};
    for i := 0 to |sigs|
      invariant r == set s | s in sigs[..i] && s != []
    {
      assert sigs[..i + 1] == sigs[..i] + [sigs[i]];
      if sigs[i] != [] { r := r + {sigs[i]}; }
    }
    assert sigs[..|sigs|] == sigs;
  }

  /** What one signature adds: an entry for the first key in order that has none and that it fits. */
  function Extended(c: Context, script: Code, keys: seq<Element>, sig: Element, a: Assignment): (r: Assignment)
    ensures forall k :: k in a ==> k in r && r[k] == a[k]
    ensures forall k :: k in r && k !in a ==> k in keys && r[k] == sig && c.checkSig(sig, k, script)
    ensures Settled(c, script, keys, r, sig)
  {
    if keys == [] then a
    else if keys[0] !in a && c.checkSig(sig, keys[0], script) then
      var r := a[keys[0] := sig];
      assert keys[0] in r && r[keys[0]] == sig;
      r
    else
      Extended(c, script, keys[1..], sig, a)
  }

  /** The inner loop: the first key without a signature that this one fits. */
  method AssignOne(c: Context, script: Code, keys: seq<Element>, sig: Element, a: Assignment) returns (r: Assignment)
    ensures r == Extended(c, script, keys, sig, a)
  {
    assert keys[0..] == keys;
    for i := 0 to |keys|
      invariant Extended(c, script, keys[i..], sig, a) == Extended(c, script, keys, sig, a)
    {
      assert keys[i..][1..] == keys[i + 1..];
      if keys[i] in a { continue; }
      if c.checkSig(sig, keys[i], script) { return a[keys[i] := sig]; }
    }
    return a;
  }

  /** The assignment after the signatures were visited in a given order. */
  function Assigned(c: Context, script: Code, keys: seq<Element>, order: seq<Element>): Assignment
  {
    if order == [] then map[]
    else
      var last := |order| - 1;
      Extended(c, script, keys, order[last], Assigned(c, script, keys, order[..last]))
  }

  /** The members of a set, each once. */
  ghost predicate Lists(order: seq<Element>, sigs: set<Element>)
  {
    (forall s :: s in order <==> s in sigs) && forall i, j :: 0 <= i < j < |order| ==> order[i] != order[j]
  }

  /** In whatever order signatures are visited, the entries check and no usable signature is left out. */
  lemma {:induction false} AnyOrderAssigns(c: Context, script: Code, keys: seq<Element>, order: seq<Element>,
                                           sigs: set<Element>)
    requires forall s :: s in order ==> s in sigs
    ensures var a := Assigned(c, script, keys, order);
            Sound(c, script, keys, sigs, a) && forall s :: s in order ==> Settled(c, script, keys, a, s)
    decreases |order|
  {
    hide Settled, Extended;
    if order == [] {
    } else {
      var last := |order| - 1;
      var a, r := Assigned(c, script, keys, order[..last]), Assigned(c, script, keys, order);
      AnyOrderAssigns(c, script, keys, order[..last], sigs);
      forall s | s in order
        ensures Settled(c, script, keys, r, s)
      {
        if s in order[..last] { StaysSettled(c, script, keys, a, r, s); }
      }
    }
  }

  lemma StaysSettled(c: Context, script: Code, keys: seq<Element>, a: Assignment, b: Assignment, sig: Element)
    requires Settled(c, script, keys, a, sig) && forall k :: k in a ==> k in b && b[k] == a[k]
    ensures Settled(c, script, keys, b, sig)
  {
  }

  /** Signatures may be visited in any order. */
  method Assign(c: Context, script: Code, keys: seq<Element>, sigs: set<Element>) returns (a: Assignment)
    ensures exists order :: Lists(order, sigs) && a == Assigned(c, script, keys, order)
    ensures Sound(c, script, keys, sigs, a)
    ensures forall sig :: sig in sigs ==> Settled(c, script, keys, a, sig)
  {
    hide Extended, Settled, Sound;
    a := map[];
    var todo := sigs;
    ghost var order := [];
    while todo != {}
      invariant todo <= sigs && Lists(order, sigs - todo) && a == Assigned(c, script, keys, order)
      decreases |todo|
    {
      var sig :| sig in todo;
      a := AssignOne(c, script, keys, sig, a);
      assert (order + [sig])[..|order|] == order;
      order := order + [sig];
      todo := todo - {sig};
    }
    AnyOrderAssigns(c, script, keys, order, sigs);
  }

  // ---------------------------------------------------------------- the merged stack

  /** The signatures found, in the order of the keys. */
  function Collected(a: Assignment, keys: seq<Element>): seq<Element>
  {
    if keys == [] then []
    else (if keys[0] in a then [a[keys[0]]] else []) + Collected(a, keys[1..])
  }

  function Blanks(n: nat): (r: seq<Element>)
    ensures |r| == n && forall i :: 0 <= i < n ==> r[i] == []
  {
    seq(n, _ => [])
  }

  /** Cut or padded to exactly `n` entries. */
  function Fitted(s: seq<Element>, n: nat): (r: seq<Element>)
    ensures |r| == n
  {
    if |s| >= n then s[..n] else s + Blanks(n - |s|)
  }

  lemma CollectedStep(a: Assignment, keys: seq<Element>, i: nat)
    requires i < |keys|
    ensures Collected(a, keys[i..])
         == (if keys[i] in a then [a[keys[i]]] else []) + Collected(a, keys[i + 1..])
  {
    assert keys[i..][0] == keys[i] && keys[i..][1..] == keys[i + 1..];
  }

  method Merge(a: Assignment, keys: seq<Element>, required: nat) returns (result: seq<Element>)
    ensures result == [[]] + Fitted(Collected(a, keys), required)
  {
    hide Collected;
    var have := 0;
    result := [[]];
    ghost var all := Collected(a, keys);
    var i := 0;
    assert keys[0..] == keys;
    while i < |keys| && have < required
      invariant i <= |keys| && have <= required && |result| == have + 1
      invariant result + Collected(a, keys[i..]) == [[]] + all
    {
      CollectedStep(a, keys, i);
      if keys[i] in a {
        result := result + [a[keys[i]]];
        have := have + 1;
      }
      i := i + 1;
    }
    CollectedNone(a);
    ghost var rest := Collected(a, keys[i..]);
    assert i == |keys| ==> keys[i..] == [];
    Prefix(result, rest, all);
    FittedFrom(result[1..], rest, required);
    SeqAssoc([[]], result[1..], Blanks(required - have));
    result := result + Blanks(required - have);
  }

  lemma FittedFrom(found: seq<Element>, rest: seq<Element>, n: nat)
    requires |found| <= n && (|found| == n || rest == [])
    ensures Fitted(found + rest, n) == found + Blanks(n - |found|)
  {
    if |found| == n {
      assert (found + rest)[..n] == found;
      assert Blanks(0) == [];
    } else {
      assert found + rest == found;
    }
  }

  lemma CollectedNone(a: Assignment)
    ensures Collected(a, []) == []
  {
  }

  lemma Prefix(found: seq<Element>, rest: seq<Element>, all: seq<Element>)
    requires found != [] && found + rest == [[]] + all
    ensures all == found[1..] + rest && found == [[]] + found[1..]
  {
    assert ([[]] + all)[1..] == all;
    assert (found + rest)[1..] == found[1..] + rest;
    assert (found + rest)[0] == [];
  }

  // ---------------------------------------------------------------- combined signatures satisfy the script

  lemma {:induction false} CollectedMatches(c: Context, script: Code, all: seq<Element>, keys: seq<Element>,
                                            sigs: set<Element>, a: Assignment) returns (at: seq<nat>)
    requires Sound(c, script, all, sigs, a)
    ensures IsMatching(c, script, Collected(a, keys), keys, at)
    decreases |keys|
  {
    hide IsMatching;
    if keys == [] {
      at := [];
      EmptyMatching(c, script);
    } else {
      var rest := CollectedMatches(c, script, all, keys[1..], sigs, a);
      var found := Collected(a, keys);
      if keys[0] in a {
        assert found[0] == a[keys[0]] && found[1..] == Collected(a, keys[1..]);
        TakeKey(c, script, found, keys, rest);
        at := [0] + Shift(rest);
      } else {
        assert found == Collected(a, keys[1..]);
        SkipKey(c, script, found, keys, rest);
        at := Shift(rest);
      }
    }
  }

  lemma EmptyMatching(c: Context, script: Code)
    ensures IsMatching(c, script, [], [], [])
  {
  }

  lemma PrefixMatches(c: Context, script: Code, sigs: seq<Element>, keys: seq<Element>, at: seq<nat>, n: nat)
    requires IsMatching(c, script, sigs, keys, at) && n <= |sigs|
    ensures n <= |at|
    ensures IsMatching(c, script, sigs[..n], keys, at[..n])
  {
  }

  function Reversed(s: seq<Element>): (r: seq<Element>)
    ensures |r| == |s| && forall i :: 0 <= i < |s| ==> r[i] == s[|s| - 1 - i]
  {
    seq(|s|, i requires 0 <= i < |s| => s[|s| - 1 - i])
  }

  function ReversedAt(at: seq<nat>, n: nat): (r: seq<nat>)
    requires forall i :: 0 <= i < |at| ==> at[i] < n
    ensures |r| == |at| && forall i :: 0 <= i < |at| ==> r[i] == n - 1 - at[|at| - 1 - i]
  {
    seq(|at|, i requires 0 <= i < |at| => n - 1 - at[|at| - 1 - i])
  }

  /** The order of scanning does not matter as long as both lists turn. */
  lemma ReversedMatches(c: Context, script: Code, sigs: seq<Element>, keys: seq<Element>, at: seq<nat>)
    requires IsMatching(c, script, sigs, keys, at)
    ensures IsMatching(c, script, Reversed(sigs), Reversed(keys), ReversedAt(at, |keys|))
  {
    var r := ReversedAt(at, |keys|);
    forall i | 0 <= i < |r|
      ensures r[i] < |keys| && c.checkSig(Reversed(sigs)[i], Reversed(keys)[r[i]], script)
    {
      var k := |at| - 1 - i;
      assert Reversed(keys)[r[i]] == keys[at[k]];
      assert Reversed(sigs)[i] == sigs[k];
    }
    forall i, j | 0 <= i < j < |r|
      ensures r[i] < r[j]
    {
      assert at[|at| - 1 - j] < at[|at| - 1 - i];
    }
  }

  lemma BlankShows(s: seq<Element>, n: nat)
    requires |s| < n
    ensures [] in Fitted(s, n)
  {
    assert Fitted(s, n)[|s|] == [];
  }

  /** Signatures that fill every slot satisfy the scan over the same keys, repeated keys included. */
  lemma FilledIsMatchable(c: Context, script: Code, keys: seq<Element>, sigs: set<Element>, a: Assignment, n: nat)
    requires Sound(c, script, keys, sigs, a) && [] !in sigs
    requires [] !in Fitted(Collected(a, keys), n)
    ensures Matchable(c, script, Reversed(Fitted(Collected(a, keys), n)), Reversed(keys))
    ensures n <= |keys|
  {
    hide IsMatching, Sound, Collected;
    var found := Collected(a, keys);
    if |found| < n {
      BlankShows(found, n);
      assert false;
    }
    var at := CollectedMatches(c, script, keys, keys, sigs, a);
    MatchingBelow(c, script, found, keys, at);
    PrefixMatches(c, script, found, keys, at, n);
    NoMoreSigsThanKeys(c, script, found[..n], keys, at[..n]);
    MatchingBelow(c, script, found[..n], keys, at[..n]);
    ReversedMatches(c, script, found[..n], keys, at[..n]);
  }

  lemma MatchingBelow(c: Context, script: Code, sigs: seq<Element>, keys: seq<Element>, at: seq<nat>)
    requires IsMatching(c, script, sigs, keys, at)
    ensures |at| == |sigs| && forall i :: 0 <= i < |at| ==> at[i] < |keys|
  {
  }

  // ---------------------------------------------------------------- combining

  /** The keys of a solved multisig script, between its two counts. */
  function Keys(solutions: seq<Element>): seq<Element>
    requires |solutions| > 1
  {
    solutions[1..|solutions| - 1]
  }

  function Supplied(sigs1: seq<Element>, sigs2: seq<Element>): set<Element>
  {
    set s | s in sigs1 + sigs2 && s != []
  }

  /** The merged stack when the signatures were visited in a given order. */
  function CombinedInOrder(c: Context, script: Code, keys: seq<Element>, order: seq<Element>, n: nat): seq<Element>
  {
    [[]] + Fitted(Collected(Assigned(c, script, keys, order), keys), n)
  }

  /** The merged stack comes from visiting each supplied signature once. */
  ghost predicate IsCombination(c: Context, script: Code, keys: seq<Element>, sigs: set<Element>, n: nat,
                                result: seq<Element>)
  {
    exists order :: Lists(order, sigs) && result == CombinedInOrder(c, script, keys, order, n)
  }

  // Which keys get a signature is decided by the checks alone as long as no signature fits two keys.

  predicate Exclusive(c: Context, script: Code, keys: seq<Element>, sigs: set<Element>)
  {
    forall sig, j, k ::
      sig in sigs && j in keys && k in keys && c.checkSig(sig, j, script) && c.checkSig(sig, k, script) ==> j == k
  }

  predicate HasFit(c: Context, script: Code, sigs: set<Element>, key: Element)
  {
    exists sig :: sig in sigs && c.checkSig(sig, key, script)
  }

  /** How many key positions have a fitting signature among the supplied ones. */
  function FittingPositions(c: Context, script: Code, sigs: set<Element>, keys: seq<Element>): nat
  {
    if keys == [] then 0
    else (if HasFit(c, script, sigs, keys[0]) then 1 else 0) + FittingPositions(c, script, sigs, keys[1..])
  }

  lemma AssignedFits(c: Context, script: Code, keys: seq<Element>, sigs: set<Element>, a: Assignment, key: Element)
    requires Sound(c, script, keys, sigs, a)
    ensures key in a ==> HasFit(c, script, sigs, key)
  {
  }

  lemma FitIsAssigned(c: Context, script: Code, keys: seq<Element>, sigs: set<Element>, a: Assignment, key: Element)
    requires Sound(c, script, keys, sigs, a) && Exclusive(c, script, keys, sigs) && key in keys
    requires forall sig :: sig in sigs ==> Settled(c, script, keys, a, sig)
    ensures HasFit(c, script, sigs, key) ==> key in a
  {
    if HasFit(c, script, sigs, key) {
      var sig :| sig in sigs && c.checkSig(sig, key, script);
      assert Settled(c, script, keys, a, sig);
    }
  }

  /** Never more found than fit, and all that fit when no signature fits two keys. */
  lemma {:induction false} CollectedCount(c: Context, script: Code, all: seq<Element>, keys: seq<Element>,
                                          sigs: set<Element>, a: Assignment)
    requires Sound(c, script, all, sigs, a) && forall k :: k in keys ==> k in all
    requires forall sig :: sig in sigs ==> Settled(c, script, all, a, sig)
    ensures |Collected(a, keys)| <= FittingPositions(c, script, sigs, keys)
    ensures Exclusive(c, script, all, sigs) ==> |Collected(a, keys)| == FittingPositions(c, script, sigs, keys)
    decreases |keys|
  {
    hide Sound, Settled, Exclusive, HasFit;
    if keys == [] {
    } else {
      CollectedCount(c, script, all, keys[1..], sigs, a);
      AssignedFits(c, script, all, sigs, a, keys[0]);
      if Exclusive(c, script, all, sigs) { FitIsAssigned(c, script, all, sigs, a, keys[0]); }
    }
  }

  lemma {:induction false} CollectedNonempty(c: Context, script: Code, all: seq<Element>, keys: seq<Element>,
                                             sigs: set<Element>, a: Assignment)
    requires Sound(c, script, all, sigs, a) && [] !in sigs
    ensures [] !in Collected(a, keys)
    decreases |keys|
  {
    if keys == [] {
    } else {
      CollectedNonempty(c, script, all, keys[1..], sigs, a);
    }
  }

  /** Every slot is filled exactly when enough signatures were found. */
  lemma FilledIffEnough(c: Context, script: Code, keys: seq<Element>, sigs: set<Element>, a: Assignment, n: nat)
    requires Sound(c, script, keys, sigs, a) && [] !in sigs
    ensures [] !in Fitted(Collected(a, keys), n) <==> |Collected(a, keys)| >= n
  {
    hide Sound, Collected;
    CollectedNonempty(c, script, keys, keys, sigs, a);
    if |Collected(a, keys)| < n { BlankShows(Collected(a, keys), n); }
  }

  /** The result of a combination, in terms of the signatures supplied. */
  lemma CombinationFills(c: Context, script: Code, keys: seq<Element>, sigs: set<Element>, n: nat,
                         result: seq<Element>)
    requires IsCombination(c, script, keys, sigs, n, result) && [] !in sigs
    ensures |result| == n + 1 && result[0] == []
    ensures [] !in result[1..] ==> Matchable(c, script, Reversed(result[1..]), Reversed(keys))
    ensures [] !in result[1..] ==> FittingPositions(c, script, sigs, keys) >= n
    ensures Exclusive(c, script, keys, sigs) ==>
              ([] !in result[1..] <==> FittingPositions(c, script, sigs, keys) >= n)
  {
    hide Sound, Settled, Exclusive, Fitted, Collected, FittingPositions, Assigned, Matchable;
    var order :| Lists(order, sigs) && result == CombinedInOrder(c, script, keys, order, n);
    var a := Assigned(c, script, keys, order);
    assert result[1..] == Fitted(Collected(a, keys), n);
    AnyOrderAssigns(c, script, keys, order, sigs);
    FilledIffEnough(c, script, keys, sigs, a, n);
    CollectedCount(c, script, keys, keys, sigs, a);
    if [] !in result[1..] { FilledIsMatchable(c, script, keys, sigs, a, n); }
  }

  lemma TwoVisited(c: Context, script: Code, keys: seq<Element>, x: Element, y: Element)
    ensures Assigned(c, script, keys, [x, y]) == Extended(c, script, keys, y, Extended(c, script, keys, x, map[]))
  {
    hide Extended;
    assert [x, y][..1] == [x] && [x][..0] == [];
    assert Assigned(c, script, keys, [x]) == Extended(c, script, keys, x, Assigned(c, script, keys, []));
  }

  lemma TwoExtended(c: Context, script: Code, j: Element, k: Element, sig: Element, a: Assignment)
    ensures Extended(c, script, [j, k], sig, a) ==
            if j !in a && c.checkSig(sig, j, script) then a[j := sig]
            else if k !in a && c.checkSig(sig, k, script) then a[k := sig]
            else a
  {
    hide Settled;
    assert [j, k][1..] == [k] && [k][1..] == [];
    assert Extended(c, script, [k], sig, a)
        == if k !in a && c.checkSig(sig, k, script) then a[k := sig] else Extended(c, script, [], sig, a);
  }

  lemma TwoCollected(a: Assignment, j: Element, k: Element)
    ensures Collected(a, [j, k]) == (if j in a then [a[j]] else []) + (if k in a then [a[k]] else [])
  {
    assert [j, k][1..] == [k] && [k][1..] == [];
    assert Collected(a, [k]) == (if k in a then [a[k]] else []) + Collected(a, []);
  }

  lemma TwoFit(c: Context, script: Code, sigs: set<Element>, j: Element, k: Element)
    requires HasFit(c, script, sigs, j) && HasFit(c, script, sigs, k)
    ensures FittingPositions(c, script, sigs, [j, k]) == 2
  {
    hide HasFit;
    assert [j, k][1..] == [k] && [k][1..] == [];
    assert FittingPositions(c, script, sigs, [k]) == 1 + FittingPositions(c, script, sigs, []);
  }

  /** The shared signature first: it takes the key the other needs. */
  lemma SharedFirst(c: Context, script: Code, j: Element, k: Element, both: Element, only: Element)
    requires c.checkSig(both, j, script) && !c.checkSig(only, k, script)
    ensures Assigned(c, script, [j, k], [both, only]) == map[j := both]
    ensures j != k ==> CombinedInOrder(c, script, [j, k], [both, only], 2) == [[], both, []]
  {
    hide Assigned, Extended, Collected;
    TwoVisited(c, script, [j, k], both, only);
    TwoExtended(c, script, j, k, both, map[]);
    TwoExtended(c, script, j, k, only, map[j := both]);
    TwoCollected(map[j := both], j, k);
  }

  /** The shared signature last: both keys get one. */
  lemma SharedLast(c: Context, script: Code, j: Element, k: Element, both: Element, only: Element)
    requires j != k && c.checkSig(only, j, script) && c.checkSig(both, k, script)
    ensures Assigned(c, script, [j, k], [only, both]) == map[j := only, k := both]
    ensures CombinedInOrder(c, script, [j, k], [only, both], 2) == [[], only, both]
  {
    hide Assigned, Extended, Collected;
    TwoVisited(c, script, [j, k], only, both);
    TwoExtended(c, script, j, k, only, map[]);
    TwoExtended(c, script, j, k, both, map[j := only]);
    TwoCollected(map[j := only, k := both], j, k);
  }

  /** A signature that fits two keys, visited first, takes the one another needs, and a slot stays empty. */
  lemma SharedFitWastes(c: Context, script: Code, j: Element, k: Element, both: Element, only: Element)
    requires j != k && both != only
    requires c.checkSig(both, j, script) && c.checkSig(both, k, script)
    requires c.checkSig(only, j, script) && !c.checkSig(only, k, script)
    ensures Assigned(c, script, [j, k], [both, only]) == map[j := both]
    ensures Assigned(c, script, [j, k], [only, both]) == map[j := only, k := both]
    ensures FittingPositions(c, script, {both, only}, [j, k]) == 2
    ensures IsCombination(c, script, [j, k], {both, only}, 2, [[], both, []])
    ensures IsCombination(c, script, [j, k], {both, only}, 2, [[], only, both])
  {
    hide Assigned, CombinedInOrder, FittingPositions;
    SharedFirst(c, script, j, k, both, only);
    SharedLast(c, script, j, k, both, only);
    TwoFit(c, script, {both, only}, j, k);
    assert Lists([both, only], {both, only}) && Lists([only, both], {both, only});
  }

  method CombineMultisig(c: Context, script: Code, solutions: seq<Element>, sigs1: seq<Element>, sigs2: seq<Element>)
    returns (result: seq<Element>)
    requires |solutions| > 1 && solutions[0] != []
    ensures |result| - 1 == solutions[0][0]
    ensures IsCombination(c, script, Keys(solutions), Supplied(sigs1, sigs2), solutions[0][0], result)
    ensures [] !in result[1..] ==> Matchable(c, script, Reversed(result[1..]), Reversed(Keys(solutions)))
    ensures Exclusive(c, script, Keys(solutions), Supplied(sigs1, sigs2)) ==>
              ([] !in result[1..] <==>
               FittingPositions(c, script, Supplied(sigs1, sigs2), Keys(solutions)) >= solutions[0][0])
  {
    hide Assigned, Lists, Fitted, Collected, Matchable, Exclusive, FittingPositions;
    var set1 := NonEmpty(sigs1);
    var set2 := NonEmpty(sigs2);
    var keys := Keys(solutions);
    assert set1 + set2 == Supplied(sigs1, sigs2);
    var a := Assign(c, script, keys, set1 + set2);
    result := Merge(a, keys, solutions[0][0]);
    CombinationFills(c, script, keys, Supplied(sigs1, sigs2), solutions[0][0], result);
  }

  /** The stack CHECKMULTISIG finds: the combined entries, then the script's own pushes. */
  function MultisigStack(base: seq<Element>, result: seq<Element>, required: nat, keys: seq<Element>): seq<Element>
  {
    base + result + [Encode(required)] + keys + [Encode(|keys|)]
  }

  lemma CountReads(n: nat, minimal: bool)
    requires n <= MAX_KEYS
    ensures ReadNum(Encode(n), minimal, 4) == Some(n)
  {
    hide Encode, Decode, Minimal;
    DecodeEncode(n);
    EncodeMinimal(n);
    assert Pow256(1) == 256;
    EncodeLength(n, 1);
  }

  lemma StackReads(base: seq<Element>, dummy: Element, slots: seq<Element>, keys: seq<Element>)
    ensures var s := MultisigStack(base, [dummy] + slots, |slots|, keys);
            var n := Counts(|keys|, |slots|);
            && |s| == |base| + 3 + |slots| + |keys|
            && Top(s, 1) == Encode(|keys|) && Top(s, 2 + |keys|) == Encode(|slots|)
            && KeysOf(s, n) == Reversed(keys) && SigsOf(s, n) == Reversed(slots)
            && Top(s, 3 + |keys| + |slots|) == dummy && Pop(s, 3 + |keys| + |slots|) == base
  {
    hide Encode;
    var s := MultisigStack(base, [dummy] + slots, |slots|, keys);
    var b := |base| + 1;
    assert s[|base|] == dummy;
    assert s[b..b + |slots|] == slots;
    assert s[b + |slots|] == Encode(|slots|);
    assert s[b + |slots| + 1..b + |slots| + 1 + |keys|] == keys;
    SliceDown(s, 3 + |keys|, slots);
    SliceDown(s, 2, keys);
  }

  lemma SliceDown(s: seq<Element>, k: nat, part: seq<Element>)
    requires 1 <= k && k + |part| <= |s| + 1 && s[|s| + 1 - k - |part|..|s| + 1 - k] == part
    ensures Downward(s, k, |part|) == Reversed(part)
  {
    forall j | 0 <= j < |part|
      ensures Downward(s, k, |part|)[j] == Reversed(part)[j]
    {
      assert Downward(s, k, |part|)[j] == Top(s, k + j);
      assert part[|part| - 1 - j] == s[|s| - k - j];
    }
  }

  lemma CountsRead(c: Context, m: State, base: seq<Element>, dummy: Element, slots: seq<Element>,
                   keys: seq<Element>)
    requires m.stack == MultisigStack(base, [dummy] + slots, |slots|, keys)
    requires |slots| <= |keys| <= MAX_KEYS && m.ops + |keys| <= MAX_OPS
    ensures ReadCounts(c, m) == Ok(Counts(|keys|, |slots|))
  {
    hide Encode, ReadNum, MultisigStack, KeysOf, SigsOf;
    StackReads(base, dummy, slots, keys);
    CountReads(|keys|, c.flags.minimalData);
    CountReads(|slots|, c.flags.minimalData);
  }

  /** A combination without placeholders makes CHECKMULTISIG push true over exactly what lay below. */
  lemma CombinedSatisfies(c: Context, script: Code, m: State, base: seq<Element>, keys: seq<Element>,
                          sigs: set<Element>, a: Assignment, n: nat)
    requires Sound(c, script, keys, sigs, a) && [] !in sigs
    requires var slots := Fitted(Collected(a, keys), n);
             && [] !in slots && WellEncoded(c, Reversed(slots), Reversed(keys))
             && m.stack == MultisigStack(base, [[]] + slots, n, keys)
    requires |keys| <= MAX_KEYS && m.ops + |keys| <= MAX_OPS
    ensures var o := MultisigOp(c, script, OP_CHECKMULTISIG, m);
            o.Continue? && o.state.stack == base + [TRUE_ELEMENT]
  {
    hide Encode, MultisigStack, Collected, Sound, WellEncoded, Scan, ReadCounts, Matchable, KeysOf, SigsOf, Fitted;
    var slots := Fitted(Collected(a, keys), n);
    FilledIsMatchable(c, script, keys, sigs, a, n);
    CountsRead(c, m, base, [], slots, keys);
    StackReads(base, [], slots, keys);
    ScanIffMatchable(c, script, Reversed(slots), Reversed(keys));
  }

  // ---------------------------------------------------------------- pushing a whole stack

  function PushOne(v: Element): Code
  {
    if |v| == 1 && 1 <= v[0] <= 16 then [EncodeOpN(v[0])] else Push(v)
  }

  function PushAllOf(values: seq<Element>): Code
  {
    if values == [] then [] else PushOne(values[0]) + PushAllOf(values[1..])
  }

  method PushAll(values: seq<Element>) returns (result: Code)
    ensures result == PushAllOf(values)
  {
    result := [];
    var i := 0;
    assert values[0..] == values;
    while i < |values|
      invariant i <= |values| && result + PushAllOf(values[i..]) == PushAllOf(values)
    {
      hide PushOne, PushAllOf;
      PushAllStep(values, i);
      var v := values[i];
      var code := if |v| == 0 then [OP_0] else if |v| == 1 && 1 <= v[0] <= 16 then [EncodeOpN(v[0])] else Push(v);
      PushOneBytes(v);
      SeqAssoc(result, code, PushAllOf(values[i + 1..]));
      result := result + code;
      i := i + 1;
    }
  }

  lemma PushOneBytes(v: Element)
    ensures PushOne(v) ==
            if |v| == 0 then [OP_0] else if |v| == 1 && 1 <= v[0] <= 16 then [EncodeOpN(v[0])] else Push(v)
  {
  }

  lemma PushAllStep(values: seq<Element>, i: nat)
    requires i < |values|
    ensures PushAllOf(values[i..]) == PushOne(values[i]) + PushAllOf(values[i + 1..])
  {
    hide PushOne;
    assert values[i..][1..] == values[i + 1..];
  }

  const MINUS_ONE: Element := [0x81]

  lemma GetPushOne(before: Code, v: Element, after: Code)
    requires |v| <= MAX_SCRIPT_ELEMENT_SIZE
    ensures var small := |v| == 1 && 1 <= v[0] <= 16;
            GetOp(before + PushOne(v) + after, |before|) ==
            Some(Instruction(if small then OP_1 + v[0] - 1 else PushOpcode(|v|),
                             if small then [] else v, |before| + |PushOne(v)|))
  {
    hide Push, PushOpcode;
    if |v| == 1 && 1 <= v[0] <= 16 {
      assert (before + PushOne(v) + after)[|before|] == OP_1 + v[0] - 1;
    } else {
      GetPush(before, v, after);
    }
  }

  lemma SmallEncodes(b: byte)
    requires 1 <= b <= 16
    ensures Encode(b) == [b]
  {
    assert MagnitudeBytes(b) == [b] + MagnitudeBytes(0);
  }

  /** One pushed element, executed. */
  lemma PushOneStep(c: Context, before: Code, v: Element, after: Code, m: State)
    requires |v| <= MAX_SCRIPT_ELEMENT_SIZE && m.pc == |before| && m.exec == []
    ensures Step(c, before + PushOne(v) + after, m) ==
            if c.flags.minimalData && v == MINUS_ONE then Abort(MinimalData, m.checks)
            else StackLimited(Continue(m.(pc := |before| + |PushOne(v)|, stack := m.stack + [v])))
  {
    hide GetOp, PushOne, Encode, LockTimeOp, VerifyOp, StackOp, UnaryOp, BinaryOp, Within, HashOp;
    GetPushOne(before, v, after);
    if |v| == 1 && 1 <= v[0] <= 16 {
      SmallEncodes(v[0]);
      assert v == [v[0]];
    } else {
      assert IsLone(v) <==> v == MINUS_ONE;
    }
  }

  predicate IsLone(v: Element) { |v| == 1 && v[0] == 0x81 }

  predicate PushesMinimally(c: Context, values: seq<Element>) { c.flags.minimalData ==> MINUS_ONE !in values }

  /** A row of pushes is executed up to the code after it. */
  lemma {:induction false} RunPushes(c: Context, before: Code, values: seq<Element>, after: Code, m: State)
    requires Small(values) && m.pc == |before| && m.exec == []
    requires |m.stack| + |m.alt| + |values| <= MAX_STACK
    ensures Run(c, before + PushAllOf(values) + after, m) ==
            if PushesMinimally(c, values) then
              Run(c, before + PushAllOf(values) + after,
                  m.(pc := |before| + |PushAllOf(values)|, stack := m.stack + values))
            else Failure(MinimalData, m.checks)
    decreases |values|
  {
    hide Step, PushOne;
    var script := before + PushAllOf(values) + after;
    if values == [] {
      assert m.stack + values == m.stack;
    } else {
      var v, rest := values[0], values[1..];
      assert script == before + PushOne(v) + (PushAllOf(rest) + after);
      assert script == (before + PushOne(v)) + PushAllOf(rest) + after;
      assert values == [v] + rest;
      PushOneStep(c, before, v, PushAllOf(rest) + after, m);
      PushOneGrows(v);
      if !(c.flags.minimalData && v == MINUS_ONE) {
        var next := m.(pc := |before| + |PushOne(v)|, stack := m.stack + [v]);
        RunPushes(c, before + PushOne(v), rest, after, next);
        assert next.stack + rest == m.stack + values;
      }
    }
  }

  lemma RunPushAll(c: Context, values: seq<Element>)
    requires Small(values) && |values| <= MAX_STACK
    ensures Run(c, PushAllOf(values), Start([])) ==
            if PushesMinimally(c, values) then Success(values, 0) else Failure(MinimalData, 0)
  {
    hide Step, PushAllOf, Small, PushesMinimally;
    RunPushes(c, [], values, [], Start([]));
    assert [] + PushAllOf(values) + [] == PushAllOf(values);
    assert [] + values == values;
  }

  lemma PushOneGrows(v: Element)
    ensures PushOne(v) != []
  {
  }

  /**
   * Evaluating the script built from a stack gives that stack back, exactly when the
   * stack and script are within limits and minimal pushes do not meet a lone 0x81.
   */
  lemma PushAllRoundTrip(c: Context, values: seq<Element>)
    requires GoodContext(c)
    ensures Eval(c, PushAllOf(values), []) == Success(values, 0) <==>
            && |PushAllOf(values)| <= MAX_SCRIPT_SIZE && |values| <= MAX_STACK && Small(values)
            && PushesMinimally(c, values)
  {
    hide Run, PushAllOf, GoodContext;
    EvalSmall(c, PushAllOf(values), []);
    if |values| <= MAX_STACK && Small(values) {
      RunPushAll(c, values);
    }
  }

  /** The element the minimal-push rule does not get back. */
  lemma MinusOneIsNotPushedMinimally(c: Context)
    requires c.flags.minimalData
    ensures Eval(c, PushAllOf([MINUS_ONE]), []) == Failure(MinimalData, 0)
  {
    hide Run;
    RunPushAll(c, [MINUS_ONE]);
    assert PushAllOf([MINUS_ONE]) == PushOne(MINUS_ONE) + PushAllOf([]);
  }
}
