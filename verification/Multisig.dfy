/** Matching signatures to keys: what the greedy scan decides. */
module Multisig {

  import opened ScriptNum
  import opened Script
  import opened Machine

  /** `at` sends each signature to a later key than the one before, and each pair checks. */
  ghost predicate IsMatching(c: Context, script: Code, sigs: seq<Element>, keys: seq<Element>, at: seq<nat>)
  {
    && |at| == |sigs|
    && (forall i :: 0 <= i < |at| ==> at[i] < |keys|)
    && (forall i, j :: 0 <= i < j < |at| ==> at[i] < at[j])
    && (forall i :: 0 <= i < |at| ==> c.checkSig(sigs[i], keys[at[i]], script))
  }

  ghost predicate Matchable(c: Context, script: Code, sigs: seq<Element>, keys: seq<Element>)
  {
    exists at: seq<nat> :: IsMatching(c, script, sigs, keys, at)
  }

  /** No signature or key is refused for its encoding. */
  predicate WellEncoded(c: Context, sigs: seq<Element>, keys: seq<Element>)
  {
    forall i, j :: 0 <= i < |sigs| && 0 <= j < |keys| ==> EncodingError(c, sigs[i], keys[j]).None?
  }

  function Shift(at: seq<nat>): (r: seq<nat>)
    ensures |r| == |at|
    ensures forall i :: 0 <= i < |at| ==> r[i] == at[i] + 1
  {
    seq(|at|, i requires 0 <= i < |at| => at[i] + 1)
  }

  function Unshift(at: seq<nat>): (r: seq<nat>)
    requires forall i :: 0 <= i < |at| ==> at[i] > 0
    ensures |r| == |at|
    ensures forall i :: 0 <= i < |at| ==> r[i] == at[i] - 1
  {
    seq(|at|, i requires 0 <= i < |at| => at[i] - 1)
  }

  lemma NoMoreSigsThanKeys(c: Context, script: Code, sigs: seq<Element>, keys: seq<Element>, at: seq<nat>)
    requires IsMatching(c, script, sigs, keys, at)
    ensures |sigs| <= |keys|
  {
    if |at| > 0 { AtLeastIndex(at, |at| - 1); }
  }

  lemma {:induction false} AtLeastIndex(at: seq<nat>, i: nat)
    requires i < |at| && forall i, j :: 0 <= i < j < |at| ==> at[i] < at[j]
    ensures at[i] >= i
    decreases i
  {
    if i == 0 {
    } else {
      AtLeastIndex(at, i - 1);
    }
  }

  lemma SkipKey(c: Context, script: Code, sigs: seq<Element>, keys: seq<Element>, at: seq<nat>)
    requires keys != [] && IsMatching(c, script, sigs, keys[1..], at)
    ensures IsMatching(c, script, sigs, keys, Shift(at))
  {
  }

  lemma TakeKey(c: Context, script: Code, sigs: seq<Element>, keys: seq<Element>, at: seq<nat>)
    requires sigs != [] && keys != [] && c.checkSig(sigs[0], keys[0], script)
    requires IsMatching(c, script, sigs[1..], keys[1..], at)
    ensures IsMatching(c, script, sigs, keys, [0] + Shift(at))
  {
    var s := Shift(at);
    var all := [0] + s;
    forall i | 0 <= i < |all|
      ensures all[i] < |keys| && c.checkSig(sigs[i], keys[all[i]], script)
    {
      if i > 0 { assert sigs[i] == sigs[1..][i - 1] && keys[all[i]] == keys[1..][at[i - 1]]; }
    }
  }

  /** Any matching of all the signatures leaves one of the rest among the later keys. */
  lemma DropFirstSig(c: Context, script: Code, sigs: seq<Element>, keys: seq<Element>, at: seq<nat>)
    requires sigs != [] && keys != [] && IsMatching(c, script, sigs, keys, at)
    requires forall i :: 0 <= i < |at[1..]| ==> at[1..][i] > 0
    ensures IsMatching(c, script, sigs[1..], keys[1..], Unshift(at[1..]))
  {
    var u := Unshift(at[1..]);
    forall i | 0 <= i < |u|
      ensures u[i] < |keys[1..]| && c.checkSig(sigs[1..][i], keys[1..][u[i]], script)
    {
      assert at[i + 1] == at[1..][i];
    }
  }

  lemma DropFirstKey(c: Context, script: Code, sigs: seq<Element>, keys: seq<Element>, at: seq<nat>)
    requires sigs != [] && keys != [] && IsMatching(c, script, sigs, keys, at)
    requires forall i :: 0 <= i < |at| ==> at[i] > 0
    ensures IsMatching(c, script, sigs, keys[1..], Unshift(at))
  {
  }

  /** One iteration of the scan keeps matchability. */
  lemma GreedyStep(c: Context, script: Code, sigs: seq<Element>, keys: seq<Element>)
    requires sigs != [] && keys != []
    ensures Matchable(c, script, sigs, keys) <==>
            Matchable(c, script, if c.checkSig(sigs[0], keys[0], script) then sigs[1..] else sigs, keys[1..])
  {
    hide IsMatching, Shift, Unshift;
    var ok := c.checkSig(sigs[0], keys[0], script);
    var left := if ok then sigs[1..] else sigs;
    if Matchable(c, script, left, keys[1..]) {
      var at: seq<nat> :| IsMatching(c, script, left, keys[1..], at);
      if ok { TakeKey(c, script, sigs, keys, at); } else { SkipKey(c, script, sigs, keys, at); }
    }
    if Matchable(c, script, sigs, keys) {
      var at: seq<nat> :| IsMatching(c, script, sigs, keys, at);
      if ok {
        TailPositive(c, script, sigs, keys, at);
        DropFirstSig(c, script, sigs, keys, at);
      } else {
        AllPositive(c, script, sigs, keys, at);
        DropFirstKey(c, script, sigs, keys, at);
      }
    }
  }

  lemma TailPositive(c: Context, script: Code, sigs: seq<Element>, keys: seq<Element>, at: seq<nat>)
    requires sigs != [] && IsMatching(c, script, sigs, keys, at)
    ensures |at| > 0 && forall i :: 0 <= i < |at[1..]| ==> at[1..][i] > 0
  {
    forall i | 0 <= i < |at[1..]|
      ensures at[1..][i] > 0
    {
      assert at[1..][i] == at[i + 1] > at[0];
    }
  }

  lemma AllPositive(c: Context, script: Code, sigs: seq<Element>, keys: seq<Element>, at: seq<nat>)
    requires sigs != [] && keys != [] && IsMatching(c, script, sigs, keys, at)
    requires !c.checkSig(sigs[0], keys[0], script)
    ensures forall i :: 0 <= i < |at| ==> at[i] > 0
  {
  }

  lemma NothingToMatch(c: Context, script: Code, keys: seq<Element>)
    ensures Matchable(c, script, [], keys)
  {
    assert IsMatching(c, script, [], keys, []);
  }

  lemma WellEncodedStep(c: Context, sigs: seq<Element>, keys: seq<Element>)
    requires WellEncoded(c, sigs, keys) && sigs != [] && keys != []
    ensures EncodingError(c, sigs[0], keys[0]).None?
    ensures WellEncoded(c, sigs, keys[1..]) && WellEncoded(c, sigs[1..], keys[1..])
  {
    hide EncodingError;
  }

  /** The greedy scan with early exit succeeds exactly when an order-preserving matching exists. */
  lemma {:induction false} ScanIffMatchable(c: Context, script: Code, sigs: seq<Element>, keys: seq<Element>)
    requires |sigs| <= |keys| && WellEncoded(c, sigs, keys)
    ensures Scan(c, script, sigs, keys).Scanned?
    ensures Scan(c, script, sigs, keys).success <==> Matchable(c, script, sigs, keys)
    decreases |keys|
  {
    hide EncodingError, WellEncoded, IsMatching, Matchable;
    if sigs == [] {
      NothingToMatch(c, script, keys);
    } else {
      WellEncodedStep(c, sigs, keys);
      GreedyStep(c, script, sigs, keys);
      var left := if c.checkSig(sigs[0], keys[0], script) then sigs[1..] else sigs;
      if |left| <= |keys| - 1 {
        ScanIffMatchable(c, script, left, keys[1..]);
      } else {
        TooManySigs(c, script, left, keys[1..]);
      }
    }
  }

  lemma TooManySigs(c: Context, script: Code, sigs: seq<Element>, keys: seq<Element>)
    requires |sigs| > |keys|
    ensures !Matchable(c, script, sigs, keys)
  {
    hide IsMatching;
    if Matchable(c, script, sigs, keys) {
      var at: seq<nat> :| IsMatching(c, script, sigs, keys, at);
      NoMoreSigsThanKeys(c, script, sigs, keys, at);
      assert false;
    }
  }
}
