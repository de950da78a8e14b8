/** Spending a multisig output with combined signatures, from both script builders to acceptance. */
module MultisigSpend {

  import opened Prelude
  import opened ScriptNum
  import opened Script
  import opened ScriptCounts
  import opened SigEncoding
  import opened Machine
  import opened MachineSafety
  import opened VerifyScript
  import opened Multisig
  import opened Sign

  // ---------------------------------------------------------------- the output script

  function KeyPushes(keys: seq<Element>): Code
  {
    if keys == [] then [] else Push(keys[0]) + KeyPushes(keys[1..])
  }

  /** Required number, keys, their number, CHECKMULTISIG. */
  function MultisigScript(required: nat, keys: seq<Element>): Code
    requires required <= 16 && |keys| <= 16
  {
    [EncodeOpN(required)] + KeyPushes(keys) + [EncodeOpN(|keys|), OP_CHECKMULTISIG]
  }

  method GetScriptForMultisig(required: nat, keys: seq<Element>) returns (script: Code)
    requires required <= 16 && |keys| <= 16
    ensures script == MultisigScript(required, keys)
  {
    script := [EncodeOpN(required)];
    assert keys[0..] == keys;
    for i := 0 to |keys|
      invariant script + KeyPushes(keys[i..]) == [EncodeOpN(required)] + KeyPushes(keys)
    {
      hide Push;
      assert keys[i..][1..] == keys[i + 1..];
      SeqAssoc(script, Push(keys[i]), KeyPushes(keys[i + 1..]));
      script := script + Push(keys[i]);
    }
    script := script + [EncodeOpN(|keys|), OP_CHECKMULTISIG];
  }

  /** The serialisation of a public key is never a single byte. */
  predicate IsKeyBytes(key: Element) { |key| != 1 && |key| <= MAX_SCRIPT_ELEMENT_SIZE }

  predicate AreKeys(keys: seq<Element>) { forall i :: 0 <= i < |keys| ==> IsKeyBytes(keys[i]) }

  /** What the output script pushes before its last instruction. */
  function Pushed(required: nat, keys: seq<Element>): seq<Element>
  {
    [Encode(required)] + keys + [Encode(|keys|)]
  }

  lemma PushCount(n: nat)
    requires n <= 16
    ensures |Encode(n)| <= 1 && Encode(n) != MINUS_ONE && PushOne(Encode(n)) == [EncodeOpN(n)]
  {
    if n == 0 {
      assert Encode(n) == [];
    } else {
      SmallEncodes(n);
    }
  }

  lemma {:induction false} PushKeys(keys: seq<Element>, n: nat)
    requires AreKeys(keys) && n <= 16
    ensures PushAllOf(keys + [Encode(n)]) == KeyPushes(keys) + [EncodeOpN(n)]
    decreases |keys|
  {
    hide Encode, Push;
    PushCount(n);
    if keys == [] {
      assert keys + [Encode(n)] == [Encode(n)];
      assert PushAllOf([Encode(n)]) == PushOne(Encode(n)) + PushAllOf([]);
    } else {
      assert (keys + [Encode(n)])[1..] == keys[1..] + [Encode(n)];
      assert IsKeyBytes(keys[0]);
      PushKeys(keys[1..], n);
    }
  }

  /** The output script is the pushes of its numbers and keys, then CHECKMULTISIG. */
  lemma ScriptPushes(required: nat, keys: seq<Element>)
    requires required <= 16 && |keys| <= 16 && AreKeys(keys)
    ensures MultisigScript(required, keys) == PushAllOf(Pushed(required, keys)) + [OP_CHECKMULTISIG]
  {
    hide Encode, PushOne, KeyPushes, PushAllOf;
    PushCount(required);
    PushKeys(keys, |keys|);
    var rest := keys + [Encode(|keys|)];
    assert Pushed(required, keys) == [Encode(required)] + rest;
    PushFirst(Encode(required), rest);
  }

  lemma PushFirst(v: Element, rest: seq<Element>)
    ensures PushAllOf([v] + rest) == PushOne(v) + PushAllOf(rest)
  {
    hide PushOne;
    assert ([v] + rest)[1..] == rest;
  }

  // ---------------------------------------------------------------- limits

  lemma PushOneSize(v: Element)
    requires |v| <= MAX_SCRIPT_ELEMENT_SIZE
    ensures |PushOne(v)| <= MAX_SCRIPT_ELEMENT_SIZE + 3
  {
  }

  lemma {:induction false} PushAllSize(values: seq<Element>)
    requires Small(values)
    ensures |PushAllOf(values)| <= |values| * (MAX_SCRIPT_ELEMENT_SIZE + 3)
    decreases |values|
  {
    hide PushOne;
    if values == [] {
    } else {
      PushOneSize(values[0]);
      PushAllSize(values[1..]);
    }
  }

  lemma {:induction false} PushAllPushOnly(before: Code, values: seq<Element>)
    requires Small(values)
    ensures PushOnlyFrom(before + PushAllOf(values), |before|)
    decreases |values|
  {
    hide GetOp, PushOne;
    var script := before + PushAllOf(values);
    if values == [] {
    } else {
      var rest := PushAllOf(values[1..]);
      assert script == before + PushOne(values[0]) + rest;
      GetPushOne(before, values[0], rest);
      PushAllPushOnly(before + PushOne(values[0]), values[1..]);
      assert script == (before + PushOne(values[0])) + rest;
    }
  }

  /** An input of at most 18 small elements, none a lone 0x81, pushes exactly them. */
  lemma InputPushes(c: Context, values: seq<Element>)
    requires Small(values) && |values| <= 18 && MINUS_ONE !in values
    ensures PushOnly(PushAllOf(values)) && Eval(c, PushAllOf(values), []) == Success(values, 0)
  {
    hide Run, PushAllOf, Small, PushOnlyFrom;
    PushAllSize(values);
    RunPushAll(c, values);
    PushAllPushOnly([], values);
    assert [] + PushAllOf(values) == PushAllOf(values);
  }

  // ---------------------------------------------------------------- running the output script

  lemma LastStep(c: Context, before: Code, m: State)
    requires m.pc == |before| && m.exec == [] && m.ops == 0
    ensures var script := before + [OP_CHECKMULTISIG];
            Step(c, script, m) == StackLimited(MultisigOp(c, script, OP_CHECKMULTISIG, m.(pc := |script|, ops := 1)))
  {
    hide MultisigOp, PlainOp, CheckSigOp, ControlOp, AltOp;
    var script := before + [OP_CHECKMULTISIG];
    assert GetOp(script, m.pc) == Some(Instruction(OP_CHECKMULTISIG, [], |script|));
  }

  lemma PushedIsSmall(required: nat, keys: seq<Element>)
    requires required <= 16 && |keys| <= 16 && AreKeys(keys)
    ensures Small(Pushed(required, keys)) && MINUS_ONE !in Pushed(required, keys)
  {
    hide Encode, PushOne;
    PushCount(required);
    PushCount(|keys|);
    forall i | 0 <= i < |keys|
      ensures keys[i] != MINUS_ONE
    {
      assert IsKeyBytes(keys[i]);
    }
  }

  /** How a run ends with its last instruction. */
  function AtEnd(o: Outcome): EvalResult
  {
    match o
    case Abort(e, n) => Failure(e, n)
    case Continue(next) => Success(next.stack, next.checks)
  }

  lemma MultisigShrinks(c: Context, script: Code, m: State)
    requires |m.stack| + |m.alt| <= MAX_STACK
    ensures var o := MultisigOp(c, script, OP_CHECKMULTISIG, m);
            StackLimited(o) == o && (o.Continue? ==> o.state.exec == m.exec)
  {
    hide ReadCounts, Scan, KeysOf, SigsOf;
  }

  /** The output script brings its own elements over the input's and leaves the rest to CHECKMULTISIG. */
  lemma OutputRuns(c: Context, required: nat, keys: seq<Element>, stack: seq<Element>)
    requires required <= 16 && |keys| <= 16 && AreKeys(keys) && |stack| <= 18
    ensures var script := MultisigScript(required, keys);
            var full := stack + Pushed(required, keys);
            var last := MultisigOp(c, script, OP_CHECKMULTISIG, State(|script|, full, [], [], 1, 0));
            Eval(c, script, stack) == AtEnd(last)
  {
    hide Step, MultisigOp, PushAllOf, Small, Pushed, MultisigScript;
    var pushed, before := Pushed(required, keys), PushAllOf(Pushed(required, keys));
    ScriptPushes(required, keys);
    PushedIsSmall(required, keys);
    PushedLength(required, keys);
    PushAllSize(pushed);
    RunPushes(c, [], pushed, [OP_CHECKMULTISIG], Start(stack));
    assert [] + before + [OP_CHECKMULTISIG] == MultisigScript(required, keys);
    LastStep(c, before, State(|before|, stack + pushed, [], [], 0, 0));
    MultisigShrinks(c, MultisigScript(required, keys), State(|before| + 1, stack + pushed, [], [], 1, 0));
  }

  lemma PushedLength(required: nat, keys: seq<Element>)
    ensures |Pushed(required, keys)| == |keys| + 2
  {
  }

  lemma TooManyRequired(c: Context, m: State, dummy: Element, slots: seq<Element>, keys: seq<Element>)
    requires m.stack == MultisigStack([], [dummy] + slots, |slots|, keys)
    requires |keys| < |slots| <= MAX_KEYS && m.ops + |keys| <= MAX_OPS
    ensures ReadCounts(c, m) == Err(SigCount)
  {
    hide Encode, ReadNum, MultisigStack, KeysOf, SigsOf;
    StackReads([], dummy, slots, keys);
    CountReads(|keys|, c.flags.minimalData);
    CountReads(|slots|, c.flags.minimalData);
  }

  /**
   * The output script's verdict on the extra element and the slots: whether they match the keys in order, unless
   * more are required than there are keys, or the extra element must be empty and is not.
   */
  lemma OutputDecides(c: Context, dummy: Element, keys: seq<Element>, slots: seq<Element>)
    requires |slots| <= 16 && |keys| <= 16 && AreKeys(keys)
    requires WellEncoded(c, Reversed(slots), Reversed(keys))
    ensures var script := MultisigScript(|slots|, keys);
            var r := Eval(c, script, [dummy] + slots);
            if |slots| > |keys| then r.Failure? && r.error == SigCount
            else if c.flags.nullDummy && dummy != [] then r.Failure? && r.error == SigNullDummy
            else r.Success? && r.stack == [FromBool(Matchable(c, script, Reversed(slots), Reversed(keys)))]
  {
    hide Encode, WellEncoded, Scan, ReadCounts, Matchable, KeysOf, SigsOf, Eval, MultisigScript, MultisigStack;
    var script := MultisigScript(|slots|, keys);
    var full := [dummy] + slots + Pushed(|slots|, keys);
    var m := State(|script|, full, [], [], 1, 0);
    SameStack(dummy, slots, keys);
    OutputRuns(c, |slots|, keys, [dummy] + slots);
    if |slots| > |keys| {
      TooManyRequired(c, m, dummy, slots, keys);
    } else {
      CountsRead(c, m, [], dummy, slots, keys);
      StackReads([], dummy, slots, keys);
      ScanIffMatchable(c, script, Reversed(slots), Reversed(keys));
    }
  }

  lemma SameStack(dummy: Element, slots: seq<Element>, keys: seq<Element>)
    ensures [dummy] + slots + Pushed(|slots|, keys) == MultisigStack([], [dummy] + slots, |slots|, keys)
  {
    hide Encode;
  }

  // ---------------------------------------------------------------- the static counts of the output script

  /** The opcode of the last of the pushes, or `last` when there is none. */
  function LastPushed(keys: seq<Element>, last: byte): byte
  {
    if keys == [] then last else LastPushed(keys[1..], PushOpcode(|keys[0]|))
  }

  lemma {:induction false} KeysNoSigOps(before: Code, keys: seq<Element>, after: Code, last: byte, accurate: bool)
    requires AreKeys(keys)
    ensures SigOpsFrom(before + KeyPushes(keys) + after, |before|, last, accurate)
         == SigOpsFrom(before + KeyPushes(keys) + after, |before| + |KeyPushes(keys)|, LastPushed(keys, last), accurate)
    decreases |keys|
  {
    hide Push, GetOp, SigOpsFrom, PushOpcode;
    if keys == [] {
    } else {
      var rest := KeyPushes(keys[1..]);
      assert before + KeyPushes(keys) + after == before + Push(keys[0]) + (rest + after);
      PushedStep(before, keys[0], rest + after, last, accurate);
      assert before + KeyPushes(keys) + after == (before + Push(keys[0])) + rest + after;
      KeysNoSigOps(before + Push(keys[0]), keys[1..], after, PushOpcode(|keys[0]|), accurate);
    }
  }

  lemma OpSigOps(before: Code, op: byte, after: Code, last: byte, accurate: bool)
    requires op > OP_PUSHDATA4 || op == OP_0
    ensures SigOpsFrom(before + [op] + after, |before|, last, accurate)
         == SigOpCost(op, last, accurate) + SigOpsFrom(before + [op] + after, |before| + 1, op, accurate)
  {
    assert (before + [op] + after)[|before|] == op;
  }

  lemma EndSigOps(script: Code, last: byte, accurate: bool)
    ensures SigOpsFrom(script, |script|, last, accurate) == 0
  {
  }

  /** An m-of-n output costs n accurately and twenty by the legacy rule. */
  lemma MultisigSigOps(required: nat, keys: seq<Element>)
    requires required <= 16 && 1 <= |keys| <= 16 && AreKeys(keys)
    ensures SigOps(MultisigScript(required, keys), true) == |keys|
    ensures SigOps(MultisigScript(required, keys), false) == 20
  {
    hide SigOpsFrom, KeyPushes;
    ScriptSigOps(required, keys, true);
    ScriptSigOps(required, keys, false);
  }

  lemma ScriptSigOps(required: nat, keys: seq<Element>, accurate: bool)
    requires required <= 16 && 1 <= |keys| <= 16 && AreKeys(keys)
    ensures SigOps(MultisigScript(required, keys), accurate) == SigOpCost(OP_CHECKMULTISIG, EncodeOpN(|keys|), accurate)
  {
    hide SigOpsFrom, KeyPushes, GetOp;
    var script, n := MultisigScript(required, keys), EncodeOpN(|keys|);
    var first, pushes := [EncodeOpN(required)], KeyPushes(keys);
    assert script == [] + first + (pushes + [n, OP_CHECKMULTISIG]);
    OpSigOps([], EncodeOpN(required), pushes + [n, OP_CHECKMULTISIG], OP_INVALIDOPCODE, accurate);
    KeysNoSigOps(first, keys, [n, OP_CHECKMULTISIG], EncodeOpN(required), accurate);
    assert script == (first + pushes) + [n] + [OP_CHECKMULTISIG];
    OpSigOps(first + pushes, n, [OP_CHECKMULTISIG], LastPushed(keys, EncodeOpN(required)), accurate);
    assert script == (first + pushes + [n]) + [OP_CHECKMULTISIG] + [];
    OpSigOps(first + pushes + [n], OP_CHECKMULTISIG, [], n, accurate);
    EndSigOps(script, OP_CHECKMULTISIG, accurate);
  }

  // ---------------------------------------------------------------- the combined input

  /** No supplied signature and no key is refused for its encoding, and nobody signs with nothing. */
  predicate Presentable(c: Context, script: Code, keys: seq<Element>, sigs: set<Element>)
  {
    && [] !in sigs && (forall s :: s in sigs ==> SigEncodingError(c, s).None?)
    && (c.flags.strictEnc ==> forall i :: 0 <= i < |keys| ==> IsCompressedOrUncompressedPubKey(keys[i]))
    && forall i :: 0 <= i < |keys| ==> !c.checkSig([], keys[i], script)
  }

  lemma {:induction false} CollectedSupplied(c: Context, script: Code, all: seq<Element>, keys: seq<Element>,
                                             sigs: set<Element>, a: Assignment)
    requires Sound(c, script, all, sigs, a)
    ensures forall s :: s in Collected(a, keys) ==> s in sigs
    decreases |keys|
  {
    if keys == [] {
    } else {
      CollectedSupplied(c, script, all, keys[1..], sigs, a);
    }
  }

  /** Every slot holds a supplied signature or nothing. */
  lemma SlotsSupplied(c: Context, script: Code, keys: seq<Element>, sigs: set<Element>, n: nat, result: seq<Element>)
    requires IsCombination(c, script, keys, sigs, n, result)
    ensures |result| == n + 1 && result == [[]] + result[1..]
    ensures forall s :: s in result ==> s == [] || s in sigs
  {
    hide Assigned, Collected, Sound, Settled;
    var order :| Lists(order, sigs) && result == CombinedInOrder(c, script, keys, order, n);
    AnyOrderAssigns(c, script, keys, order, sigs);
    CollectedSupplied(c, script, keys, keys, sigs, Assigned(c, script, keys, order));
  }

  lemma SlotsSmall(c: Context, script: Code, keys: seq<Element>, sigs: set<Element>, slots: seq<Element>)
    requires Presentable(c, script, keys, sigs) && forall s :: s in slots ==> s == [] || s in sigs
    ensures Small(slots) && MINUS_ONE !in slots
  {
    hide IsDefinedHashtype, IsCompressedOrUncompressedPubKey;
    forall i | 0 <= i < |slots|
      ensures |slots[i]| <= 73 && slots[i] != MINUS_ONE
    {
      assert slots[i] in slots;
    }
  }

  lemma SlotsEncoded(c: Context, script: Code, keys: seq<Element>, sigs: set<Element>, slots: seq<Element>)
    requires Presentable(c, script, keys, sigs) && forall s :: s in slots ==> s == [] || s in sigs
    ensures WellEncoded(c, Reversed(slots), Reversed(keys))
  {
    hide IsValidSignatureEncoding, IsDefinedHashtype, IsCompressedOrUncompressedPubKey;
    var turned, turnedKeys := Reversed(slots), Reversed(keys);
    forall i, j | 0 <= i < |turned| && 0 <= j < |turnedKeys|
      ensures EncodingError(c, turned[i], turnedKeys[j]).None?
    {
      assert turned[i] in slots;
    }
  }

  lemma BlankUnmatched(c: Context, script: Code, keys: seq<Element>, sigs: set<Element>, slots: seq<Element>)
    requires Presentable(c, script, keys, sigs) && [] in slots
    ensures !Matchable(c, script, Reversed(slots), Reversed(keys))
  {
    hide SigEncodingError, IsCompressedOrUncompressedPubKey;
    var i :| 0 <= i < |slots| && slots[i] == [];
    assert Reversed(slots)[|slots| - 1 - i] == [];
    if at: seq<nat> :| IsMatching(c, script, Reversed(slots), Reversed(keys), at) {
      assert false;
    }
  }

  /** What the script leaves when it runs on a combination: true alone, or nothing true. */
  lemma CombinedRuns(c: Context, keys: seq<Element>, sigs: set<Element>, n: nat, result: seq<Element>)
    requires n <= 16 && |keys| <= 16 && AreKeys(keys) && Presentable(c, MultisigScript(n, keys), keys, sigs)
    requires IsCombination(c, MultisigScript(n, keys), keys, sigs, n, result)
    ensures var r := Eval(c, MultisigScript(n, keys), result);
            && (Holds(r) <==> [] !in result[1..])
            && (Holds(r) ==> NoOtherElement(r))
  {
    hide Eval, MultisigScript, WellEncoded, Matchable, IsCombination, Exclusive, FittingPositions, Decode;
    hide SigEncodingError, IsCompressedOrUncompressedPubKey;
    var script := MultisigScript(n, keys);
    SlotsSupplied(c, script, keys, sigs, n, result);
    var slots := result[1..];
    SlotsEncoded(c, script, keys, sigs, slots);
    OutputDecides(c, [], keys, slots);
    CombinationFills(c, script, keys, sigs, n, result);
    BoolsAsElements();
    if [] in slots {
      BlankUnmatched(c, script, keys, sigs, slots);
    } else if n > |keys| {
      TooManySigs(c, script, Reversed(slots), Reversed(keys));
      assert false;
    }
  }

  lemma NotScriptHash(required: nat, keys: seq<Element>)
    requires required <= 16 && |keys| <= 16
    ensures !IsPayToScriptHash(MultisigScript(required, keys))
    ensures |MultisigScript(required, keys)| >= 3
  {
    hide KeyPushes;
    assert MultisigScript(required, keys)[0] == EncodeOpN(required);
  }

  /**
   * The combined input spends the output exactly when no slot stayed empty; and when no
   * signature fits two keys, exactly when enough key positions have a fitting signature.
   */
  lemma CombinedSpends(c: Context, keys: seq<Element>, sigs: set<Element>, n: nat, result: seq<Element>)
    requires n <= 16 && |keys| <= 16 && AreKeys(keys) && Presentable(c, MultisigScript(n, keys), keys, sigs)
    requires IsCombination(c, MultisigScript(n, keys), keys, sigs, n, result)
    ensures Accepts(c, PushAllOf(result), MultisigScript(n, keys)) <==> [] !in result[1..]
    ensures Exclusive(c, MultisigScript(n, keys), keys, sigs) ==>
              (Accepts(c, PushAllOf(result), MultisigScript(n, keys)) <==>
               FittingPositions(c, MultisigScript(n, keys), sigs, keys) >= n)
  {
    hide Eval, MultisigScript, PushAllOf, PushOnly, IsCombination, Exclusive, FittingPositions, Holds, NoOtherElement;
    hide IsPayToScriptHash, SigEncodingError, IsCompressedOrUncompressedPubKey, Redeems, Matchable, Small;
    var script := MultisigScript(n, keys);
    SlotsSupplied(c, script, keys, sigs, n, result);
    SlotsSmall(c, script, keys, sigs, result);
    InputPushes(c, result);
    NotScriptHash(n, keys);
    CombinedRuns(c, keys, sigs, n, result);
    CombinationFills(c, script, keys, sigs, n, result);
  }

  /** The same through pay-to-script-hash, with the multisig script pushed last. */
  lemma CombinedRedeems(c: Context, keys: seq<Element>, sigs: set<Element>, n: nat, result: seq<Element>, output: Code)
    requires n <= 16 && |keys| <= 16 && AreKeys(keys) && Presentable(c, MultisigScript(n, keys), keys, sigs)
    requires IsCombination(c, MultisigScript(n, keys), keys, sigs, n, result)
    requires c.flags.p2sh && IsPayToScriptHash(output) && output[2..22] == c.hash160(MultisigScript(n, keys))
    requires |MultisigScript(n, keys)| <= MAX_SCRIPT_ELEMENT_SIZE
    ensures Accepts(c, PushAllOf(result + [MultisigScript(n, keys)]), output) <==> [] !in result[1..]
  {
    hide Eval, MultisigScript, PushAllOf, PushOnly, IsCombination, Holds, NoOtherElement;
    hide IsPayToScriptHash, SigEncodingError, IsCompressedOrUncompressedPubKey, Small;
    var script := MultisigScript(n, keys);
    var values := result + [script];
    SlotsSupplied(c, script, keys, sigs, n, result);
    SlotsSmall(c, script, keys, sigs, result);
    PushedSmall(result, script);
    NotScriptHash(n, keys);
    InputPushes(c, values);
    PayToScriptHashMeaning(c, output, values);
    assert Top(values, 1) == script && Pop(values, 1) == result;
    CombinedRuns(c, keys, sigs, n, result);
  }
}
