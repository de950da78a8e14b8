/** Verification of an input script against an output script, pay-to-script-hash included. */
module VerifyScript {

  import opened Prelude
  import opened ScriptNum
  import opened Script
  import opened Machine
  import opened MachineSafety
  import opened Interpreter

  /** A run that ends with a true element on top. */
  predicate Holds(r: EvalResult)
  {
    r.Success? && r.stack != [] && IsTrue(Top(r.stack, 1))
  }

  predicate Redeems(c: Context, pushed: seq<Element>)
  {
    pushed != [] && Holds(Eval(c, Top(pushed, 1), Pop(pushed, 1)))
  }

  predicate NoOtherElement(r: EvalResult) { r.Success? && |r.stack| == 1 }

  /** The pair is valid: what the input pushes satisfies the output, and the script it hashes to. */
  predicate Accepts(c: Context, scriptSig: Code, scriptPubKey: Code)
  {
    var f := c.flags;
    var first := Eval(c, scriptSig, []);
    && (f.sigPushOnly ==> PushOnly(scriptSig))
    && first.Success?
    && Holds(Eval(c, scriptPubKey, first.stack))
    && if f.p2sh && IsPayToScriptHash(scriptPubKey) then
         && PushOnly(scriptSig)
         && Redeems(c, first.stack)
         && (f.cleanStack ==> NoOtherElement(Eval(c, Top(first.stack, 1), Pop(first.stack, 1))))
       else
         f.cleanStack ==> NoOtherElement(Eval(c, scriptPubKey, first.stack))
  }

  /** A pay-to-script-hash output is satisfied exactly by a script with that hash on top. */
  lemma PayToScriptHashMeaning(c: Context, scriptPubKey: Code, stack: seq<Element>)
    requires IsPayToScriptHash(scriptPubKey) && |stack| <= MAX_STACK
    ensures Holds(Eval(c, scriptPubKey, stack)) <==>
            0 < |stack| < MAX_STACK && c.hash160(Top(stack, 1)) == scriptPubKey[2..22]
  {
    hide Eval, Decode;
    PayToScriptHashEval(c, scriptPubKey, stack);
    BoolsAsElements();
  }

  lemma BoolsAsElements()
    ensures IsTrue(TRUE_ELEMENT) && !IsTrue(FALSE_ELEMENT)
  {
    assert Unsigned([1]) == [1];
    assert Magnitude([1]) == 1 + 256 * Magnitude([]);
  }

  // ---------------------------------------------------------------- what each rule adds

  /** The last script that runs: the redeem script of a pay-to-script-hash output, or else the output script. */
  function LastRun(c: Context, scriptSig: Code, scriptPubKey: Code): EvalResult
  {
    var first := Eval(c, scriptSig, []);
    if first.Failure? then first
    else if c.flags.p2sh && IsPayToScriptHash(scriptPubKey) && first.stack != [] then
      Eval(c, Top(first.stack, 1), Pop(first.stack, 1))
    else Eval(c, scriptPubKey, first.stack)
  }

  function WithCleanStack(c: Context, b: bool): Context { Reflagged(c, c.flags.p2sh, c.flags.sigPushOnly, b) }

  function WithPushOnly(c: Context, b: bool): Context { Reflagged(c, c.flags.p2sh, b, c.flags.cleanStack) }

  /** The scripts of a pair give the same results under either setting of the rules. */
  lemma PairIgnores(c: Context, d: Context, scriptSig: Code, scriptPubKey: Code)
    requires SameMachine(c, d)
    ensures Eval(d, scriptSig, []) == Eval(c, scriptSig, [])
    ensures var first := Eval(c, scriptSig, []);
            first.Success? ==>
              && Eval(d, scriptPubKey, first.stack) == Eval(c, scriptPubKey, first.stack)
              && (first.stack != [] ==>
                    var redeem, rest := Top(first.stack, 1), Pop(first.stack, 1);
                    Eval(d, redeem, rest) == Eval(c, redeem, rest))
  {
    hide Eval;
    var first := Eval(c, scriptSig, []);
    EvalIgnores(c, d, scriptSig, []);
    if first.Success? {
      EvalIgnores(c, d, scriptPubKey, first.stack);
      if first.stack != [] { EvalIgnores(c, d, Top(first.stack, 1), Pop(first.stack, 1)); }
    }
  }

  /** The clean-stack rule: accepted without it, and the last script leaves exactly one element. */
  lemma CleanStackIff(c: Context, scriptSig: Code, scriptPubKey: Code)
    ensures Accepts(WithCleanStack(c, true), scriptSig, scriptPubKey) <==>
            Accepts(WithCleanStack(c, false), scriptSig, scriptPubKey) &&
            NoOtherElement(LastRun(c, scriptSig, scriptPubKey))
  {
    hide Eval, PushOnly, IsPayToScriptHash, Decode;
    PairIgnores(c, WithCleanStack(c, true), scriptSig, scriptPubKey);
    PairIgnores(c, WithCleanStack(c, false), scriptSig, scriptPubKey);
  }

  /** The push-only rule: accepted without it, and the input only pushes. */
  lemma SigPushOnlyIff(c: Context, scriptSig: Code, scriptPubKey: Code)
    ensures Accepts(WithPushOnly(c, true), scriptSig, scriptPubKey) <==>
            Accepts(WithPushOnly(c, false), scriptSig, scriptPubKey) && PushOnly(scriptSig)
  {
    hide Eval, PushOnly, IsPayToScriptHash, Decode;
    PairIgnores(c, WithPushOnly(c, true), scriptSig, scriptPubKey);
    PairIgnores(c, WithPushOnly(c, false), scriptSig, scriptPubKey);
  }

  /** The rule on or off, without the clean-stack rule that builds on it. */
  function WithScriptHash(c: Context, b: bool): Context { Reflagged(c, b, c.flags.sigPushOnly, false) }

  predicate InputRedeems(c: Context, scriptSig: Code)
  {
    var first := Eval(c, scriptSig, []);
    first.Success? && Redeems(c, first.stack)
  }

  /** The pay-to-script-hash rule, alone: accepted without it, and the template's input pushes a script that redeems. */
  lemma ScriptHashRuleIff(c: Context, scriptSig: Code, scriptPubKey: Code)
    ensures var off, on := WithScriptHash(c, false), WithScriptHash(c, true);
            Accepts(on, scriptSig, scriptPubKey) <==>
            && Accepts(off, scriptSig, scriptPubKey)
            && (IsPayToScriptHash(scriptPubKey) ==> PushOnly(scriptSig) && InputRedeems(c, scriptSig))
  {
    hide Eval, PushOnly, IsPayToScriptHash, Holds, NoOtherElement;
    PairIgnores(c, WithScriptHash(c, false), scriptSig, scriptPubKey);
    PairIgnores(c, WithScriptHash(c, true), scriptSig, scriptPubKey);
  }

  // ---------------------------------------------------------------- when each error is returned

  predicate EndsFalse(r: EvalResult) { r.Success? && !Holds(r) }

  /** The input was let through and both it and the output script ran to their ends. */
  predicate BothRan(c: Context, scriptSig: Code, scriptPubKey: Code)
  {
    && (c.flags.sigPushOnly ==> PushOnly(scriptSig)) && Eval(c, scriptSig, []).Success?
    && Eval(c, scriptPubKey, Eval(c, scriptSig, []).stack).Success?
  }

  /** Both ran, the output script was satisfied, and it is the template with the rule in force. */
  predicate ReachesTemplate(c: Context, scriptSig: Code, scriptPubKey: Code)
  {
    && BothRan(c, scriptSig, scriptPubKey) && Holds(Eval(c, scriptPubKey, Eval(c, scriptSig, []).stack))
    && c.flags.p2sh && IsPayToScriptHash(scriptPubKey)
  }

  /** Why the pair is refused, case by case. */
  ghost predicate Explains(c: Context, scriptSig: Code, scriptPubKey: Code, error: Option<ScriptError>)
  {
    var first := Eval(c, scriptSig, []);
    && (error == Some(SigPushOnly) <==>
          !PushOnly(scriptSig) && (c.flags.sigPushOnly || ReachesTemplate(c, scriptSig, scriptPubKey)))
    && (error == Some(EvalFalse) <==>
          || (BothRan(c, scriptSig, scriptPubKey) && EndsFalse(Eval(c, scriptPubKey, first.stack)))
          || (ReachesTemplate(c, scriptSig, scriptPubKey) && PushOnly(scriptSig)
              && EndsFalse(LastRun(c, scriptSig, scriptPubKey))))
    && (error == Some(CleanStack) <==>
          Accepts(WithCleanStack(c, false), scriptSig, scriptPubKey) && !Accepts(c, scriptSig, scriptPubKey))
    && (error.Some? && !IsPairError(error.value) ==> FirstFailure(c, scriptSig, scriptPubKey, error.value))
  }

  /** The error is that of the first script that failed. */
  predicate FirstFailure(c: Context, scriptSig: Code, scriptPubKey: Code, e: ScriptError)
  {
    var first := Eval(c, scriptSig, []);
    if first.Failure? then first.error == e
    else
      var second := Eval(c, scriptPubKey, first.stack);
      if second.Failure? then second.error == e
      else
        var last := LastRun(c, scriptSig, scriptPubKey);
        last.Failure? && last.error == e
  }

  // ---------------------------------------------------------------- the redeem script is the counted one

  lemma LoneByteNoSigOps(b: byte)
    requires 0 < b <= 16 || b == 0x81
    ensures SigOps([b], true) == 0
  {
    if b == 0x81 {
      assert GetOp([b], 0) == Some(Instruction(b, [], 1));
      assert GetOp([b], 1) == None;
      assert SigOpsFrom([b], 1, b, true) == 0;
    } else {
      assert GetOp([b], 0) == None;
    }
  }

  lemma SmallNumberByte(op: byte)
    requires op == OP_1NEGATE || IsSmallInt(op)
    ensures Encode(op - (OP_1 - 1)) == [if op == OP_1NEGATE then 0x81 else op - (OP_1 - 1)]
  {
    var v := op - (OP_1 - 1);
    assert MagnitudeBytes(Abs(v)) == [Abs(v)] + MagnitudeBytes(0);
  }

  /** The top of the stack is the last pushed data, or a number without signature operations. */
  predicate TopCounted(m: State, data: Element)
  {
    m.stack != [] ==> SigOps(Top(m.stack, 1), true) <= SigOps(data, true)
  }

  lemma PushStepCounted(c: Context, script: Code, m: State)
    requires m.pc < |script| && m.exec == [] && PushOnlyFrom(script, m.pc)
    ensures var o := Step(c, script, m);
            o.Continue? ==>
              && o.state.pc == GetOp(script, m.pc).value.next && o.state.exec == []
              && o.state.stack != [] && TopCounted(o.state, GetOp(script, m.pc).value.data)
  {
    hide GetOp, SigOps, IsDisabled, CheckMinimalPush, Encode, LockTimeOp, VerifyOp, StackOp, UnaryOp, BinaryOp,
      Within, HashOp;
    var i := GetOp(script, m.pc).value;
    if i.opcode == OP_1NEGATE || IsSmallInt(i.opcode) {
      SmallNumberByte(i.opcode);
      LoneByteNoSigOps(if i.opcode == OP_1NEGATE then 0x81 else i.opcode - (OP_1 - 1));
    }
  }

  lemma {:induction false} PushRunCounted(c: Context, script: Code, m: State, data: Element)
    requires m.pc <= |script| && m.exec == [] && PushOnlyFrom(script, m.pc) && TopCounted(m, data)
    ensures var r := Run(c, script, m);
            r.Success? && r.stack != [] ==>
              SigOps(Top(r.stack, 1), true) <= SigOps(LastData(script, m.pc, data), true)
    decreases |script| - m.pc
  {
    hide Step, GetOp, SigOps;
    if m.pc == |script| {
    } else {
      PushStepCounted(c, script, m);
      var o := Step(c, script, m);
      if o.Continue? { PushRunCounted(c, script, o.state, GetOp(script, m.pc).value.data); }
    }
  }

  /** The script a push-only input supplies is counted by the output's signature-operation count. */
  lemma RedeemScriptCounted(c: Context, scriptSig: Code, scriptPubKey: Code)
    requires IsPayToScriptHash(scriptPubKey) && PushOnly(scriptSig)
    ensures var r := Eval(c, scriptSig, []);
            r.Success? && r.stack != [] ==>
              SigOps(Top(r.stack, 1), true) <= SigOpsSpending(scriptPubKey, scriptSig)
  {
    hide Run, SigOps, LastData;
    if |scriptSig| <= MAX_SCRIPT_SIZE { PushRunCounted(c, scriptSig, Start([]), []); }
  }

  // ---------------------------------------------------------------- the procedure

  /** The signature checks an input may cost, from the static counts alone. */
  function CheckBound(c: Context, scriptSig: Code, scriptPubKey: Code): nat
  {
    SigOps(scriptSig, true) +
    if c.flags.p2sh then SigOpsSpending(scriptPubKey, scriptSig) else SigOps(scriptPubKey, true)
  }

  /** The checks of the output script alone stay within its count. */
  lemma OutputChecks(c: Context, scriptSig: Code, scriptPubKey: Code, stack: seq<Element>)
    requires |stack| <= MAX_STACK
    ensures Eval(c, scriptPubKey, stack).checks
         <= if c.flags.p2sh then SigOpsSpending(scriptPubKey, scriptSig) else SigOps(scriptPubKey, true)
    ensures IsPayToScriptHash(scriptPubKey) ==> Eval(c, scriptPubKey, stack).checks == 0
  {
    hide Eval, SigOps, LastData;
    EvalChecks(c, scriptPubKey, stack);
    if IsPayToScriptHash(scriptPubKey) { PayToScriptHashEval(c, scriptPubKey, stack); }
  }

  /** How the last run decides. */
  function Finished(c: Context, r: EvalResult): Option<ScriptError>
  {
    if r.Failure? then Some(r.error)
    else if !Holds(r) then Some(EvalFalse)
    else if c.flags.cleanStack && |r.stack| != 1 then Some(CleanStack)
    else None
  }

  /** The order in which the procedure looks for a reason to refuse. */
  function Verdict(c: Context, scriptSig: Code, scriptPubKey: Code): Option<ScriptError>
  {
    var first := Eval(c, scriptSig, []);
    if c.flags.sigPushOnly && !PushOnly(scriptSig) then Some(SigPushOnly)
    else if first.Failure? then Some(first.error)
    else
      var second := Eval(c, scriptPubKey, first.stack);
      if second.Failure? then Some(second.error)
      else if !Holds(second) then Some(EvalFalse)
      else if c.flags.p2sh && IsPayToScriptHash(scriptPubKey) && !PushOnly(scriptSig) then Some(SigPushOnly)
      else Finished(c, LastRun(c, scriptSig, scriptPubKey))
  }

  /** A satisfied template leaves something to redeem with. */
  lemma TemplateInput(c: Context, scriptSig: Code, scriptPubKey: Code)
    requires GoodContext(c) && ReachesTemplate(c, scriptSig, scriptPubKey)
    ensures Eval(c, scriptSig, []).stack != []
  {
    hide Eval, GoodContext, IsPayToScriptHash, Decode;
    SmallStart(c, scriptSig);
    PayToScriptHashMeaning(c, scriptPubKey, Eval(c, scriptSig, []).stack);
  }

  lemma VerdictAccepts(c: Context, scriptSig: Code, scriptPubKey: Code)
    requires GoodContext(c)
    ensures Verdict(c, scriptSig, scriptPubKey).None? <==> Accepts(c, scriptSig, scriptPubKey)
  {
    hide Eval, GoodContext, PushOnly, IsPayToScriptHash, Decode;
    if ReachesTemplate(c, scriptSig, scriptPubKey) { TemplateInput(c, scriptSig, scriptPubKey); }
  }

  /** Dropping the clean-stack rule changes the verdict only where that rule gave it. */
  lemma VerdictWithoutClean(c: Context, scriptSig: Code, scriptPubKey: Code)
    ensures var v := Verdict(c, scriptSig, scriptPubKey);
            Verdict(WithCleanStack(c, false), scriptSig, scriptPubKey) == if v == Some(CleanStack) then None else v
  {
    hide Eval, PushOnly, IsPayToScriptHash, Decode;
    PairIgnores(c, WithCleanStack(c, false), scriptSig, scriptPubKey);
    PairErrors(c, scriptSig, scriptPubKey);
  }

  lemma StillGood(c: Context, d: Context)
    requires GoodContext(c) && SameMachine(c, d)
    ensures GoodContext(d)
  {
  }

  lemma VerdictExplained(c: Context, scriptSig: Code, scriptPubKey: Code)
    requires GoodContext(c)
    ensures Explains(c, scriptSig, scriptPubKey, Verdict(c, scriptSig, scriptPubKey))
  {
    hide Eval, GoodContext, PushOnly, IsPayToScriptHash, Accepts, Holds;
    VerdictAccepts(c, scriptSig, scriptPubKey);
    StillGood(c, WithCleanStack(c, false));
    VerdictAccepts(WithCleanStack(c, false), scriptSig, scriptPubKey);
    VerdictWithoutClean(c, scriptSig, scriptPubKey);
    PairErrors(c, scriptSig, scriptPubKey);
  }

  method VerifyScript(c: Context, scriptSig: Code, scriptPubKey: Code)
    returns (error: Option<ScriptError>, checks: nat)
    requires GoodContext(c)
    requires c.flags.cleanStack ==> c.flags.p2sh
    ensures error.None? <==> Accepts(c, scriptSig, scriptPubKey)
    ensures Explains(c, scriptSig, scriptPubKey, error)
    ensures checks <= CheckBound(c, scriptSig, scriptPubKey)
  {
    hide Eval, SigOps, SigOpsSpending, Decode, PushOnly, IsPayToScriptHash, GoodContext, Small, Accepts, Explains;
    VerdictAccepts(c, scriptSig, scriptPubKey);
    VerdictExplained(c, scriptSig, scriptPubKey);
    checks := 0;
    var pushOnly := IsPushOnly(scriptSig);
    if c.flags.sigPushOnly && !pushOnly { return Some(SigPushOnly), 0; }
    EvalChecks(c, scriptSig, []);
    SmallStart(c, scriptSig);
    var r := EvalScript(c, scriptSig, []);
    checks := r.checks;
    if r.Failure? { return Some(r.error), checks; }
    var stackCopy := r.stack;
    OutputChecks(c, scriptSig, scriptPubKey, stackCopy);
    r := EvalScript(c, scriptPubKey, stackCopy);
    checks := checks + r.checks;
    if r.Failure? { return Some(r.error), checks; }
    if r.stack == [] { return Some(EvalFalse), checks; }
    if !IsTrue(Top(r.stack, 1)) { return Some(EvalFalse), checks; }
    if c.flags.p2sh && IsPayToScriptHash(scriptPubKey) {
      if !pushOnly { return Some(SigPushOnly), checks; }
      PayToScriptHashMeaning(c, scriptPubKey, stackCopy);
      assert stackCopy != [];
      var redeem, rest := Top(stackCopy, 1), Pop(stackCopy, 1);
      RedeemScriptCounted(c, scriptSig, scriptPubKey);
      EvalChecks(c, redeem, rest);
      r := EvalScript(c, redeem, rest);
      checks := checks + r.checks;
      if r.Failure? { return Some(r.error), checks; }
      if r.stack == [] { return Some(EvalFalse), checks; }
      if !IsTrue(Top(r.stack, 1)) { return Some(EvalFalse), checks; }
    }
    if c.flags.cleanStack && |r.stack| != 1 { return Some(CleanStack), checks; }
    return None, checks;
  }

  lemma SmallStart(c: Context, script: Code)
    requires GoodContext(c)
    ensures var r := Eval(c, script, []);
            r.Success? ==> |r.stack| <= MAX_STACK
  {
    hide Eval, GoodContext;
    EvalSmall(c, script, []);
  }

  lemma PairErrors(c: Context, scriptSig: Code, scriptPubKey: Code)
    ensures var first := Eval(c, scriptSig, []);
            if first.Failure? then !IsPairError(first.error)
            else
              var second, last := Eval(c, scriptPubKey, first.stack), LastRun(c, scriptSig, scriptPubKey);
              (second.Failure? ==> !IsPairError(second.error)) && (last.Failure? ==> !IsPairError(last.error))
  {
    hide Eval, IsPayToScriptHash;
    var first := Eval(c, scriptSig, []);
    EvalErrors(c, scriptSig, []);
    if first.Success? {
      EvalErrors(c, scriptPubKey, first.stack);
      if first.stack != [] { EvalErrors(c, Top(first.stack, 1), Pop(first.stack, 1)); }
    }
  }
}
