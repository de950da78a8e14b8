/** Spending an output with one signature: pay-to-pubkey and pay-to-pubkey-hash, from the bytes to acceptance. */
module PubkeySpend {

  import opened Prelude
  import opened ScriptNum
  import opened Script
  import opened ScriptCounts
  import opened SigEncoding
  import opened Machine
  import opened VerifyScript
  import opened Sign
  import opened MultisigSpend

  // ---------------------------------------------------------------- single steps

  /** An operation that is not a push, executed outside any branch. */
  lemma OpStep(c: Context, script: Code, m: State)
    requires m.pc < |script| && script[m.pc] > OP_16 && !IsDisabled(script[m.pc]) && m.exec == [] && m.ops < MAX_OPS
    ensures Step(c, script, m)
         == StackLimited(Dispatch(c, script, script[m.pc], m.(pc := m.pc + 1, ops := m.ops + 1)))
  {
    hide Dispatch;
  }

  /** A push by the data operator, executed. */
  lemma PushStep(c: Context, before: Code, v: Element, after: Code, m: State)
    requires |v| < 0x1_0000_0000 && m.pc == |before| && m.exec == []
    ensures Step(c, before + Push(v) + after, m) ==
            if |v| > MAX_SCRIPT_ELEMENT_SIZE then Abort(PushSize, m.checks)
            else if c.flags.minimalData && !CheckMinimalPush(v, PushOpcode(|v|)) then Abort(MinimalData, m.checks)
            else StackLimited(Continue(m.(pc := |before| + |Push(v)|, stack := m.stack + [v])))
  {
    hide GetOp, Push, PushHeader, Dispatch, CheckMinimalPush;
    GetPush(before, v, after);
  }

  /** Pushes of key bytes, hashes and signatures are minimal. */
  lemma LongPushMinimal(v: Element)
    requires |v| != 1 && |v| <= MAX_SCRIPT_ELEMENT_SIZE
    ensures CheckMinimalPush(v, PushOpcode(|v|)) && PushOne(v) == Push(v)
  {
  }

  lemma OneStep(c: Context, script: Code, m: State, next: State)
    requires m.pc < |script| && Step(c, script, m) == Continue(next)
    ensures next.pc <= |script| && Run(c, script, m) == Run(c, script, next)
  {
    hide Step;
  }

  lemma LastFails(c: Context, script: Code, m: State, e: ScriptError, n: nat)
    requires m.pc < |script| && Step(c, script, m) == Abort(e, n)
    ensures Run(c, script, m) == Failure(e, n)
  {
    hide Step;
  }

  lemma AtTheEnd(c: Context, script: Code, m: State)
    requires m.pc == |script| && m.exec == []
    ensures Run(c, script, m) == Success(m.stack, m.checks)
  {
  }

  // ---------------------------------------------------------------- pay to pubkey

  function PubkeyScript(key: Element): Code { Push(key) + [OP_CHECKSIG] }

  function PubkeyVerifyScript(key: Element): Code { Push(key) + [OP_CHECKSIGVERIFY] }

  /** A key pushed and one operation, on any stack. */
  lemma KeyThenOp(c: Context, key: Element, op: byte, stack: seq<Element>)
    requires IsKeyBytes(key) && op > OP_16 && !IsDisabled(op) && |stack| < MAX_STACK
    ensures var script := Push(key) + [op];
            var next := StackLimited(Dispatch(c, script, op, State(|script|, stack + [key], [], [], 1, 0)));
            && (next.Abort? ==> Eval(c, script, stack) == Failure(next.error, next.checks))
            && (next.Continue? && next.state.exec == [] ==>
                  Eval(c, script, stack) == Success(next.state.stack, next.state.checks))
  {
    hide Step, Run, Dispatch, Push, PushHeader, CheckMinimalPush;
    var script := Push(key) + [op];
    KeyScriptSize(key, op);
    LongPushMinimal(key);
    assert [] + Push(key) + [op] == script;
    PushStep(c, [], key, [op], Start(stack));
    var m := State(|Push(key)|, stack + [key], [], [], 0, 0);
    PushNotEmpty(key);
    OneStep(c, script, Start(stack), m);
    OpStep(c, script, m);
    var next := Step(c, script, m);
    if next.Abort? {
      LastFails(c, script, m, next.error, next.checks);
    } else {
      OneStep(c, script, m, next.state);
      EndsThere(c, script, m);
      if next.state.exec == [] { AtTheEnd(c, script, next.state); }
    }
  }

  lemma EndsThere(c: Context, script: Code, m: State)
    requires m.pc + 1 == |script| && Step(c, script, m).Continue?
    ensures Step(c, script, m).state.pc == |script|
  {
    hide Step;
  }

  lemma PushNotEmpty(v: Element)
    ensures Push(v) != []
  {
  }

  lemma KeyScriptSize(key: Element, op: byte)
    requires IsKeyBytes(key)
    ensures |Push(key) + [op]| <= MAX_SCRIPT_SIZE
  {
  }

  lemma TopTwo(base: seq<Element>, sig: Element, key: Element)
    ensures var s := base + [sig] + [key];
            Top(s, 2) == sig && Top(s, 1) == key && Pop(s, 2) == base
  {
  }

  /** What pay-to-pubkey computes: the check of the signature, once, against this very script. */
  lemma PubkeyEval(c: Context, base: seq<Element>, sig: Element, key: Element)
    requires IsKeyBytes(key) && |base| + 2 <= MAX_STACK
    ensures Eval(c, PubkeyScript(key), base + [sig]) ==
            match EncodingError(c, sig, key)
            case Some(e) => Failure(e, 0)
            case None => Success(base + [FromBool(c.checkSig(sig, key, PubkeyScript(key)))], 1)
  {
    hide Eval, EncodingError, Push;
    KeyThenOp(c, key, OP_CHECKSIG, base + [sig]);
    TopTwo(base, sig, key);
  }

  /** The verifying form: the same check, but a failed one ends the run. */
  lemma PubkeyVerifyEval(c: Context, base: seq<Element>, sig: Element, key: Element)
    requires IsKeyBytes(key) && |base| + 2 <= MAX_STACK
    ensures Eval(c, PubkeyVerifyScript(key), base + [sig]) ==
            match EncodingError(c, sig, key)
            case Some(e) => Failure(e, 0)
            case None =>
              if c.checkSig(sig, key, PubkeyVerifyScript(key)) then Success(base, 1) else Failure(CheckSigVerify, 1)
  {
    hide Eval, EncodingError, Push;
    KeyThenOp(c, key, OP_CHECKSIGVERIFY, base + [sig]);
    TopTwo(base, sig, key);
  }

  /** Its static count is the one check it makes. */
  lemma PubkeySigOps(key: Element, accurate: bool)
    requires IsKeyBytes(key)
    ensures SigOps(PubkeyScript(key), accurate) == SigOps(PubkeyVerifyScript(key), accurate) == 1
  {
    hide SigOpsFrom, Push;
    OneSigOp(key, OP_CHECKSIG, accurate);
    OneSigOp(key, OP_CHECKSIGVERIFY, accurate);
  }

  lemma OneSigOp(key: Element, op: byte, accurate: bool)
    requires IsKeyBytes(key) && op > OP_PUSHDATA4
    ensures SigOps(Push(key) + [op], accurate) == SigOpCost(op, PushOpcode(|key|), accurate)
  {
    hide SigOpsFrom, Push, PushOpcode;
    assert [] + Push(key) + [op] == Push(key) + [op];
    PushedStep([], key, [op], OP_INVALIDOPCODE, accurate);
    assert Push(key) + [op] + [] == Push(key) + [op];
    OpSigOps(Push(key), op, [], PushOpcode(|key|), accurate);
    EndSigOps(Push(key) + [op], op, accurate);
  }

  // ---------------------------------------------------------------- pay to pubkey hash

  /** The output script for a key hash. */
  function PubkeyHashScript(h: Element): Code
  {
    [OP_DUP, OP_HASH160] + Push(h) + [OP_EQUALVERIFY, OP_CHECKSIG]
  }

  lemma HashScriptBytes(h: Element)
    requires |h| == 20
    ensures var s := PubkeyHashScript(h);
            && |s| == 25 && s[0] == OP_DUP && s[1] == OP_HASH160 && s[23] == OP_EQUALVERIFY && s[24] == OP_CHECKSIG
            && |Push(h)| == 21 && !IsPayToScriptHash(s)
  {
  }

  lemma DupStep(c: Context, h: Element, base: seq<Element>, key: Element)
    requires |h| == 20 && |base| + 3 <= MAX_STACK
    ensures Step(c, PubkeyHashScript(h), Start(base + [key])) == Continue(State(1, base + [key] + [key], [], [], 1, 0))
  {
    hide UnaryOp, BinaryOp, Within, LockTimeOp, VerifyOp, HashOp, CheckSigOp, MultisigOp, PickOrRoll, PubkeyHashScript;
    HashScriptBytes(h);
    OpStep(c, PubkeyHashScript(h), Start(base + [key]));
  }

  lemma HashStep(c: Context, h: Element, s: seq<Element>, key: Element)
    requires |h| == 20 && |s| + 1 <= MAX_STACK
    ensures Step(c, PubkeyHashScript(h), State(1, s + [key], [], [], 1, 0))
         == Continue(State(2, s + [c.hash160(key)], [], [], 2, 0))
  {
    hide UnaryOp, BinaryOp, Within, LockTimeOp, VerifyOp, StackOp, CheckSigOp, MultisigOp, PubkeyHashScript;
    HashScriptBytes(h);
    OpStep(c, PubkeyHashScript(h), State(1, s + [key], [], [], 1, 0));
    assert Pop(s + [key], 1) == s;
  }

  lemma HashPushStep(c: Context, h: Element, s: seq<Element>)
    requires |h| == 20 && |s| < MAX_STACK
    ensures Step(c, PubkeyHashScript(h), State(2, s, [], [], 2, 0)) == Continue(State(23, s + [h], [], [], 2, 0))
  {
    hide Step, Push;
    HashScriptBytes(h);
    LongPushMinimal(h);
    PushStep(c, [OP_DUP, OP_HASH160], h, [OP_EQUALVERIFY, OP_CHECKSIG], State(2, s, [], [], 2, 0));
  }

  lemma EqualVerifyStep(c: Context, h: Element, s: seq<Element>, x: Element)
    requires |h| == 20 && |s| <= MAX_STACK
    ensures Step(c, PubkeyHashScript(h), State(23, s + [x] + [h], [], [], 2, 0)) ==
            if x == h then Continue(State(24, s, [], [], 3, 0)) else Abort(EqualVerify, 0)
  {
    hide UnaryOp, BinaryOp, Within, LockTimeOp, VerifyOp, HashOp, CheckSigOp, MultisigOp, PickOrRoll, PubkeyHashScript;
    HashScriptBytes(h);
    TopTwo(s, x, h);
    OpStep(c, PubkeyHashScript(h), State(23, s + [x] + [h], [], [], 2, 0));
    assert Pop(Pop(s + [x] + [h], 1), 1) == s;
    assert Pop(s + [FromBool(true)], 1) == s;
  }

  lemma CheckStep(c: Context, h: Element, base: seq<Element>, sig: Element, key: Element)
    requires |h| == 20 && |base| < MAX_STACK && EncodingError(c, sig, key).None?
    ensures var script := PubkeyHashScript(h);
            Step(c, script, State(24, base + [sig] + [key], [], [], 3, 0))
            == Continue(State(25, base + [FromBool(c.checkSig(sig, key, script))], [], [], 4, 1))
  {
    hide UnaryOp, BinaryOp, Within, LockTimeOp, VerifyOp, HashOp, MultisigOp, StackOp, PubkeyHashScript, EncodingError;
    HashScriptBytes(h);
    TopTwo(base, sig, key);
    OpStep(c, PubkeyHashScript(h), State(24, base + [sig] + [key], [], [], 3, 0));
  }

  lemma CheckRefused(c: Context, h: Element, base: seq<Element>, sig: Element, key: Element)
    requires |h| == 20 && |base| < MAX_STACK && EncodingError(c, sig, key).Some?
    ensures Step(c, PubkeyHashScript(h), State(24, base + [sig] + [key], [], [], 3, 0))
         == Abort(EncodingError(c, sig, key).value, 0)
  {
    hide UnaryOp, BinaryOp, Within, LockTimeOp, VerifyOp, HashOp, MultisigOp, StackOp, PubkeyHashScript, EncodingError;
    HashScriptBytes(h);
    TopTwo(base, sig, key);
    OpStep(c, PubkeyHashScript(h), State(24, base + [sig] + [key], [], [], 3, 0));
  }

  /** What pay-to-pubkey-hash computes: the key must hash to h, and then its signature is checked once. */
  lemma PubkeyHashEval(c: Context, h: Element, base: seq<Element>, sig: Element, key: Element)
    requires |h| == 20 && |base| + 4 <= MAX_STACK
    ensures Eval(c, PubkeyHashScript(h), base + [sig] + [key]) ==
            if c.hash160(key) != h then Failure(EqualVerify, 0)
            else match EncodingError(c, sig, key)
                 case Some(e) => Failure(e, 0)
                 case None => Success(base + [FromBool(c.checkSig(sig, key, PubkeyHashScript(h)))], 1)
  {
    hide Step, Run, EncodingError, PubkeyHashScript;
    var script, s := PubkeyHashScript(h), base + [sig];
    HashScriptBytes(h);
    DupStep(c, h, s, key);
    OneStep(c, script, Start(s + [key]), State(1, s + [key] + [key], [], [], 1, 0));
    HashStep(c, h, s + [key], key);
    OneStep(c, script, State(1, s + [key] + [key], [], [], 1, 0), State(2, s + [key] + [c.hash160(key)], [], [], 2, 0));
    HashPushStep(c, h, s + [key] + [c.hash160(key)]);
    var full := State(23, s + [key] + [c.hash160(key)] + [h], [], [], 2, 0);
    OneStep(c, script, State(2, s + [key] + [c.hash160(key)], [], [], 2, 0), full);
    EqualVerifyStep(c, h, s + [key], c.hash160(key));
    if c.hash160(key) != h {
      LastFails(c, script, full, EqualVerify, 0);
    } else {
      OneStep(c, script, full, State(24, s + [key], [], [], 3, 0));
      CheckedLast(c, h, base, sig, key);
    }
  }

  lemma CheckedLast(c: Context, h: Element, base: seq<Element>, sig: Element, key: Element)
    requires |h| == 20 && |base| < MAX_STACK && |PubkeyHashScript(h)| == 25
    ensures Run(c, PubkeyHashScript(h), State(24, base + [sig] + [key], [], [], 3, 0)) ==
            match EncodingError(c, sig, key)
            case Some(e) => Failure(e, 0)
            case None => Success(base + [FromBool(c.checkSig(sig, key, PubkeyHashScript(h)))], 1)
  {
    hide Step, EncodingError, PubkeyHashScript;
    if EncodingError(c, sig, key).Some? {
      CheckRefused(c, h, base, sig, key);
    } else {
      CheckStep(c, h, base, sig, key);
    }
  }

  // ---------------------------------------------------------------- acceptance

  /** An input that pushes a row of elements fails or leaves exactly them. */
  lemma {:induction false} PushesOrFails(c: Context, before: Code, v: Element, after: Code, m: State)
    requires m.pc == |before| && m.exec == [] && |v| < 0x1_0000_0000
    ensures var script := before + Push(v) + after;
            || Run(c, script, m).Failure?
            || Run(c, script, m) == Run(c, script, m.(pc := |before| + |Push(v)|, stack := m.stack + [v]))
  {
    hide Step, Push, CheckMinimalPush;
    PushStep(c, before, v, after, m);
    PushNotEmpty(v);
  }

  lemma InputLeaves(c: Context, sig: Element, key: Element)
    requires IsKeyBytes(key)
    ensures var r := Eval(c, Push(sig) + Push(key), []);
            r.Failure? || r == Success([sig, key], 0)
  {
    hide Run, Push;
    var script := Push(sig) + Push(key);
    if |script| <= MAX_SCRIPT_SIZE {
      PushGrows(sig);
      assert [] + Push(sig) + Push(key) == script;
      PushesOrFails(c, [], sig, Push(key), Start([]));
      var m := State(|Push(sig)|, [sig], [], [], 0, 0);
      assert Push(sig) + Push(key) + [] == script;
      assert [] + [sig] == [sig];
      PushesOrFails(c, Push(sig), key, [], m);
      assert [sig] + [key] == [sig, key];
      AtTheEnd(c, script, State(|script|, [sig, key], [], [], 0, 0));
    }
  }

  lemma OneInputLeaves(c: Context, sig: Element)
    ensures var r := Eval(c, Push(sig), []);
            r.Failure? || r == Success([sig], 0)
  {
    hide Run, Push;
    if |Push(sig)| <= MAX_SCRIPT_SIZE {
      PushGrows(sig);
      assert [] + Push(sig) + [] == Push(sig);
      PushesOrFails(c, [], sig, [], Start([]));
      assert [] + [sig] == [sig];
      AtTheEnd(c, Push(sig), State(|Push(sig)|, [sig], [], [], 0, 0));
    }
  }

  lemma PushGrows(v: Element)
    ensures |v| < |Push(v)|
  {
  }

  /** A signature that is not refused for its encoding is empty or has 9 to 73 bytes. */
  lemma EncodedIsShort(c: Context, sig: Element, key: Element)
    requires EncodingError(c, sig, key).None?
    ensures |sig| != 1 && |sig| <= 73
  {
    hide IsDefinedHashtype, IsCompressedOrUncompressedPubKey;
  }

  lemma SpendInput(c: Context, sig: Element, key: Element)
    requires IsKeyBytes(key) && EncodingError(c, sig, key).None?
    ensures Push(sig) + Push(key) == PushAllOf([sig, key]) && Push(sig) == PushAllOf([sig])
    ensures PushOnly(Push(sig) + Push(key)) && Eval(c, Push(sig) + Push(key), []) == Success([sig, key], 0)
    ensures PushOnly(Push(sig)) && Eval(c, Push(sig), []) == Success([sig], 0)
  {
    hide EncodingError, Eval, Push, PushOnly;
    EncodedIsShort(c, sig, key);
    LongPushMinimal(sig);
    LongPushMinimal(key);
    assert PushAllOf([key]) == PushOne(key) + PushAllOf([]);
    assert [sig, key][1..] == [key];
    assert PushAllOf([sig]) == PushOne(sig) + PushAllOf([]);
    InputPushes(c, [sig, key]);
    InputPushes(c, [sig]);
  }

  /** Pay-to-pubkey-hash: accepted exactly with a key of that hash and a signature that checks against it. */
  lemma PubkeyHashSpends(c: Context, h: Element, sig: Element, key: Element)
    requires |h| == 20 && IsKeyBytes(key)
    ensures Accepts(c, Push(sig) + Push(key), PubkeyHashScript(h)) <==>
            && c.hash160(key) == h && EncodingError(c, sig, key).None?
            && c.checkSig(sig, key, PubkeyHashScript(h))
  {
    hide Eval, EncodingError, PubkeyHashScript, Push, PushOnly, IsPayToScriptHash, Decode, Redeems;
    var script := PubkeyHashScript(h);
    HashScriptBytes(h);
    InputLeaves(c, sig, key);
    PubkeyHashEval(c, h, [], sig, key);
    assert [] + [sig] + [key] == [sig, key];
    BoolsAsElements();
    if EncodingError(c, sig, key).None? { SpendInput(c, sig, key); }
  }

  lemma NotTemplate(key: Element)
    requires IsKeyBytes(key)
    ensures !IsPayToScriptHash(PubkeyScript(key))
  {
    if |key| < 76 {
      assert PubkeyScript(key)[0] == |key|;
    }
  }

  /** Pay-to-pubkey: accepted exactly with a signature that checks against the key. */
  lemma PubkeySpends(c: Context, sig: Element, key: Element)
    requires IsKeyBytes(key)
    ensures Accepts(c, Push(sig), PubkeyScript(key)) <==>
            EncodingError(c, sig, key).None? && c.checkSig(sig, key, PubkeyScript(key))
  {
    hide Eval, EncodingError, PubkeyScript, Push, PushOnly, IsPayToScriptHash, Decode, Redeems;
    NotTemplate(key);
    OneInputLeaves(c, sig);
    PubkeyEval(c, [], sig, key);
    assert [] + [sig] == [sig];
    BoolsAsElements();
    if EncodingError(c, sig, key).None? { SpendInput(c, sig, key); }
  }
}
