/** The interpreter's loops, and what the pay-to-script-hash template computes. */
module Interpreter {

  import opened Prelude
  import opened ScriptNum
  import opened Script
  import opened SigEncoding
  import opened Machine

  lemma {:induction false} ZerosAreZero(s: seq<byte>)
    requires forall k :: 0 <= k < |s| ==> s[k] == 0
    ensures Magnitude(s) == 0
  {
    if s == [] {
    } else {
      ZerosAreZero(s[1..]);
    }
  }

  lemma {:induction false} SomeByteIsNonzero(s: seq<byte>, k: nat)
    requires k < |s| && s[k] != 0
    ensures Magnitude(s) != 0
  {
    if k == 0 {
    } else {
      SomeByteIsNonzero(s[1..], k - 1);
    }
  }

  /** Zero of either sign and any length is false; everything else is true. */
  method CastToBool(v: Element) returns (b: bool)
    ensures b == IsTrue(v)
  {
    hide Magnitude;
    var i := 0;
    while i < |v|
      invariant i <= |v| && forall k :: 0 <= k < i ==> v[k] == 0
    {
      if v[i] != 0 {
        if i == |v| - 1 && v[i] == 0x80 {
          ZerosAreZero(Unsigned(v));
          return false;
        }
        SomeByteIsNonzero(Unsigned(v), i);
        return true;
      }
      i := i + 1;
    }
    if v != [] { ZerosAreZero(Unsigned(v)); }
    return false;
  }

  lemma DownwardTail(s: seq<Element>, k: nat, n: nat)
    requires 1 <= k && k + n <= |s| + 1 && n > 0
    ensures Downward(s, k, n)[0] == Top(s, k)
    ensures Downward(s, k, n)[1..] == Downward(s, k + 1, n - 1)
  {
  }

  /** The scan loop, with its indices into the stack. */
  method ScanLoop(c: Context, script: Code, s: seq<Element>, n: Counts) returns (r: ScanResult)
    requires n.sigs <= n.keys && 3 + n.keys + n.sigs <= |s|
    ensures r == Scan(c, script, SigsOf(s, n), KeysOf(s, n))
  {
    hide EncodingError, Downward;
    var ikey, isig := 2, 3 + n.keys;
    var nKeys: nat, nSigs: nat := n.keys, n.sigs;
    var success := true;
    var calls: nat := 0;
    while success && nSigs > 0
      invariant ikey + nKeys == 2 + n.keys && isig + nSigs == 3 + n.keys + n.sigs && 1 <= ikey && 1 <= isig
      invariant success ==> nSigs <= nKeys
      invariant success ==>
                  Plus(calls, Scan(c, script, Downward(s, isig, nSigs), Downward(s, ikey, nKeys)))
                  == Scan(c, script, SigsOf(s, n), KeysOf(s, n))
      invariant !success ==> Scan(c, script, SigsOf(s, n), KeysOf(s, n)) == Scanned(false, calls)
      decreases success, nKeys
    {
      var sig, key := Top(s, isig), Top(s, ikey);
      DownwardTail(s, isig, nSigs);
      DownwardTail(s, ikey, nKeys);
      var e := EncodingError(c, sig, key);
      if e.Some? { return ScanError(e.value, calls); }
      calls := calls + 1;
      if c.checkSig(sig, key, script) {
        isig := isig + 1;
        nSigs := nSigs - 1;
      }
      ikey := ikey + 1;
      nKeys := nKeys - 1;
      if nSigs > nKeys { success := false; }
    }
    return Scanned(success, calls);
  }

  function Plus(calls: nat, r: ScanResult): ScanResult
  {
    match r
    case Scanned(ok, n) => Scanned(ok, n + calls)
    case ScanError(e, n) => ScanError(e, n + calls)
  }

  /** The interpreter's loop over the instructions of a script. */
  method EvalScript(c: Context, script: Code, stack: seq<Element>) returns (r: EvalResult)
    ensures r == Eval(c, script, stack)
  {
    hide Step;
    if |script| > MAX_SCRIPT_SIZE { return Failure(ScriptSize, 0); }
    var m := Start(stack);
    while m.pc < |script|
      invariant m.pc <= |script| && Run(c, script, m) == Run(c, script, Start(stack))
      decreases |script| - m.pc
    {
      var o := Step(c, script, m);
      if o.Abort? { return Failure(o.error, o.checks); }
      m := o.state;
    }
    if m.exec != [] { return Failure(UnbalancedConditional, m.checks); }
    return Success(m.stack, m.checks);
  }

  /** Instructions that are skipped change neither stack and check nothing. */
  lemma SkippedChangesNothing(c: Context, script: Code, m: State)
    requires m.pc <= |script| && !Executing(m.exec) && Step(c, script, m).Continue?
    ensures var next := Step(c, script, m).state;
            next.stack == m.stack && next.alt == m.alt && next.checks == m.checks
  {
    hide GetOp, IsDisabled, PlainOp, AltOp, CheckSigOp, MultisigOp;
  }

  /** A well-formed signature whose S value is refused. */
  predicate RefusedForS(c: Context, sig: Element)
  {
    IsValidSignatureEncoding(sig) && c.flags.lowS && !c.checkLowS(sig[..|sig| - 1])
  }

  /** The S value is the one reason that leaves the error as it was, and CHECKSIG then ends in it. */
  lemma LowSErrorIsUnknown(c: Context, script: Code, op: byte, m: State)
    requires |m.stack| >= 2
    ensures EncodingError(c, Top(m.stack, 2), Top(m.stack, 1)) == Some(UnknownError) <==>
            RefusedForS(c, Top(m.stack, 2))
    ensures CheckSigOp(c, script, op, m) == Abort(UnknownError, m.checks) <==> RefusedForS(c, Top(m.stack, 2))
  {
    hide IsCompressedOrUncompressedPubKey, IsDefinedHashtype;
  }

  /** The shortest DER signature: two integers of one byte. */
  const SHORT_SIG: Element := [0x30, 6, 0x02, 1, 1, 0x02, 1, 1, 1]

  lemma ShortSigRefused(c: Context, key: Element)
    requires c.flags.lowS && !c.checkLowS(SHORT_SIG[..8])
    ensures RefusedForS(c, SHORT_SIG) && EncodingError(c, SHORT_SIG, key) == Some(UnknownError)
  {
    assert |SHORT_SIG| == 9 && SHORT_SIG[3] == 1 && SHORT_SIG[6] == 1;
  }

  // ---------------------------------------------------------------- pay to script hash

  lemma HashStep(c: Context, script: Code, stack: seq<Element>)
    requires IsPayToScriptHash(script) && |stack| <= MAX_STACK
    ensures Step(c, script, Start(stack)) ==
            if stack == [] then Abort(InvalidStackOperation, 0)
            else Continue(State(1, Pop(stack, 1) + [c.hash160(Top(stack, 1))], [], [], 1, 0))
  {
    hide ReadOperand, StackOp, UnaryOp, BinaryOp, Within, LockTimeOp, VerifyOp;
    assert GetOp(script, 0) == Some(Instruction(OP_HASH160, [], 1));
  }

  lemma PushStep(c: Context, script: Code, stack: seq<Element>)
    requires IsPayToScriptHash(script)
    ensures Step(c, script, State(1, stack, [], [], 1, 0)) ==
            if |stack| + 1 > MAX_STACK then Abort(StackSize, 0)
            else Continue(State(22, stack + [script[2..22]], [], [], 1, 0))
  {
    hide Dispatch;
    assert GetOp(script, 1) == Some(Instruction(0x14, script[2..22], 22));
  }

  lemma EqualStep(c: Context, script: Code, stack: seq<Element>)
    requires IsPayToScriptHash(script) && 2 <= |stack| <= MAX_STACK
    ensures Step(c, script, State(22, stack, [], [], 1, 0)) ==
            Continue(State(23, Pop(stack, 2) + [FromBool(Top(stack, 2) == Top(stack, 1))], [], [], 2, 0))
  {
    hide ReadOperand, UnaryOp, BinaryOp, Within, LockTimeOp, VerifyOp, HashOp;
    assert GetOp(script, 22) == Some(Instruction(OP_EQUAL, [], 23));
  }

  /** What the pay-to-script-hash template computes, on every stack. */
  lemma PayToScriptHashEval(c: Context, script: Code, stack: seq<Element>)
    requires IsPayToScriptHash(script) && |stack| <= MAX_STACK
    ensures Eval(c, script, stack) ==
            if stack == [] then Failure(InvalidStackOperation, 0)
            else if |stack| == MAX_STACK then Failure(StackSize, 0)
            else Success(Pop(stack, 1) + [FromBool(c.hash160(Top(stack, 1)) == script[2..22])], 0)
  {
    hide Step;
    HashStep(c, script, stack);
    if stack != [] {
      var hashed := Pop(stack, 1) + [c.hash160(Top(stack, 1))];
      PushStep(c, script, hashed);
      if |stack| < MAX_STACK {
        var pushed := hashed + [script[2..22]];
        EqualStep(c, script, pushed);
        assert Pop(pushed, 2) == Pop(stack, 1);
        var last := State(23, Pop(stack, 1) + [FromBool(c.hash160(Top(stack, 1)) == script[2..22])], [], [], 2, 0);
        assert Run(c, script, last) == Success(last.stack, 0);
        assert Run(c, script, State(22, pushed, [], [], 1, 0)) == Run(c, script, last);
        assert Run(c, script, State(1, hashed, [], [], 1, 0)) == Run(c, script, last);
      } else {
        assert Run(c, script, State(1, hashed, [], [], 1, 0)) == Failure(StackSize, 0);
      }
    }
  }
}
