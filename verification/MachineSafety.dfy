/** What every step and every run of the script machine keeps. */
module MachineSafety {

  import opened Prelude
  import opened ScriptNum
  import opened Script
  import opened SigEncoding
  import opened Machine

  // ---------------------------------------------------------------- limits

  predicate Small(s: seq<Element>)
  {
    forall k :: 0 <= k < |s| ==> |s[k]| <= MAX_SCRIPT_ELEMENT_SIZE
  }

  predicate WithinLimits(m: State)
  {
    Small(m.stack) && Small(m.alt) && m.ops <= MAX_OPS
  }

  lemma EncodeShort(v: int)
    requires INT64_MIN <= v <= INT64_MAX
    ensures |Encode(v)| <= MAX_SCRIPT_ELEMENT_SIZE
  {
    hide Encode;
    assert Pow256(2) == 0x1_0000;
    assert Pow256(4) == 0x1_0000_0000;
    assert Pow256(6) == 0x1_0000_0000_0000;
    assert Pow256(8) == 0x1_0000_0000_0000_0000;
    EncodeLength(v, 8);
  }

  lemma RearrangedSmall(s: seq<Element>, i: nat, j: nat)
    requires Small(s) && j <= i <= |s|
    ensures Small(Pop(s, i)) && Small(Erased(s, i, j))
    ensures 1 <= j ==> Small(Swapped(s, i, j))
    ensures 1 <= j ==> |Top(s, j)| <= MAX_SCRIPT_ELEMENT_SIZE
  {
  }

  lemma PushedSmall(s: seq<Element>, x: Element)
    requires Small(s) && |x| <= MAX_SCRIPT_ELEMENT_SIZE
    ensures Small(s + [x])
  {
  }

  lemma InsertedSmall(s: seq<Element>, depth: nat, x: Element)
    requires Small(s) && |x| <= MAX_SCRIPT_ELEMENT_SIZE && depth <= |s|
    ensures Small(Inserted(s, depth, x))
  {
  }

  lemma PickSmall(roll: bool, s: seq<Element>, minimal: bool)
    requires |s| >= 2 && Small(s)
    ensures PickOrRoll(roll, s, minimal).Ok? ==> Small(PickOrRoll(roll, s, minimal).value)
  {
    hide Decode, ReadNum;
  }

  /** The opcodes that take elements off or move them. */
  lemma MoveSmall(op: byte, s: seq<Element>, minimal: bool)
    requires IsStackOp(op) && Small(s)
    requires op == OP_2DROP || op == OP_DROP || op == OP_NIP || op == OP_SWAP || op == OP_ROT || op == OP_2SWAP
             || op == OP_2ROT || op == OP_TUCK
    ensures StackOp(op, s, minimal).Ok? ==> Small(StackOp(op, s, minimal).value)
  {
    hide Small, Swapped, Erased, Inserted, Pop, Top, Encode, Decode, PickOrRoll;
    TakenSmall(s);
    SwappedSmall(s);
    if |s| >= 2 {
      RearrangedSmall(s, 2, 1);
      InsertedSmall(s, 2, Top(s, 1));
    }
    if |s| >= 6 { RotatedSmall(s); }
  }

  lemma TakenSmall(s: seq<Element>)
    requires Small(s)
    ensures |s| >= 1 ==> Small(Pop(s, 1))
    ensures |s| >= 2 ==> |Pop(s, 1)| >= 1 && Small(Pop(Pop(s, 1), 1))
  {
  }

  lemma SwappedSmall(s: seq<Element>)
    requires Small(s)
    ensures |s| >= 3 ==> Small(Swapped(Swapped(s, 3, 2), 2, 1))
    ensures |s| >= 4 ==> Small(Swapped(Swapped(s, 4, 2), 3, 1))
  {
    hide Swapped, Small;
    if |s| >= 3 {
      RearrangedSmall(s, 3, 2);
      RearrangedSmall(Swapped(s, 3, 2), 2, 1);
    }
    if |s| >= 4 {
      RearrangedSmall(s, 4, 2);
      RearrangedSmall(Swapped(s, 4, 2), 3, 1);
    }
  }

  lemma RotatedSmall(s: seq<Element>)
    requires Small(s) && |s| >= 6
    ensures Small(Erased(s, 6, 4) + [Top(s, 6)] + [Top(s, 5)])
  {
    hide Small, Erased, Top;
    RearrangedSmall(s, 6, 4);
    RearrangedSmall(s, 6, 6);
    RearrangedSmall(s, 6, 5);
    PushedSmall(Erased(s, 6, 4), Top(s, 6));
    PushedSmall(Erased(s, 6, 4) + [Top(s, 6)], Top(s, 5));
  }

  /** The opcodes that push. */
  lemma CopySmall(op: byte, s: seq<Element>, minimal: bool)
    requires IsStackOp(op) && Small(s) && |s| <= INT64_MAX
    requires op == OP_2DUP || op == OP_3DUP || op == OP_2OVER || op == OP_IFDUP || op == OP_DEPTH || op == OP_DUP
             || op == OP_OVER || op == OP_SIZE || op == OP_EQUAL || op == OP_EQUALVERIFY
    ensures StackOp(op, s, minimal).Ok? ==> Small(StackOp(op, s, minimal).value)
  {
    hide Swapped, Erased, Inserted, Encode, Decode, PickOrRoll;
    if op == OP_DEPTH { EncodeShort(|s|); }
    if op == OP_SIZE && |s| > 0 { EncodeShort(|Top(s, 1)|); }
  }

  lemma StackOpSmall(op: byte, s: seq<Element>, minimal: bool)
    requires IsStackOp(op) && Small(s) && |s| <= INT64_MAX
    ensures StackOp(op, s, minimal).Ok? ==> Small(StackOp(op, s, minimal).value)
  {
    hide Small, Swapped, Erased, Inserted, Pop, Top, Encode, Decode, PickOrRoll;
    if op == OP_PICK || op == OP_ROLL {
      if |s| >= 2 { PickSmall(op == OP_ROLL, s, minimal); }
    } else if op == OP_2DROP || op == OP_DROP || op == OP_NIP || op == OP_SWAP || op == OP_ROT || op == OP_2SWAP
              || op == OP_2ROT || op == OP_TUCK {
      MoveSmall(op, s, minimal);
    } else {
      CopySmall(op, s, minimal);
    }
  }

  lemma NumericSmall(op: byte, s: seq<Element>, minimal: bool)
    requires Small(s)
    ensures UnaryOp(op, s, minimal).Ok? ==> Small(UnaryOp(op, s, minimal).value)
    ensures BinaryOp(op, s, minimal).Ok? ==> Small(BinaryOp(op, s, minimal).value)
    ensures Within(s, minimal).Ok? ==> Small(Within(s, minimal).value)
  {
    hide Encode, Decode, Unary, Binary, ReadNum;
    UnarySmall(op, s, minimal);
    BinarySmall(op, s, minimal);
  }

  lemma UnarySmall(op: byte, s: seq<Element>, minimal: bool)
    requires Small(s)
    ensures UnaryOp(op, s, minimal).Ok? ==> Small(UnaryOp(op, s, minimal).value)
  {
    hide Encode, Decode, Unary, ReadNum;
    if |s| >= 1 {
      ReadNumRange(Top(s, 1), minimal);
      var n := ReadNum(Top(s, 1), minimal, 4);
      if n.Some? { EncodeShort(Unary(op, n.value)); }
    }
  }

  lemma BinarySmall(op: byte, s: seq<Element>, minimal: bool)
    requires Small(s)
    ensures BinaryOp(op, s, minimal).Ok? ==> Small(BinaryOp(op, s, minimal).value)
  {
    hide Encode, Decode, Binary, ReadNum;
    if |s| >= 2 {
      ReadNumRange(Top(s, 2), minimal);
      ReadNumRange(Top(s, 1), minimal);
      var a, b := ReadNum(Top(s, 2), minimal, 4), ReadNum(Top(s, 1), minimal, 4);
      if a.Some? && b.Some? { EncodeShort(Binary(op, a.value, b.value)); }
    }
  }

  lemma HashSmall(c: Context, op: byte, v: Element)
    requires GoodContext(c)
    ensures |Hash(c, op, v)| <= MAX_SCRIPT_ELEMENT_SIZE
  {
  }

  lemma PlainOpSmall(c: Context, op: byte, s: seq<Element>)
    requires GoodContext(c) && Small(s) && |s| <= INT64_MAX
    ensures PlainOp(c, op, s).Ok? ==> Small(PlainOp(c, op, s).value)
  {
    hide Encode, Decode, StackOp, UnaryOp, BinaryOp, Within, Hash, ReadNum, GoodContext;
    if op == OP_1NEGATE || IsSmallInt(op) { EncodeShort(op - (OP_1 - 1)); }
    if IsStackOp(op) { StackOpSmall(op, s, c.flags.minimalData); }
    NumericSmall(op, s, c.flags.minimalData);
    if |s| > 0 { HashSmall(c, op, Top(s, 1)); }
  }

  lemma ControlSmall(op: byte, m: State)
    requires WithinLimits(m)
    ensures ControlOp(op, m).Continue? ==> WithinLimits(ControlOp(op, m).state)
    ensures AltOp(op, m).Continue? ==> WithinLimits(AltOp(op, m).state)
  {
    hide Decode;
  }

  lemma SignatureSmall(c: Context, script: Code, op: byte, m: State)
    requires WithinLimits(m)
    ensures CheckSigOp(c, script, op, m).Continue? ==> WithinLimits(CheckSigOp(c, script, op, m).state)
    ensures MultisigOp(c, script, op, m).Continue? ==> WithinLimits(MultisigOp(c, script, op, m).state)
  {
    hide EncodingError, ReadCounts, Scan, SigsOf, KeysOf, Decode;
  }

  lemma ExecuteSmall(c: Context, script: Code, i: Instruction, m: State)
    requires GoodContext(c) && WithinLimits(m) && |m.stack| <= INT64_MAX
    requires |i.data| <= MAX_SCRIPT_ELEMENT_SIZE
    ensures Execute(c, script, i, m).Continue? ==> WithinLimits(Execute(c, script, i, m).state)
  {
    hide PlainOp, ControlOp, AltOp, CheckSigOp, MultisigOp, CheckMinimalPush, GoodContext;
    PlainOpSmall(c, i.opcode, m.stack);
    ControlSmall(i.opcode, m);
    SignatureSmall(c, script, i.opcode, m);
  }

  /** Every completed step keeps the element, operation and stack limits. */
  lemma StepKeepsLimits(c: Context, script: Code, m: State)
    requires GoodContext(c) && m.pc <= |script| && WithinLimits(m) && |m.stack| <= INT64_MAX
    ensures Step(c, script, m).Continue? ==>
              var next := Step(c, script, m).state;
              WithinLimits(next) && |next.stack| + |next.alt| <= MAX_STACK
  {
    hide Execute, GetOp, IsDisabled, Small, GoodContext;
    var read := GetOp(script, m.pc);
    if read.Some? {
      var i := read.value;
      if |i.data| <= MAX_SCRIPT_ELEMENT_SIZE && (i.opcode > OP_16 ==> m.ops + 1 <= MAX_OPS) {
        ExecuteSmall(c, script, i, Fetched(i, m));
      }
    }
  }

  /** `n` steps of the loop, stopping where the loop stops. */
  function Steps(c: Context, script: Code, m: State, n: nat): (r: Outcome)
    requires m.pc <= |script|
    ensures r.Continue? ==> r.state.pc <= |script|
  {
    if n == 0 then Continue(m)
    else
      var o := Steps(c, script, m, n - 1);
      if o.Continue? && o.state.pc < |script| then Step(c, script, o.state) else o
  }

  /** The limits hold in every state a run can reach. */
  lemma {:induction false} ReachableWithinLimits(c: Context, script: Code, stack: seq<Element>, n: nat)
    requires GoodContext(c) && Small(stack) && |stack| <= INT64_MAX
    ensures var o := Steps(c, script, Start(stack), n);
            o.Continue? ==>
              && WithinLimits(o.state)
              && (o.state == Start(stack) || |o.state.stack| + |o.state.alt| <= MAX_STACK)
    decreases n
  {
    hide Step, Small, GoodContext;
    if n == 0 {
      StartWithinLimits(stack);
    } else {
      ReachableWithinLimits(c, script, stack, n - 1);
      var o := Steps(c, script, Start(stack), n - 1);
      if o.Continue? { StepKeepsLimits(c, script, o.state); }
    }
  }

  lemma StartWithinLimits(stack: seq<Element>)
    requires Small(stack)
    ensures WithinLimits(Start(stack))
  {
  }

  lemma {:induction false} RunSmall(c: Context, script: Code, m: State)
    requires GoodContext(c) && m.pc <= |script| && WithinLimits(m) && |m.stack| + |m.alt| <= MAX_STACK
    ensures var r := Run(c, script, m);
            r.Success? ==> Small(r.stack) && |r.stack| <= MAX_STACK
    decreases |script| - m.pc
  {
    hide Step, Small, GoodContext;
    if m.pc == |script| {
    } else {
      StepKeepsLimits(c, script, m);
      var o := Step(c, script, m);
      if o.Continue? { RunSmall(c, script, o.state); }
    }
  }

  lemma EvalSmall(c: Context, script: Code, stack: seq<Element>)
    requires GoodContext(c) && Small(stack) && |stack| <= MAX_STACK
    ensures var r := Eval(c, script, stack);
            r.Success? ==> Small(r.stack) && |r.stack| <= MAX_STACK
  {
    hide Run, Small, GoodContext;
    StartWithinLimits(stack);
    if |script| <= MAX_SCRIPT_SIZE { RunSmall(c, script, Start(stack)); }
  }

  // ---------------------------------------------------------------- signature checks

  /** The scan makes at most one check per key. */
  lemma {:induction false} ScanCalls(c: Context, script: Code, sigs: seq<Element>, keys: seq<Element>)
    requires |sigs| <= |keys|
    ensures Scan(c, script, sigs, keys).calls <= |keys|
    decreases |keys|
  {
    hide EncodingError;
    if sigs == [] {
    } else {
      var left := if c.checkSig(sigs[0], keys[0], script) then sigs[1..] else sigs;
      if |left| <= |keys| - 1 { ScanCalls(c, script, left, keys[1..]); }
    }
  }

  /** A small integer just before the current instruction, if executed, is on top of the stack. */
  predicate LastOnTop(m: State, last: byte)
  {
    IsSmallInt(last) && Executing(m.exec) ==> m.stack != [] && Top(m.stack, 1) == Encode(DecodeOpN(last))
  }

  function ChecksOf(o: Outcome): nat { if o.Continue? then o.state.checks else o.checks }

  lemma CountsMatchLast(c: Context, m: State, last: byte)
    requires LastOnTop(m, last) && IsSmallInt(last) && Executing(m.exec)
    ensures ReadCounts(c, m).Ok? ==> ReadCounts(c, m).value.keys == DecodeOpN(last)
  {
    hide Encode, Decode;
    DecodeEncode(DecodeOpN(last));
  }

  lemma MultisigChecks(c: Context, script: Code, op: byte, m: State, last: byte)
    requires LastOnTop(m, last) && Executing(m.exec)
    ensures ChecksOf(MultisigOp(c, script, op, m))
         <= m.checks + if IsSmallInt(last) then DecodeOpN(last) else 20
  {
    hide EncodingError, Scan, ReadCounts, LastOnTop;
    if IsSmallInt(last) { CountsMatchLast(c, m, last); }
    var counts := ReadCounts(c, m);
    if counts.Ok? {
      ScanCalls(c, script, SigsOf(m.stack, counts.value), KeysOf(m.stack, counts.value));
    }
  }

  lemma CheckSigChecks(c: Context, script: Code, op: byte, m: State)
    ensures ChecksOf(CheckSigOp(c, script, op, m)) <= m.checks + 1
  {
    hide EncodingError;
  }

  lemma QuietOps(op: byte, m: State)
    ensures ChecksOf(ControlOp(op, m)) == m.checks
    ensures ChecksOf(AltOp(op, m)) == m.checks
  {
    hide Decode;
  }

  /** An instruction makes no more signature checks than its static cost. */
  lemma ExecuteChecks(c: Context, script: Code, i: Instruction, m: State, last: byte)
    requires LastOnTop(m, last)
    ensures ChecksOf(Execute(c, script, i, m)) <= m.checks + SigOpCost(i.opcode, last, true)
  {
    hide PlainOp, ControlOp, AltOp, CheckSigOp, MultisigOp, CheckMinimalPush, LastOnTop;
    QuietOps(i.opcode, m);
    CheckSigChecks(c, script, i.opcode, m);
    if Executing(m.exec) { MultisigChecks(c, script, i.opcode, m, last); }
  }

  /** An executed small integer leaves its value on top; a skipped one leaves the run skipping. */
  lemma ExecuteLeavesLast(c: Context, script: Code, i: Instruction, m: State)
    ensures var o := Execute(c, script, i, m);
            o.Continue? ==> LastOnTop(o.state, i.opcode)
  {
    hide ControlOp, AltOp, CheckSigOp, MultisigOp, CheckMinimalPush, Encode,
      StackOp, UnaryOp, BinaryOp, Within, HashOp, LockTimeOp, VerifyOp;
  }

  lemma StepChecks(c: Context, script: Code, m: State, last: byte)
    requires m.pc <= |script| && LastOnTop(m, last)
    ensures match GetOp(script, m.pc)
            case None => ChecksOf(Step(c, script, m)) == m.checks && Step(c, script, m).Abort?
            case Some(i) =>
              && ChecksOf(Step(c, script, m)) <= m.checks + SigOpCost(i.opcode, last, true)
              && (Step(c, script, m).Continue? ==>
                    Step(c, script, m).state.pc == i.next && LastOnTop(Step(c, script, m).state, i.opcode))
  {
    hide Execute, GetOp, IsDisabled, SigOpCost;
    var read := GetOp(script, m.pc);
    if read.Some? {
      var i := read.value;
      ExecuteChecks(c, script, i, Fetched(i, m), last);
      ExecuteLeavesLast(c, script, i, Fetched(i, m));
    }
  }

  lemma {:induction false} RunChecks(c: Context, script: Code, m: State, last: byte)
    requires m.pc <= |script| && LastOnTop(m, last)
    ensures Run(c, script, m).checks <= m.checks + SigOpsFrom(script, m.pc, last, true)
    decreases |script| - m.pc
  {
    hide Step, GetOp, LastOnTop, SigOpCost;
    if m.pc == |script| {
    } else {
      StepChecks(c, script, m, last);
      var o := Step(c, script, m);
      if o.Continue? {
        RunChecks(c, script, o.state, GetOp(script, m.pc).value.opcode);
      }
    }
  }

  /** A run never checks more signatures than the static counts announce. */
  lemma EvalChecks(c: Context, script: Code, stack: seq<Element>)
    ensures Eval(c, script, stack).checks <= SigOps(script, true) <= SigOps(script, false)
  {
    hide Run, SigOpsFrom;
    AccurateIsLower(script, 0, OP_INVALIDOPCODE);
    if |script| <= MAX_SCRIPT_SIZE { RunChecks(c, script, Start(stack), OP_INVALIDOPCODE); }
  }

  // ---------------------------------------------------------------- what a run does not depend on

  /** The same context under other rules about the pair of scripts. */
  function Reflagged(c: Context, p2sh: bool, sigPushOnly: bool, cleanStack: bool): Context
  {
    c.(flags := c.flags.(p2sh := p2sh, sigPushOnly := sigPushOnly, cleanStack := cleanStack))
  }

  ghost predicate SameMachine(c: Context, d: Context)
  {
    d == Reflagged(c, d.flags.p2sh, d.flags.sigPushOnly, d.flags.cleanStack)
  }

  lemma EncodingIgnores(c: Context, d: Context, sig: Element, key: Element)
    requires SameMachine(c, d)
    ensures EncodingError(d, sig, key) == EncodingError(c, sig, key)
  {
    hide IsValidSignatureEncoding, IsDefinedHashtype, IsCompressedOrUncompressedPubKey;
  }

  lemma {:induction false} ScanIgnores(c: Context, d: Context, script: Code, sigs: seq<Element>, keys: seq<Element>)
    requires SameMachine(c, d) && |sigs| <= |keys|
    ensures Scan(d, script, sigs, keys) == Scan(c, script, sigs, keys)
    decreases |keys|
  {
    hide EncodingError;
    if sigs == [] {
    } else {
      EncodingIgnores(c, d, sigs[0], keys[0]);
      var left := if c.checkSig(sigs[0], keys[0], script) then sigs[1..] else sigs;
      if |left| <= |keys| - 1 { ScanIgnores(c, d, script, left, keys[1..]); }
    }
  }

  lemma SignatureIgnores(c: Context, d: Context, script: Code, op: byte, m: State)
    requires SameMachine(c, d)
    ensures CheckSigOp(d, script, op, m) == CheckSigOp(c, script, op, m)
    ensures MultisigOp(d, script, op, m) == MultisigOp(c, script, op, m)
  {
    hide EncodingError, Scan, ReadNum;
    if |m.stack| >= 2 { EncodingIgnores(c, d, Top(m.stack, 2), Top(m.stack, 1)); }
    var counts := ReadCounts(c, m);
    if counts.Ok? { ScanIgnores(c, d, script, SigsOf(m.stack, counts.value), KeysOf(m.stack, counts.value)); }
  }

  lemma PlainIgnores(c: Context, d: Context, op: byte, s: seq<Element>)
    requires SameMachine(c, d)
    ensures PlainOp(d, op, s) == PlainOp(c, op, s)
  {
    hide StackOp, UnaryOp, BinaryOp, Within, VerifyOp, ReadNum, Encode;
  }

  lemma StepIgnores(c: Context, d: Context, script: Code, m: State)
    requires SameMachine(c, d) && m.pc <= |script|
    ensures Step(d, script, m) == Step(c, script, m)
  {
    hide GetOp, PlainOp, CheckSigOp, MultisigOp, AltOp, ControlOp, CheckMinimalPush, IsDisabled;
    var read := GetOp(script, m.pc);
    if read.Some? {
      var at := Fetched(read.value, m);
      SignatureIgnores(c, d, script, read.value.opcode, at);
      PlainIgnores(c, d, read.value.opcode, at.stack);
    }
  }

  lemma {:induction false} RunIgnores(c: Context, d: Context, script: Code, m: State)
    requires SameMachine(c, d) && m.pc <= |script|
    ensures Run(d, script, m) == Run(c, script, m)
    decreases |script| - m.pc
  {
    hide Step;
    if m.pc == |script| {
    } else {
      StepIgnores(c, d, script, m);
      var o := Step(c, script, m);
      if o.Continue? { RunIgnores(c, d, script, o.state); }
    }
  }

  /** The rules about the pair of scripts have no say in what a single script computes. */
  lemma EvalIgnores(c: Context, d: Context, script: Code, stack: seq<Element>)
    requires SameMachine(c, d)
    ensures Eval(d, script, stack) == Eval(c, script, stack)
  {
    hide Run;
    if |script| <= MAX_SCRIPT_SIZE { RunIgnores(c, d, script, Start(stack)); }
  }

  // ---------------------------------------------------------------- errors a run never ends in

  /** The errors that only the verification of a pair of scripts gives. */
  predicate IsPairError(e: ScriptError) { e == EvalFalse || e == CleanStack || e == SigPushOnly }

  lemma {:induction false} ScanErrors(c: Context, script: Code, sigs: seq<Element>, keys: seq<Element>)
    requires |sigs| <= |keys| && Scan(c, script, sigs, keys).ScanError?
    ensures !IsPairError(Scan(c, script, sigs, keys).error)
    decreases |keys|
  {
    hide IsValidSignatureEncoding, IsDefinedHashtype, IsCompressedOrUncompressedPubKey;
    if EncodingError(c, sigs[0], keys[0]).None? {
      var left := if c.checkSig(sigs[0], keys[0], script) then sigs[1..] else sigs;
      ScanErrors(c, script, left, keys[1..]);
    }
  }

  lemma SignatureErrors(c: Context, script: Code, op: byte, m: State)
    ensures var o := CheckSigOp(c, script, op, m);
            o.Abort? ==> !IsPairError(o.error)
    ensures var o := MultisigOp(c, script, op, m);
            o.Abort? ==> !IsPairError(o.error)
  {
    hide IsValidSignatureEncoding, IsDefinedHashtype, IsCompressedOrUncompressedPubKey, Scan, ReadNum;
    var counts := ReadCounts(c, m);
    if counts.Ok? {
      var sigs, keys := SigsOf(m.stack, counts.value), KeysOf(m.stack, counts.value);
      if Scan(c, script, sigs, keys).ScanError? { ScanErrors(c, script, sigs, keys); }
    }
  }

  lemma PlainErrors(c: Context, op: byte, s: seq<Element>)
    ensures PlainOp(c, op, s).Err? ==> !IsPairError(PlainOp(c, op, s).error)
  {
    hide ReadNum, Encode, Decode, Swapped, Erased, Inserted, Unary, Binary, Hash;
  }

  lemma StepErrors(c: Context, script: Code, m: State)
    requires m.pc <= |script|
    ensures var o := Step(c, script, m);
            o.Abort? ==> !IsPairError(o.error)
  {
    hide GetOp, PlainOp, CheckSigOp, MultisigOp, CheckMinimalPush, IsDisabled, Decode;
    var read := GetOp(script, m.pc);
    if read.Some? {
      var at := Fetched(read.value, m);
      SignatureErrors(c, script, read.value.opcode, at);
      PlainErrors(c, read.value.opcode, at.stack);
    }
  }

  lemma {:induction false} RunErrors(c: Context, script: Code, m: State)
    requires m.pc <= |script|
    ensures var r := Run(c, script, m);
            r.Failure? ==> !IsPairError(r.error)
    decreases |script| - m.pc
  {
    hide Step;
    if m.pc == |script| {
    } else {
      StepErrors(c, script, m);
      var o := Step(c, script, m);
      if o.Continue? { RunErrors(c, script, o.state); }
    }
  }

  lemma EvalErrors(c: Context, script: Code, stack: seq<Element>)
    ensures var r := Eval(c, script, stack);
            r.Failure? ==> !IsPairError(r.error)
  {
    hide Run;
    if |script| <= MAX_SCRIPT_SIZE { RunErrors(c, script, Start(stack)); }
  }
}
