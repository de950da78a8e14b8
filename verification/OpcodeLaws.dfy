/** Opcodes defined by others: equations that hold on every stack, error for error. */
module OpcodeLaws {

  import opened Prelude
  import opened ScriptNum
  import opened Script
  import opened SigEncoding
  import opened Machine
  import opened Multisig
  import opened StackEffects

  /** One more operation, unless an earlier one failed. */
  function Then(c: Context, r: Stacked, op: byte): Stacked
  {
    if r.Ok? then PlainOp(c, op, r.value) else r
  }

  /** A number pushed on top. */
  function ThenNumber(r: Stacked, v: int): Stacked
  {
    if r.Ok? then Ok(r.value + [Encode(v)]) else r
  }

  /** The same outcome with a failed VERIFY reported as another error. */
  function Reported(r: Stacked, e: ScriptError): Stacked
  {
    if r == Err(VerifyFailed) then Err(e) else r
  }

  lemma SmallNumbers(c: Context, n: int, s: seq<Element>)
    requires n == -1 || 1 <= n <= 16
    ensures PlainOp(c, 0x50 + n, s) == Ok(s + [Encode(n)])
  {
    hide Encode;
  }

  // ---------------------------------------------------------------- stack opcodes from PICK, ROLL and DROP

  lemma PickDeep(c: Context, s: seq<Element>, n: nat)
    requires n < |s| && n <= INT_MAX
    ensures PlainOp(c, OP_PICK, s + [Encode(n)]) == Ok(s + [Top(s, n + 1)])
  {
    hide PlainOp, Encode;
    PickNumber(c, s, n);
  }

  /** PICK and ROLL of a number just pushed, on stacks of any depth. */
  lemma PickNumber(c: Context, s: seq<Element>, n: nat)
    requires n <= INT_MAX
    ensures Then(c, ThenNumber(Ok(s), n), OP_PICK) ==
            if n < |s| then Ok(s + [Top(s, n + 1)]) else Err(InvalidStackOperation)
    ensures Then(c, ThenNumber(Ok(s), n), OP_ROLL) ==
            if n < |s| then Ok(Erased(s, n + 1, n) + [Top(s, n + 1)]) else Err(InvalidStackOperation)
  {
    hide Encode, Decode, ReadNum, Erased;
    var t := s + [Encode(n)];
    NumberReads(n, c.flags.minimalData);
    assert Top(t, 1) == Encode(n) && Pop(t, 1) == s;
  }

  function Pick(c: Context, r: Stacked, n: nat): Stacked { Then(c, ThenNumber(r, n), OP_PICK) }

  function Roll(c: Context, r: Stacked, n: nat): Stacked { Then(c, ThenNumber(r, n), OP_ROLL) }

  /** A push is undone by DROP. */
  lemma DropUndoes(c: Context, s: seq<Element>, x: Element)
    ensures PlainOp(c, OP_DROP, s + [x]) == Ok(s)
  {
    hide Encode, Decode, PickOrRoll;
    assert Pop(s + [x], 1) == s;
  }

  lemma DropTwice(c: Context, s: seq<Element>)
    ensures PlainOp(c, OP_2DROP, s) == Then(c, PlainOp(c, OP_DROP, s), OP_DROP)
  {
    hide Encode, Decode, PickOrRoll;
  }

  /** Copying: DUP, OVER, 2DUP, 3DUP and 2OVER are PICKs. */
  lemma Copies(c: Context, s: seq<Element>)
    ensures PlainOp(c, OP_DUP, s) == Pick(c, Ok(s), 0)
    ensures PlainOp(c, OP_OVER, s) == Pick(c, Ok(s), 1)
    ensures PlainOp(c, OP_2DUP, s) == Pick(c, Pick(c, Ok(s), 1), 1)
    ensures PlainOp(c, OP_3DUP, s) == Pick(c, Pick(c, Pick(c, Ok(s), 2), 2), 2)
    ensures PlainOp(c, OP_2OVER, s) == Pick(c, Pick(c, Ok(s), 3), 3)
  {
    hide Encode, Decode, PickOrRoll, Then, ThenNumber;
    PickNumber(c, s, 0);
    PickNumber(c, s, 1);
    PickNumber(c, s, 2);
    PickNumber(c, s, 3);
    PicksFail(c, Err(InvalidStackOperation));
    if |s| >= 2 { PickNumber(c, s + [Top(s, 2)], 1); }
    if |s| >= 3 {
      PickNumber(c, s + [Top(s, 3)], 2);
      PickNumber(c, s + [Top(s, 3)] + [Top(s, 2)], 2);
    }
    if |s| >= 4 { PickNumber(c, s + [Top(s, 4)], 3); }
  }

  lemma PicksFail(c: Context, r: Stacked)
    requires r.Err?
    ensures forall n: nat :: Pick(c, r, n) == r && Roll(c, r, n) == r
  {
  }

  /** Moving: SWAP, ROT, 2SWAP and 2ROT are ROLLs. */
  lemma Moves(c: Context, s: seq<Element>)
    ensures PlainOp(c, OP_SWAP, s) == Roll(c, Ok(s), 1)
    ensures PlainOp(c, OP_ROT, s) == Roll(c, Ok(s), 2)
    ensures PlainOp(c, OP_2SWAP, s) == Roll(c, Roll(c, Ok(s), 3), 3)
    ensures PlainOp(c, OP_2ROT, s) == Roll(c, Roll(c, Ok(s), 5), 5)
  {
    hide Encode, Decode, PickOrRoll, Then, ThenNumber, Swapped, Erased;
    PickNumber(c, s, 1);
    PickNumber(c, s, 2);
    PickNumber(c, s, 3);
    PickNumber(c, s, 5);
    PicksFail(c, Err(InvalidStackOperation));
    if |s| >= 2 { SwapIsRoll(s); }
    if |s| >= 3 { RotIsRoll(s); }
    if |s| >= 4 {
      PairsAreRolls(s);
      PickNumber(c, Rolled(s, 3), 3);
    }
    if |s| >= 6 {
      SixIsRolls(s);
      PickNumber(c, Rolled(s, 5), 5);
    }
  }

  function Rolled(s: seq<Element>, n: nat): (r: seq<Element>)
    requires n < |s|
    ensures |r| == |s|
  {
    Erased(s, n + 1, n) + [Top(s, n + 1)]
  }

  lemma SwapIsRoll(s: seq<Element>)
    requires |s| >= 2
    ensures Swapped(s, 2, 1) == Rolled(s, 1)
  {
  }

  lemma RotIsRoll(s: seq<Element>)
    requires |s| >= 3
    ensures Swapped(Swapped(s, 3, 2), 2, 1) == Rolled(s, 2)
  {
  }

  lemma PairsAreRolls(s: seq<Element>)
    requires |s| >= 4
    ensures Swapped(Swapped(s, 4, 2), 3, 1) == Rolled(Rolled(s, 3), 3)
  {
  }

  lemma SixIsRolls(s: seq<Element>)
    requires |s| >= 6
    ensures Erased(s, 6, 4) + [Top(s, 6)] + [Top(s, 5)] == Rolled(Rolled(s, 5), 5)
  {
  }

  /** NIP is SWAP DROP, and TUCK is SWAP OVER. */
  lemma SwapThen(c: Context, s: seq<Element>)
    ensures PlainOp(c, OP_NIP, s) == Then(c, PlainOp(c, OP_SWAP, s), OP_DROP)
    ensures PlainOp(c, OP_TUCK, s) == Then(c, PlainOp(c, OP_SWAP, s), OP_OVER)
  {
    hide Encode, Decode, PickOrRoll;
    if |s| >= 2 {
      var t := Swapped(s, 2, 1);
      assert Pop(t, 1) == Erased(s, 2, 1);
      assert t + [Top(t, 2)] == Inserted(s, 2, Top(s, 1));
    }
  }

  /** IFDUP is DUP on a true top and nothing on a false one. */
  lemma IfDup(c: Context, s: seq<Element>, x: Element)
    ensures PlainOp(c, OP_IFDUP, s + [x]) == if IsTrue(x) then PlainOp(c, OP_DUP, s + [x]) else Ok(s + [x])
  {
    hide Encode, Decode, PickOrRoll;
  }

  /** DEPTH reaches the bottom: DEPTH 1SUB PICK copies the first element. */
  lemma DepthReaches(c: Context, s: seq<Element>)
    requires 1 <= |s| <= 1000
    ensures Then(c, Then(c, PlainOp(c, OP_DEPTH, s), OP_1SUB), OP_PICK) == Ok(s + [s[0]])
  {
    hide PlainOp, Encode, Decode, ReadNum, Erased;
    var n := |s| - 1;
    DepthPushes(c, s);
    OneLess(c, s);
    PickDeep(c, s, n);
    assert Top(s, n + 1) == s[0];
  }

  lemma DepthPushes(c: Context, s: seq<Element>)
    ensures PlainOp(c, OP_DEPTH, s) == Ok(s + [Encode(|s|)])
  {
    hide Encode, Decode, PickOrRoll;
  }

  lemma OneLess(c: Context, s: seq<Element>)
    requires 1 <= |s| <= 1000
    ensures PlainOp(c, OP_1SUB, s + [Encode(|s|)]) == Ok(s + [Encode(|s| - 1)])
  {
    hide Encode, Decode, ReadNum, StackOp;
    NumberReads(|s|, c.flags.minimalData);
    var t := s + [Encode(|s|)];
    assert Top(t, 1) == Encode(|s|) && Pop(t, 1) == s;
  }

  /** SIZE leaves the element and a number that reads as its length. */
  lemma SizeReads(c: Context, s: seq<Element>, x: Element)
    requires |x| <= 520
    ensures var r := PlainOp(c, OP_SIZE, s + [x]);
            && r.Ok? && Pop(r.value, 1) == s + [x]
            && ReadNum(Top(r.value, 1), c.flags.minimalData, 4) == Some(|x|)
  {
    hide Encode, Decode, ReadNum;
    NumberReads(|x|, c.flags.minimalData);
  }

  // ---------------------------------------------------------------- numbers from the two-operand opcodes

  lemma AfterNumber(c: Context, op: byte, s: seq<Element>, k: int)
    requires IsBinary(op) && op != OP_NUMEQUALVERIFY && IsOperand(k)
    ensures Then(c, ThenNumber(Ok(s), k), op) ==
            if s == [] then Err(InvalidStackOperation)
            else match ReadNum(Top(s, 1), c.flags.minimalData, 4)
                 case None => Err(UnknownError)
                 case Some(v) =>
                   (ReadNumRange(Top(s, 1), c.flags.minimalData); Ok(Pop(s, 1) + [Encode(Binary(op, v, k))]))
  {
    hide Encode, Decode, ReadNum, Binary, StackOp;
    NumberReads(k, c.flags.minimalData);
    var t := s + [Encode(k)];
    assert Top(t, 1) == Encode(k);
    if s != [] { assert Top(t, 2) == Top(s, 1) && Pop(t, 2) == Pop(s, 1); }
  }

  lemma OneOperand(c: Context, op: byte, s: seq<Element>)
    requires IsUnary(op)
    ensures PlainOp(c, op, s) ==
            if s == [] then Err(InvalidStackOperation)
            else match ReadNum(Top(s, 1), c.flags.minimalData, 4)
                 case None => Err(UnknownError)
                 case Some(v) =>
                   (ReadNumRange(Top(s, 1), c.flags.minimalData); Ok(Pop(s, 1) + [Encode(Unary(op, v))]))
  {
    hide Encode, Decode, ReadNum, Unary, StackOp;
  }

  /** 1ADD is 1 ADD, 1SUB is 1 SUB, NOT is 0 NUMEQUAL, and 0NOTEQUAL is 0 NUMNOTEQUAL. */
  lemma WithConstant(c: Context, s: seq<Element>)
    ensures PlainOp(c, OP_1ADD, s) == Then(c, ThenNumber(Ok(s), 1), OP_ADD)
    ensures PlainOp(c, OP_1SUB, s) == Then(c, ThenNumber(Ok(s), 1), OP_SUB)
    ensures PlainOp(c, OP_NOT, s) == Then(c, ThenNumber(Ok(s), 0), OP_NUMEQUAL)
    ensures PlainOp(c, OP_0NOTEQUAL, s) == Then(c, ThenNumber(Ok(s), 0), OP_NUMNOTEQUAL)
  {
    hide PlainOp, Encode, Decode, ReadNum, Then, ThenNumber;
    AfterNumber(c, OP_ADD, s, 1);
    AfterNumber(c, OP_SUB, s, 1);
    AfterNumber(c, OP_NUMEQUAL, s, 0);
    AfterNumber(c, OP_NUMNOTEQUAL, s, 0);
    OneOperand(c, OP_1ADD, s);
    OneOperand(c, OP_1SUB, s);
    OneOperand(c, OP_NOT, s);
    OneOperand(c, OP_0NOTEQUAL, s);
  }

  /** NEGATE is 0 SWAP SUB. */
  lemma NegateIsSub(c: Context, s: seq<Element>)
    ensures PlainOp(c, OP_NEGATE, s) == Then(c, Then(c, ThenNumber(Ok(s), 0), OP_SWAP), OP_SUB)
  {
    hide Encode, Decode, ReadNum, PickOrRoll;
    NumberReads(0, c.flags.minimalData);
    if s != [] {
      var t := Swapped(s + [Encode(0)], 2, 1);
      assert t == Pop(s, 1) + [Encode(0), Top(s, 1)];
      assert Top(t, 2) == Encode(0) && Top(t, 1) == Top(s, 1) && Pop(t, 2) == Pop(s, 1);
    }
  }

  /** ABS is DUP NEGATE MAX. */
  lemma AbsIsMax(c: Context, s: seq<Element>)
    ensures PlainOp(c, OP_ABS, s) == Then(c, Then(c, PlainOp(c, OP_DUP, s), OP_NEGATE), OP_MAX)
  {
    hide Encode, Decode, ReadNum, PickOrRoll;
    if s != [] {
      var t := s + [Top(s, 1)];
      assert Top(t, 1) == Top(s, 1) && Pop(t, 1) == s;
      var n := ReadNum(Top(s, 1), c.flags.minimalData, 4);
      if n.Some? {
        ReadNumRange(Top(s, 1), c.flags.minimalData);
        NumberReads(-n.value, c.flags.minimalData);
        var u := s + [Encode(-n.value)];
        assert Top(u, 2) == Top(s, 1) && Top(u, 1) == Encode(-n.value) && Pop(u, 2) == Pop(s, 1);
      }
    }
  }

  /** The little-endian value of up to four bytes, with the top bit as sign. */
  lemma NumberBytes(a: byte, b: byte, x: byte, y: byte)
    ensures Decode([a]) == if a >= 0x80 then -(a - 0x80) else a
    ensures Decode([a, b, x, y]) ==
            var v := a + 0x100 * b + 0x1_0000 * x + 0x100_0000 * (y % 0x80);
            if y >= 0x80 then -v else v
  {
    assert Unsigned([a]) == [a % 0x80];
    OneByte(a % 0x80);
    assert Unsigned([a, b, x, y]) == [a, b, x, y % 0x80];
    assert [a, b, x, y % 0x80][1..] == [b, x, y % 0x80] && [b, x, y % 0x80][1..] == [x, y % 0x80];
    assert [x, y % 0x80][1..] == [y % 0x80];
    OneByte(y % 0x80);
    assert Magnitude([x, y % 0x80]) == x + 256 * Magnitude([y % 0x80]);
    assert Magnitude([b, x, y % 0x80]) == b + 256 * Magnitude([x, y % 0x80]);
  }

  lemma OneByte(a: byte)
    ensures Magnitude([a]) == a
  {
    assert Magnitude([a]) == a + 256 * Magnitude([]);
  }

  // ---------------------------------------------------------------- verifying forms

  /** VERIFY passes exactly the numbers other than zero. */
  lemma VerifyLaw(c: Context, s: seq<Element>, v: int)
    ensures PlainOp(c, OP_VERIFY, s + [Encode(v)]) == if v != 0 then Ok(s) else Err(VerifyFailed)
  {
    hide Encode, Decode, StackOp;
    DecodeEncode(v);
    var t := s + [Encode(v)];
    assert Top(t, 1) == Encode(v) && Pop(t, 1) == s;
  }

  /** EQUAL compares byte for byte; EQUALVERIFY is EQUAL VERIFY under its own error. */
  lemma EqualForms(c: Context, s: seq<Element>, x: Element, y: Element)
    ensures PlainOp(c, OP_EQUAL, s + [x, y]) == Ok(s + [FromBool(x == y)])
    ensures PlainOp(c, OP_EQUALVERIFY, s + [x, y])
         == Reported(Then(c, PlainOp(c, OP_EQUAL, s + [x, y]), OP_VERIFY), EqualVerify)
  {
    hide Encode, Decode, PickOrRoll;
    var t := s + [x, y];
    assert Top(t, 2) == x && Top(t, 1) == y && Pop(Pop(t, 1), 1) == s;
    TruthIsTrue();
    assert Pop(s + [FromBool(x == y)], 1) == s && Top(s + [FromBool(x == y)], 1) == FromBool(x == y);
  }

  lemma TruthIsTrue()
    ensures forall b: bool :: IsTrue(FromBool(b)) == b
  {
    hide Encode, Decode;
    TruthValues();
    DecodeEncode(1);
    DecodeEncode(0);
  }

  /** NUMEQUALVERIFY is NUMEQUAL VERIFY under its own error. */
  lemma NumEqualForms(c: Context, s: seq<Element>)
    ensures PlainOp(c, OP_NUMEQUALVERIFY, s)
         == Reported(Then(c, PlainOp(c, OP_NUMEQUAL, s), OP_VERIFY), NumEqualVerify)
  {
    hide Encode, Decode, ReadNum, StackOp;
  }

  /** VERIFY after an operation that may have counted checks. */
  function VerifyAfter(o: Outcome, e: ScriptError): Outcome
  {
    if o.Abort? then o
    else match VerifyOp(o.state.stack)
         case Ok(s) => Continue(o.state.(stack := s))
         case Err(_) => Abort(e, o.state.checks)
  }

  /** CHECKSIGVERIFY is CHECKSIG VERIFY, and CHECKMULTISIGVERIFY is CHECKMULTISIG VERIFY, under their own errors. */
  lemma SignatureForms(c: Context, script: Code, m: State)
    ensures CheckSigOp(c, script, OP_CHECKSIGVERIFY, m)
         == VerifyAfter(CheckSigOp(c, script, OP_CHECKSIG, m), CheckSigVerify)
    ensures MultisigOp(c, script, OP_CHECKMULTISIGVERIFY, m)
         == VerifyAfter(MultisigOp(c, script, OP_CHECKMULTISIG, m), CheckMultisigVerify)
  {
    hide CheckSigOp, MultisigOp;
    CheckSigForms(c, script, m);
    MultisigForms(c, script, m);
  }

  lemma CheckSigForms(c: Context, script: Code, m: State)
    ensures CheckSigOp(c, script, OP_CHECKSIGVERIFY, m)
         == VerifyAfter(CheckSigOp(c, script, OP_CHECKSIG, m), CheckSigVerify)
  {
    hide EncodingError, Decode;
    TruthIsTrue();
    if |m.stack| >= 2 { OnTop(Pop(m.stack, 2)); }
  }

  lemma MultisigForms(c: Context, script: Code, m: State)
    ensures MultisigOp(c, script, OP_CHECKMULTISIGVERIFY, m)
         == VerifyAfter(MultisigOp(c, script, OP_CHECKMULTISIG, m), CheckMultisigVerify)
  {
    hide EncodingError, ReadCounts, Scan, Decode, KeysOf, SigsOf;
    TruthIsTrue();
    var n := ReadCounts(c, m);
    if n.Ok? { OnTop(Pop(m.stack, 3 + n.value.keys + n.value.sigs)); }
  }

  lemma OnTop(s: seq<Element>)
    ensures forall x: Element :: Pop(s + [x], 1) == s && Top(s + [x], 1) == x
  {
  }

  // ---------------------------------------------------------------- lock times, hashes and spare opcodes

  /** CHECKLOCKTIMEVERIFY never changes the stack, and passes exactly a satisfied non-negative number of five bytes. */
  lemma LockTimeLaw(c: Context, s: seq<Element>)
    requires c.flags.lockTime
    ensures var r := PlainOp(c, 0xb1, s);
            && (r.Ok? ==> r.value == s)
            && (r.Ok? <==> s != [] && ReadNum(Top(s, 1), c.flags.minimalData, 5).Some?
                           && var t := Decode(Top(s, 1)); t >= 0 && c.checkLockTime(t))
  {
    hide Decode, Minimal;
  }

  /** NOP1 to NOP10, and CHECKLOCKTIMEVERIFY where it is not in force, do nothing unless discouraged. */
  lemma SpareOpcodes(c: Context, op: byte, s: seq<Element>)
    requires 0xb0 <= op <= 0xb9 && (op == 0xb1 ==> !c.flags.lockTime)
    ensures PlainOp(c, op, s) == if c.flags.discourageNops then Err(DiscourageUpgradableNops) else Ok(s)
    ensures PlainOp(c, 0x61, s) == Ok(s) && PlainOp(c, 0x6a, s) == Err(OpReturn)
  {
  }

  /** Which byte stands for which hash. */
  lemma Hashing(c: Context, s: seq<Element>, x: Element)
    ensures PlainOp(c, 0xa6, s + [x]) == Ok(s + [c.ripemd160(x)])
    ensures PlainOp(c, 0xa7, s + [x]) == Ok(s + [c.sha1(x)])
    ensures PlainOp(c, 0xa8, s + [x]) == Ok(s + [c.sha256(x)])
    ensures PlainOp(c, 0xa9, s + [x]) == Ok(s + [c.hash160(x)])
    ensures PlainOp(c, 0xaa, s + [x]) == Ok(s + [c.hash256(x)])
  {
    hide StackOp, UnaryOp, BinaryOp, Within, LockTimeOp, VerifyOp;
    assert Pop(s + [x], 1) == s && Top(s + [x], 1) == x;
  }

  // ---------------------------------------------------------------- conditionals

  /** NOTIF is IF ELSE. */
  lemma NotIfIsIfElse(m: State)
    requires Executing(m.exec)
    ensures var taken := ControlOp(OP_IF, m);
            if m.stack == [] then ControlOp(OP_NOTIF, m) == taken
            else taken.Continue? && ControlOp(OP_NOTIF, m) == ControlOp(OP_ELSE, taken.state)
  {
    hide Decode;
    if m.stack != [] {
      var v := IsTrue(Top(m.stack, 1));
      assert (m.exec + [v])[..|m.exec|] == m.exec;
    }
  }

  /** A conditional inside a branch that is not taken takes neither of its own, and leaves no trace. */
  lemma SkippedConditional(m: State, op: byte)
    requires !Executing(m.exec) && (op == OP_IF || op == OP_NOTIF)
    ensures var inner := ControlOp(op, m);
            && inner.Continue? && inner.state.stack == m.stack && !Executing(inner.state.exec)
            && ControlOp(OP_ENDIF, inner.state) == Continue(m)
            && var other := ControlOp(OP_ELSE, inner.state);
               other.Continue? && !Executing(other.state.exec) && ControlOp(OP_ENDIF, other.state) == Continue(m)
  {
    hide Decode;
    var e := m.exec;
    assert (e + [false])[..|e|] == e && (e + [true])[..|e|] == e;
    var k :| 0 <= k < |e| && e[k] == false;
    assert (e + [false])[k] == false && (e + [true])[k] == false;
  }

  // ---------------------------------------------------------------- encodings

  /** ALL, NONE or SINGLE, with or without ANYONECANPAY. */
  lemma HashTypes(sig: Element)
    requires sig != []
    ensures IsDefinedHashtype(sig) <==> sig[|sig| - 1] in {0x01, 0x02, 0x03, 0x81, 0x82, 0x83}
  {
  }

  /** A sign byte and 32 bytes, or 4 and 64 bytes. */
  lemma KeyForms(key: Element)
    ensures IsCompressedOrUncompressedPubKey(key) <==>
            exists tag: byte, body: seq<byte> :: key == [tag] + body &&
              ((tag in {2, 3} && |body| == 32) || (tag == 4 && |body| == 64))
  {
    if IsCompressedOrUncompressedPubKey(key) {
      assert key == [key[0]] + key[1..];
    }
  }

  /** Under the minimal-push rule each byte string has one push, the one the builder makes, except a lone 0x81. */
  lemma MinimalPushes(data: Element, op: byte)
    requires op <= OP_PUSHDATA4 && |data| <= MAX_SCRIPT_ELEMENT_SIZE
    ensures CheckMinimalPush(data, op) <==>
            op == PushOpcode(|data|) && !(|data| == 1 && (1 <= data[0] <= 16 || data[0] == 0x81))
  {
  }

  // ---------------------------------------------------------------- how many checks a scan makes

  /** When nothing fits, the scan stops as soon as the keys cannot suffice any more. */
  lemma {:induction false} NoneFits(c: Context, script: Code, sigs: seq<Element>, keys: seq<Element>)
    requires 0 < |sigs| <= |keys| && WellEncoded(c, sigs, keys)
    requires forall i :: 0 <= i < |keys| ==> !c.checkSig(sigs[0], keys[i], script)
    ensures Scan(c, script, sigs, keys) == Scanned(false, |keys| - |sigs| + 1)
    decreases |keys|
  {
    hide EncodingError, WellEncoded;
    WellEncodedStep(c, sigs, keys);
    if |sigs| == |keys| {
    } else {
      assert forall i :: 0 <= i < |keys[1..]| ==> keys[1..][i] == keys[i + 1];
      NoneFits(c, script, sigs, keys[1..]);
    }
  }

  /** When every signature fits the key at its place, each is checked once. */
  lemma {:induction false} AllFit(c: Context, script: Code, sigs: seq<Element>, keys: seq<Element>)
    requires |sigs| <= |keys| && WellEncoded(c, sigs, keys)
    requires forall i :: 0 <= i < |sigs| ==> c.checkSig(sigs[i], keys[i], script)
    ensures Scan(c, script, sigs, keys) == Scanned(true, |sigs|)
    decreases |keys|
  {
    hide EncodingError, WellEncoded;
    if sigs == [] {
    } else {
      WellEncodedStep(c, sigs, keys);
      assert forall i :: 0 <= i < |sigs[1..]| ==> sigs[1..][i] == sigs[i + 1] && keys[1..][i] == keys[i + 1];
      AllFit(c, script, sigs[1..], keys[1..]);
    }
  }

  /** A signature that fits none of the first j keys meets the next one's bad encoding, after j checks. */
  lemma {:induction false} BadEncodingStops(c: Context, script: Code, sigs: seq<Element>, keys: seq<Element>, j: nat,
                                            e: ScriptError)
    requires 0 < |sigs| && j + |sigs| <= |keys| && EncodingError(c, sigs[0], keys[j]) == Some(e)
    requires forall i :: 0 <= i < j ==>
               EncodingError(c, sigs[0], keys[i]).None? && !c.checkSig(sigs[0], keys[i], script)
    ensures Scan(c, script, sigs, keys) == ScanError(e, j)
    decreases j
  {
    hide EncodingError;
    if j == 0 {
    } else {
      assert forall i :: 0 <= i < |keys[1..]| ==> keys[1..][i] == keys[i + 1];
      BadEncodingStops(c, script, sigs, keys[1..], j - 1, e);
    }
  }

  /** Which counts of keys are refused, and why. */
  lemma KeyCountErrors(c: Context, m: State, n: int)
    requires IsOperand(n) && m.stack != [] && Top(m.stack, 1) == Encode(n)
    ensures n < 0 || n > 20 ==> ReadCounts(c, m) == Err(PubkeyCount)
    ensures 0 <= n <= 20 && m.ops + n > 201 ==> ReadCounts(c, m) == Err(OpCount)
    ensures 0 <= n <= 20 && m.ops + n <= 201 && |m.stack| < 2 + n ==> ReadCounts(c, m) == Err(InvalidStackOperation)
  {
    hide Encode, ReadNum;
    NumberReads(n, c.flags.minimalData);
  }

  /** Every listed key counts as an operation. */
  lemma KeysAreCounted(c: Context, script: Code, op: byte, m: State)
    requires MultisigOp(c, script, op, m).Continue?
    ensures m.stack != [] && ReadNum(Top(m.stack, 1), c.flags.minimalData, 4).Some?
    ensures MultisigOp(c, script, op, m).state.ops == m.ops + ReadNum(Top(m.stack, 1), c.flags.minimalData, 4).value
  {
    hide Scan, Decode, Minimal, KeysOf, SigsOf;
    ReadNumRange(Top(m.stack, 1), c.flags.minimalData);
  }

  /** What passes the encoding rules, in terms of DER and of the flags. */
  lemma EncodingIff(c: Context, sig: Element, key: Element)
    ensures EncodingError(c, sig, key).None? <==>
            && (sig != [] ==>
                  && |sig| <= 73 && IsDerSignature(sig) && (c.flags.lowS ==> c.checkLowS(sig[..|sig| - 1]))
                  && (c.flags.strictEnc ==> sig[|sig| - 1] in {0x01, 0x02, 0x03, 0x81, 0x82, 0x83}))
            && (c.flags.strictEnc ==> IsCompressedOrUncompressedPubKey(key))
    ensures EncodingError(c, sig, key) == Some(SigDer) <==> sig != [] && !(|sig| <= 73 && IsDerSignature(sig))
    ensures EncodingError(c, sig, key) == Some(SigHashtype) ==> c.flags.strictEnc && sig != []
    ensures EncodingError(c, sig, key) == Some(PubkeyType) ==>
              c.flags.strictEnc && !IsCompressedOrUncompressedPubKey(key) && SigEncodingError(c, sig).None?
  {
    hide IsValidSignatureEncoding, IsDerSignature, IsDefinedHashtype, IsCompressedOrUncompressedPubKey;
    ValidEncodingIff(sig);
    if sig != [] { HashTypes(sig); }
  }
}
