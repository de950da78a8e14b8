/** The script machine: what one instruction does to the stacks, and whole runs. */
module Machine {

  import opened Prelude
  import opened ScriptNum
  import opened Script
  import opened SigEncoding

  const MAX_SCRIPT_ELEMENT_SIZE: nat := 520
  const MAX_SCRIPT_SIZE: nat := 10000
  const MAX_OPS: nat := 201
  const MAX_STACK: nat := 1000
  const MAX_KEYS: nat := 20

  const OP_NOP: byte := 0x61
  const OP_IF: byte := 0x63
  const OP_NOTIF: byte := 0x64
  const OP_ELSE: byte := 0x67
  const OP_ENDIF: byte := 0x68
  const OP_VERIFY: byte := 0x69
  const OP_RETURN: byte := 0x6a
  const OP_TOALTSTACK: byte := 0x6b
  const OP_FROMALTSTACK: byte := 0x6c
  const OP_2DROP: byte := 0x6d
  const OP_2DUP: byte := 0x6e
  const OP_3DUP: byte := 0x6f
  const OP_2OVER: byte := 0x70
  const OP_2ROT: byte := 0x71
  const OP_2SWAP: byte := 0x72
  const OP_IFDUP: byte := 0x73
  const OP_DEPTH: byte := 0x74
  const OP_DROP: byte := 0x75
  const OP_DUP: byte := 0x76
  const OP_NIP: byte := 0x77
  const OP_OVER: byte := 0x78
  const OP_PICK: byte := 0x79
  const OP_ROLL: byte := 0x7a
  const OP_ROT: byte := 0x7b
  const OP_SWAP: byte := 0x7c
  const OP_TUCK: byte := 0x7d
  const OP_SIZE: byte := 0x82
  const OP_EQUALVERIFY: byte := 0x88
  const OP_1ADD: byte := 0x8b
  const OP_1SUB: byte := 0x8c
  const OP_NEGATE: byte := 0x8f
  const OP_ABS: byte := 0x90
  const OP_NOT: byte := 0x91
  const OP_0NOTEQUAL: byte := 0x92
  const OP_ADD: byte := 0x93
  const OP_SUB: byte := 0x94
  const OP_BOOLAND: byte := 0x9a
  const OP_BOOLOR: byte := 0x9b
  const OP_NUMEQUAL: byte := 0x9c
  const OP_NUMEQUALVERIFY: byte := 0x9d
  const OP_NUMNOTEQUAL: byte := 0x9e
  const OP_LESSTHAN: byte := 0x9f
  const OP_GREATERTHAN: byte := 0xa0
  const OP_LESSTHANOREQUAL: byte := 0xa1
  const OP_GREATERTHANOREQUAL: byte := 0xa2
  const OP_MIN: byte := 0xa3
  const OP_MAX: byte := 0xa4
  const OP_WITHIN: byte := 0xa5
  const OP_RIPEMD160: byte := 0xa6
  const OP_SHA1: byte := 0xa7
  const OP_SHA256: byte := 0xa8
  const OP_HASH256: byte := 0xaa
  const OP_NOP1: byte := 0xb0
  const OP_CHECKLOCKTIMEVERIFY: byte := 0xb1
  const OP_NOP10: byte := 0xb9

  datatype ScriptError =
    | UnknownError | EvalFalse | OpReturn
    | ScriptSize | PushSize | OpCount | StackSize | SigCount | PubkeyCount
    | VerifyFailed | EqualVerify | CheckMultisigVerify | CheckSigVerify | NumEqualVerify
    | BadOpcode | DisabledOpcode | InvalidStackOperation | InvalidAltstackOperation | UnbalancedConditional
    | NegativeLocktime | UnsatisfiedLocktime
    | SigHashtype | SigDer | MinimalData | SigPushOnly | SigNullDummy | PubkeyType | CleanStack
    | DiscourageUpgradableNops

  datatype Flags = Flags(p2sh: bool, strictEnc: bool, lowS: bool, nullDummy: bool, sigPushOnly: bool,
                         minimalData: bool, discourageNops: bool, cleanStack: bool, lockTime: bool)

  /** The flags of a run and the operations the machine takes from outside. */
  datatype Context = Context(
    flags: Flags,
    checkSig: (Element, Element, Code) -> bool,
    checkLockTime: int -> bool,
    checkLowS: Element -> bool,
    ripemd160: Element -> Element,
    sha1: Element -> Element,
    sha256: Element -> Element,
    hash160: Element -> Element,
    hash256: Element -> Element)

  /** The hash functions have outputs of fixed length. */
  ghost predicate GoodContext(c: Context)
  {
    forall x: Element ::
      |c.ripemd160(x)| == 20 && |c.sha1(x)| == 20 && |c.hash160(x)| == 20
      && |c.sha256(x)| == 32 && |c.hash256(x)| == 32
  }

  datatype State = State(pc: nat, stack: seq<Element>, alt: seq<Element>, exec: seq<bool>,
                         ops: nat, checks: nat)

  /** One step goes on or stops; `checks` counts the calls of `checkSig` so far. */
  datatype Outcome = Continue(state: State) | Abort(error: ScriptError, checks: nat)

  const TRUE_ELEMENT: Element := [1]
  const FALSE_ELEMENT: Element := []

  function FromBool(b: bool): Element { if b then TRUE_ELEMENT else FALSE_ELEMENT }

  predicate IsTrue(v: Element) { Decode(v) != 0 }

  /** Counting from 1 at the top. */
  function Top(stack: seq<Element>, k: nat): Element
    requires 1 <= k <= |stack|
  {
    stack[|stack| - k]
  }

  function Pop(stack: seq<Element>, n: nat): seq<Element>
    requires n <= |stack|
  {
    stack[..|stack| - n]
  }

  predicate Executing(exec: seq<bool>) { false !in exec }

  // ---------------------------------------------------------------- opcodes on the stack alone

  type Stacked = Result<seq<Element>, ScriptError>

  /** How deep the stack must be for a stack, comparison or size opcode. */
  function Depth(op: byte): nat
  {
    if op == OP_DEPTH then 0
    else if op == OP_IFDUP || op == OP_DROP || op == OP_DUP || op == OP_SIZE then 1
    else if op == OP_3DUP || op == OP_ROT then 3
    else if op == OP_2OVER || op == OP_2SWAP then 4
    else if op == OP_2ROT then 6
    else 2
  }

  predicate IsStackOp(op: byte)
  {
    OP_2DROP <= op <= OP_TUCK || op == OP_SIZE || op == OP_EQUAL || op == OP_EQUALVERIFY
  }

  /** Two elements exchanged, each counted from the top. */
  function Swapped(s: seq<Element>, i: nat, j: nat): (r: seq<Element>)
    requires 1 <= i <= |s| && 1 <= j <= |s|
    ensures |r| == |s|
  {
    s[|s| - i := Top(s, j)][|s| - j := Top(s, i)]
  }

  /** Without the elements from depth `from` down to just above depth `to`. */
  function Erased(s: seq<Element>, from: nat, to: nat): seq<Element>
    requires to <= from <= |s|
  {
    s[..|s| - from] + s[|s| - to..]
  }

  /** With `x` put in below the top `depth` elements. */
  function Inserted(s: seq<Element>, depth: nat, x: Element): seq<Element>
    requires depth <= |s|
  {
    s[..|s| - depth] + [x] + s[|s| - depth..]
  }

  function StackOp(op: byte, s: seq<Element>, minimal: bool): Stacked
    requires IsStackOp(op)
  {
    if |s| < Depth(op) then Err(InvalidStackOperation)
    else if op == OP_2DROP then Ok(Pop(Pop(s, 1), 1))
    else if op == OP_2DUP then Ok(s + [Top(s, 2)] + [Top(s, 1)])
    else if op == OP_3DUP then Ok(s + [Top(s, 3)] + [Top(s, 2)] + [Top(s, 1)])
    else if op == OP_2OVER then Ok(s + [Top(s, 4)] + [Top(s, 3)])
    else if op == OP_2ROT then Ok(Erased(s, 6, 4) + [Top(s, 6)] + [Top(s, 5)])
    else if op == OP_2SWAP then Ok(Swapped(Swapped(s, 4, 2), 3, 1))
    else if op == OP_IFDUP then Ok(if IsTrue(Top(s, 1)) then s + [Top(s, 1)] else s)
    else if op == OP_DEPTH then Ok(s + [Encode(|s|)])
    else if op == OP_DROP then Ok(Pop(s, 1))
    else if op == OP_DUP then Ok(s + [Top(s, 1)])
    else if op == OP_NIP then Ok(Erased(s, 2, 1))
    else if op == OP_OVER then Ok(s + [Top(s, 2)])
    else if op == OP_PICK || op == OP_ROLL then PickOrRoll(op == OP_ROLL, s, minimal)
    else if op == OP_ROT then Ok(Swapped(Swapped(s, 3, 2), 2, 1))
    else if op == OP_SWAP then Ok(Swapped(s, 2, 1))
    else if op == OP_TUCK then Ok(Inserted(s, 2, Top(s, 1)))
    else if op == OP_SIZE then Ok(s + [Encode(|Top(s, 1)|)])
    else
      var equal := Top(s, 2) == Top(s, 1);
      var r := Pop(Pop(s, 1), 1) + [FromBool(equal)];
      if op == OP_EQUAL then Ok(r)
      else if equal then Ok(Pop(r, 1))
      else Err(EqualVerify)
  }

  function PickOrRoll(roll: bool, s: seq<Element>, minimal: bool): Stacked
    requires |s| >= 2
  {
    match ReadNum(Top(s, 1), minimal, 4)
    case None => Err(UnknownError)
    case Some(v) =>
      var n := GetInt(v);
      var t := Pop(s, 1);
      if n < 0 || n >= |t| then Err(InvalidStackOperation)
      else Ok((if roll then Erased(t, n + 1, n) else t) + [Top(t, n + 1)])
  }

  predicate IsOperand(v: int) { -INT_MAX <= v <= INT_MAX }

  function ToInt(b: bool): int { if b then 1 else 0 }

  function Unary(op: byte, v: int): (r: int)
    requires IsOperand(v)
    ensures -0x8000_0000 <= r <= 0x8000_0000
  {
    if op == OP_1ADD then AddAssign(v, 1)
    else if op == OP_1SUB then SubAssign(v, 1)
    else if op == OP_NEGATE then Negate(v)
    else if op == OP_ABS then if v < 0 then Negate(v) else v
    else if op == OP_NOT then ToInt(v == 0)
    else ToInt(v != 0)
  }

  function Binary(op: byte, a: int, b: int): (r: int)
    requires IsOperand(a) && IsOperand(b)
    ensures -0xffff_ffff <= r <= 0xffff_ffff
  {
    if op == OP_ADD then a + b
    else if op == OP_SUB then a - b
    else if op == OP_BOOLAND then ToInt(a != 0 && b != 0)
    else if op == OP_BOOLOR then ToInt(a != 0 || b != 0)
    else if op == OP_NUMEQUAL || op == OP_NUMEQUALVERIFY then ToInt(a == b)
    else if op == OP_NUMNOTEQUAL then ToInt(a != b)
    else if op == OP_LESSTHAN then ToInt(a < b)
    else if op == OP_GREATERTHAN then ToInt(a > b)
    else if op == OP_LESSTHANOREQUAL then ToInt(a <= b)
    else if op == OP_GREATERTHANOREQUAL then ToInt(a >= b)
    else if op == OP_MIN then if a < b then a else b
    else if a > b then a else b
  }

  predicate IsUnary(op: byte)
  {
    op == OP_1ADD || op == OP_1SUB || OP_NEGATE <= op <= OP_0NOTEQUAL
  }

  predicate IsBinary(op: byte)
  {
    op == OP_ADD || op == OP_SUB || OP_BOOLAND <= op <= OP_MAX
  }

  function UnaryOp(op: byte, s: seq<Element>, minimal: bool): Stacked
  {
    if |s| < 1 then Err(InvalidStackOperation)
    else
      match ReadNum(Top(s, 1), minimal, 4)
      case None => Err(UnknownError)
      case Some(v) =>
        ReadNumRange(Top(s, 1), minimal);
        Ok(Pop(s, 1) + [Encode(Unary(op, v))])
  }

  function BinaryOp(op: byte, s: seq<Element>, minimal: bool): Stacked
  {
    if |s| < 2 then Err(InvalidStackOperation)
    else
      var n1, n2 := ReadNum(Top(s, 2), minimal, 4), ReadNum(Top(s, 1), minimal, 4);
      if n1 == None || n2 == None then Err(UnknownError)
      else
        ReadNumRange(Top(s, 2), minimal);
        ReadNumRange(Top(s, 1), minimal);
        var r := Pop(s, 2) + [Encode(Binary(op, n1.value, n2.value))];
        if op == OP_NUMEQUALVERIFY then
          if IsTrue(Top(r, 1)) then Ok(Pop(r, 1)) else Err(NumEqualVerify)
        else Ok(r)
  }

  function Within(s: seq<Element>, minimal: bool): Stacked
  {
    if |s| < 3 then Err(InvalidStackOperation)
    else
      var n1, n2, n3 := ReadNum(Top(s, 3), minimal, 4), ReadNum(Top(s, 2), minimal, 4), ReadNum(Top(s, 1), minimal, 4);
      if n1 == None || n2 == None || n3 == None then Err(UnknownError)
      else Ok(Pop(s, 3) + [FromBool(n2.value <= n1.value < n3.value)])
  }

  function Hash(c: Context, op: byte, v: Element): Element
  {
    if op == OP_RIPEMD160 then c.ripemd160(v)
    else if op == OP_SHA1 then c.sha1(v)
    else if op == OP_SHA256 then c.sha256(v)
    else if op == OP_HASH160 then c.hash160(v)
    else c.hash256(v)
  }

  function HashOp(c: Context, op: byte, s: seq<Element>): Stacked
  {
    if |s| < 1 then Err(InvalidStackOperation)
    else Ok(Pop(s, 1) + [Hash(c, op, Top(s, 1))])
  }

  function LockTimeOp(c: Context, s: seq<Element>): Stacked
  {
    if !c.flags.lockTime then
      if c.flags.discourageNops then Err(DiscourageUpgradableNops) else Ok(s)
    else if |s| < 1 then Err(InvalidStackOperation)
    else
      match ReadNum(Top(s, 1), c.flags.minimalData, 5)
      case None => Err(UnknownError)
      case Some(v) =>
        if v < 0 then Err(NegativeLocktime)
        else if !c.checkLockTime(v) then Err(UnsatisfiedLocktime)
        else Ok(s)
  }

  function VerifyOp(s: seq<Element>): Stacked
  {
    if |s| < 1 then Err(InvalidStackOperation)
    else if IsTrue(Top(s, 1)) then Ok(Pop(s, 1))
    else Err(VerifyFailed)
  }

  /** The opcodes that touch nothing but the main stack. */
  function PlainOp(c: Context, op: byte, s: seq<Element>): Stacked
  {
    var minimal := c.flags.minimalData;
    if op == OP_1NEGATE || IsSmallInt(op) then Ok(s + [Encode(op - (OP_1 - 1))])
    else if op == OP_NOP then Ok(s)
    else if op == OP_CHECKLOCKTIMEVERIFY then LockTimeOp(c, s)
    else if OP_NOP1 <= op <= OP_NOP10 then
      if c.flags.discourageNops then Err(DiscourageUpgradableNops) else Ok(s)
    else if op == OP_VERIFY then VerifyOp(s)
    else if op == OP_RETURN then Err(OpReturn)
    else if IsStackOp(op) then StackOp(op, s, minimal)
    else if IsUnary(op) then UnaryOp(op, s, minimal)
    else if IsBinary(op) then BinaryOp(op, s, minimal)
    else if op == OP_WITHIN then Within(s, minimal)
    else if OP_RIPEMD160 <= op <= OP_HASH256 then HashOp(c, op, s)
    else Err(BadOpcode)
  }

  // ---------------------------------------------------------------- conditionals and the alt stack

  function ControlOp(op: byte, m: State): (r: Outcome)
    ensures r.Continue? ==> r.state.pc == m.pc
  {
    if op == OP_IF || op == OP_NOTIF then
      if Executing(m.exec) then
        if |m.stack| < 1 then Abort(UnbalancedConditional, m.checks)
        else
          var value := IsTrue(Top(m.stack, 1));
          Continue(m.(stack := Pop(m.stack, 1), exec := m.exec + [if op == OP_NOTIF then !value else value]))
      else Continue(m.(exec := m.exec + [false]))
    else if op == OP_ELSE then
      if m.exec == [] then Abort(UnbalancedConditional, m.checks)
      else
        var k := |m.exec| - 1;
        Continue(m.(exec := m.exec[..k] + [!m.exec[k]]))
    else if op == OP_ENDIF then
      if m.exec == [] then Abort(UnbalancedConditional, m.checks)
      else Continue(m.(exec := m.exec[..|m.exec| - 1]))
    else Abort(BadOpcode, m.checks)
  }

  function AltOp(op: byte, m: State): (r: Outcome)
    ensures r.Continue? ==> r.state.pc == m.pc
  {
    if op == OP_TOALTSTACK then
      if |m.stack| < 1 then Abort(InvalidStackOperation, m.checks)
      else Continue(m.(alt := m.alt + [Top(m.stack, 1)], stack := Pop(m.stack, 1)))
    else if |m.alt| < 1 then Abort(InvalidAltstackOperation, m.checks)
    else Continue(m.(stack := m.stack + [Top(m.alt, 1)], alt := Pop(m.alt, 1)))
  }

  // ---------------------------------------------------------------- signatures

  predicate IsDefinedHashtype(sig: Element)
  {
    sig != [] && 1 <= sig[|sig| - 1] % 0x80 <= 3
  }

  /** Why a signature may not be checked at all, if there is a reason. */
  function SigEncodingError(c: Context, sig: Element): Option<ScriptError>
  {
    if sig == [] then None
    else if !IsValidSignatureEncoding(sig) then Some(SigDer)
    else if c.flags.lowS && !c.checkLowS(sig[..|sig| - 1]) then Some(UnknownError)
    else if c.flags.strictEnc && !IsDefinedHashtype(sig) then Some(SigHashtype)
    else None
  }

  function EncodingError(c: Context, sig: Element, key: Element): Option<ScriptError>
  {
    var e := SigEncodingError(c, sig);
    if e.Some? then e
    else if c.flags.strictEnc && !IsCompressedOrUncompressedPubKey(key) then Some(PubkeyType)
    else None
  }

  function CheckSigOp(c: Context, script: Code, op: byte, m: State): (r: Outcome)
    ensures r.Continue? ==> r.state.pc == m.pc
  {
    if |m.stack| < 2 then Abort(InvalidStackOperation, m.checks)
    else
      var sig, key := Top(m.stack, 2), Top(m.stack, 1);
      match EncodingError(c, sig, key)
      case Some(e) => Abort(e, m.checks)
      case None =>
        var ok := c.checkSig(sig, key, script);
        var rest := Pop(m.stack, 2);
        if op == OP_CHECKSIGVERIFY then
          if ok then Continue(m.(stack := rest, checks := m.checks + 1))
          else Abort(CheckSigVerify, m.checks + 1)
        else Continue(m.(stack := rest + [FromBool(ok)], checks := m.checks + 1))
  }

  /** How the scan of signatures against keys ended, and how many `checkSig` calls it made. */
  datatype ScanResult = Scanned(success: bool, calls: nat) | ScanError(error: ScriptError, calls: nat)

  function OneMoreCall(r: ScanResult): ScanResult
  {
    match r
    case Scanned(ok, n) => Scanned(ok, n + 1)
    case ScanError(e, n) => ScanError(e, n + 1)
  }

  /** The scan, given the signatures and keys still left, in the order it visits them. */
  function Scan(c: Context, script: Code, sigs: seq<Element>, keys: seq<Element>): ScanResult
    requires |sigs| <= |keys|
    decreases |keys|
  {
    if sigs == [] then Scanned(true, 0)
    else
      match EncodingError(c, sigs[0], keys[0])
      case Some(e) => ScanError(e, 0)
      case None =>
        var left := if c.checkSig(sigs[0], keys[0], script) then sigs[1..] else sigs;
        if |left| > |keys| - 1 then Scanned(false, 1)
        else OneMoreCall(Scan(c, script, left, keys[1..]))
  }

  /** `n` elements going down the stack, the first of them at depth `k`. */
  function Downward(s: seq<Element>, k: nat, n: nat): (r: seq<Element>)
    requires 1 <= k && k + n <= |s| + 1
    ensures |r| == n
  {
    seq(n, j requires 0 <= j < n => Top(s, k + j))
  }

  /** The counts CHECKMULTISIG reads from the stack, once they pass every test. */
  datatype Counts = Counts(keys: nat, sigs: nat)

  function ReadCounts(c: Context, m: State): (r: Result<Counts, ScriptError>)
    ensures r.Ok? ==> r.value.sigs <= r.value.keys <= MAX_KEYS && 3 + r.value.keys + r.value.sigs <= |m.stack|
    ensures r.Ok? ==> m.ops + r.value.keys <= MAX_OPS
  {
    var s, minimal := m.stack, c.flags.minimalData;
    if |s| < 1 then Err(InvalidStackOperation)
    else
      match ReadNum(Top(s, 1), minimal, 4)
      case None => Err(UnknownError)
      case Some(v) =>
        var nKeys := GetInt(v);
        if nKeys < 0 || nKeys > MAX_KEYS then Err(PubkeyCount)
        else if m.ops + nKeys > MAX_OPS then Err(OpCount)
        else if |s| < 2 + nKeys then Err(InvalidStackOperation)
        else
          match ReadNum(Top(s, 2 + nKeys), minimal, 4)
          case None => Err(UnknownError)
          case Some(w) =>
            var nSigs := GetInt(w);
            if nSigs < 0 || nSigs > nKeys then Err(SigCount)
            else if |s| < 3 + nKeys + nSigs then Err(InvalidStackOperation)
            else Ok(Counts(nKeys, nSigs))
  }

  function KeysOf(s: seq<Element>, n: Counts): seq<Element>
    requires 3 + n.keys + n.sigs <= |s|
  {
    Downward(s, 2, n.keys)
  }

  function SigsOf(s: seq<Element>, n: Counts): seq<Element>
    requires 3 + n.keys + n.sigs <= |s|
  {
    Downward(s, 3 + n.keys, n.sigs)
  }

  function MultisigOp(c: Context, script: Code, op: byte, m: State): (r: Outcome)
    ensures r.Continue? ==> r.state.pc == m.pc
  {
    match ReadCounts(c, m)
    case Err(e) => Abort(e, m.checks)
    case Ok(n) =>
      match Scan(c, script, SigsOf(m.stack, n), KeysOf(m.stack, n))
      case ScanError(e, calls) => Abort(e, m.checks + calls)
      case Scanned(ok, calls) => FinishMultisig(c, op, m, n, ok, calls)
  }

  /** Clearing the arguments, the extra element and the result. */
  function FinishMultisig(c: Context, op: byte, m: State, n: Counts, ok: bool, calls: nat): (r: Outcome)
    requires 3 + n.keys + n.sigs <= |m.stack|
    ensures r.Continue? ==> r.state.pc == m.pc
  {
    var used := 2 + n.keys + n.sigs;
    var checks := m.checks + calls;
    if c.flags.nullDummy && Top(m.stack, used + 1) != [] then Abort(SigNullDummy, checks)
    else
      var rest := Pop(m.stack, used + 1);
      if op == OP_CHECKMULTISIGVERIFY then
        if ok then Continue(m.(stack := rest, ops := m.ops + n.keys, checks := checks))
        else Abort(CheckMultisigVerify, checks)
      else Continue(m.(stack := rest + [FromBool(ok)], ops := m.ops + n.keys, checks := checks))
  }

  // ---------------------------------------------------------------- one step

  predicate IsDisabled(op: byte)
  {
    0x7e <= op <= 0x81 || 0x83 <= op <= 0x86 || op == 0x8d || op == 0x8e || 0x95 <= op <= 0x99 || op == 0xab
  }

  predicate CheckMinimalPush(data: Element, opcode: byte)
  {
    if |data| == 0 then opcode == OP_0
    else if |data| == 1 && 1 <= data[0] <= 16 then opcode == OP_1 + (data[0] - 1)
    else if |data| == 1 && data[0] == 0x81 then opcode == OP_1NEGATE
    else if |data| <= 75 then opcode == |data|
    else if |data| <= 255 then opcode == OP_PUSHDATA1
    else if |data| <= 65535 then opcode == OP_PUSHDATA2
    else true
  }

  predicate IsControl(op: byte) { OP_IF <= op <= OP_ENDIF }

  function Dispatch(c: Context, script: Code, op: byte, m: State): (r: Outcome)
    ensures r.Continue? ==> r.state.pc == m.pc
  {
    if IsControl(op) then ControlOp(op, m)
    else if op == OP_TOALTSTACK || op == OP_FROMALTSTACK then AltOp(op, m)
    else if op == OP_CHECKSIG || op == OP_CHECKSIGVERIFY then CheckSigOp(c, script, op, m)
    else if op == OP_CHECKMULTISIG || op == OP_CHECKMULTISIGVERIFY then MultisigOp(c, script, op, m)
    else
      match PlainOp(c, op, m.stack)
      case Ok(s) => Continue(m.(stack := s))
      case Err(e) => Abort(e, m.checks)
  }

  function Execute(c: Context, script: Code, i: Instruction, m: State): (r: Outcome)
    ensures r.Continue? ==> r.state.pc == m.pc
  {
    if Executing(m.exec) && i.opcode <= OP_PUSHDATA4 then
      if c.flags.minimalData && !CheckMinimalPush(i.data, i.opcode) then Abort(MinimalData, m.checks)
      else Continue(m.(stack := m.stack + [i.data]))
    else if Executing(m.exec) || IsControl(i.opcode) then Dispatch(c, script, i.opcode, m)
    else Continue(m)
  }

  function StackLimited(o: Outcome): Outcome
  {
    if o.Continue? && |o.state.stack| + |o.state.alt| > MAX_STACK then Abort(StackSize, o.state.checks) else o
  }

  /** The state in which an instruction is executed: past it, and with it counted. */
  function Fetched(i: Instruction, m: State): State
  {
    m.(pc := i.next, ops := if i.opcode > OP_16 then m.ops + 1 else m.ops)
  }

  function Step(c: Context, script: Code, m: State): (r: Outcome)
    requires m.pc <= |script|
    ensures r.Continue? ==> m.pc < r.state.pc <= |script|
  {
    match GetOp(script, m.pc)
    case None => Abort(BadOpcode, m.checks)
    case Some(i) =>
      if |i.data| > MAX_SCRIPT_ELEMENT_SIZE then Abort(PushSize, m.checks)
      else if i.opcode > OP_16 && m.ops + 1 > MAX_OPS then Abort(OpCount, m.checks)
      else if IsDisabled(i.opcode) then Abort(DisabledOpcode, m.checks)
      else StackLimited(Execute(c, script, i, Fetched(i, m)))
  }

  // ---------------------------------------------------------------- whole runs

  datatype EvalResult = Success(stack: seq<Element>, checks: nat) | Failure(error: ScriptError, checks: nat)

  function Run(c: Context, script: Code, m: State): EvalResult
    requires m.pc <= |script|
    decreases |script| - m.pc
  {
    if m.pc >= |script| then
      if m.exec != [] then Failure(UnbalancedConditional, m.checks) else Success(m.stack, m.checks)
    else
      match Step(c, script, m)
      case Abort(e, n) => Failure(e, n)
      case Continue(next) => Run(c, script, next)
  }

  function Start(stack: seq<Element>): State { State(0, stack, [], [], 0, 0) }

  function Eval(c: Context, script: Code, stack: seq<Element>): EvalResult
  {
    if |script| > MAX_SCRIPT_SIZE then Failure(ScriptSize, 0) else Run(c, script, Start(stack))
  }
}
