/** Byte-coded scripts: reading instructions, static counts, and pushing data. */
module Script {

  import opened Prelude
  import opened ScriptNum

  type Code = seq<byte>

  const OP_0: byte := 0x00
  const OP_PUSHDATA1: byte := 0x4c
  const OP_PUSHDATA2: byte := 0x4d
  const OP_PUSHDATA4: byte := 0x4e
  const OP_1NEGATE: byte := 0x4f
  const OP_1: byte := 0x51
  const OP_16: byte := 0x60
  const OP_EQUAL: byte := 0x87
  const OP_HASH160: byte := 0xa9
  const OP_CHECKSIG: byte := 0xac
  const OP_CHECKSIGVERIFY: byte := 0xad
  const OP_CHECKMULTISIG: byte := 0xae
  const OP_CHECKMULTISIGVERIFY: byte := 0xaf
  const OP_INVALIDOPCODE: byte := 0xff

  /** One instruction: its opcode, its immediate data, and where the next one starts. */
  datatype Instruction = Instruction(opcode: byte, data: Element, next: nat)

  /** Where the immediate data of a push starts and how long it claims to be. */
  datatype Operand = Operand(start: nat, size: nat)

  function ReadOperand(script: Code, pc: nat, opcode: byte): (r: Option<Operand>)
    requires pc <= |script| && opcode <= OP_PUSHDATA4
    ensures r.Some? ==> pc <= r.value.start <= |script|
  {
    if opcode < OP_PUSHDATA1 then Some(Operand(pc, opcode))
    else if opcode == OP_PUSHDATA1 then
      if |script| - pc < 1 then None else Some(Operand(pc + 1, script[pc]))
    else if opcode == OP_PUSHDATA2 then
      if |script| - pc < 2 then None else Some(Operand(pc + 2, Magnitude(script[pc..pc + 2])))
    else
      if |script| - pc < 4 then None else Some(Operand(pc + 4, Magnitude(script[pc..pc + 4])))
  }

  function GetOp(script: Code, pc: nat): (r: Option<Instruction>)
    requires pc <= |script|
    ensures r.Some? ==> pc < r.value.next <= |script| && r.value.opcode == script[pc]
    ensures r.Some? && r.value.opcode > OP_PUSHDATA4 ==> r.value.data == []
  {
    if pc >= |script| then None
    else
      var opcode := script[pc];
      if opcode <= OP_PUSHDATA4 then
        match ReadOperand(script, pc + 1, opcode)
        case None => None
        case Some(o) =>
          if |script| - o.start < o.size then None
          else Some(Instruction(opcode, script[o.start..o.start + o.size], o.start + o.size))
      else Some(Instruction(opcode, [], pc + 1))
  }

  predicate IsSmallInt(opcode: byte) { OP_1 <= opcode <= OP_16 }

  /** Small integers; the preconditions are the assertions in the source. */
  function DecodeOpN(opcode: byte): nat
    requires opcode == OP_0 || IsSmallInt(opcode)
  {
    if opcode == OP_0 then 0 else opcode - (OP_1 - 1)
  }

  function EncodeOpN(n: nat): byte
    requires n <= 16
  {
    if n == 0 then OP_0 else OP_1 + n - 1
  }

  predicate IsPayToScriptHash(script: Code)
  {
    |script| == 23 && script[0] == OP_HASH160 && script[1] == 0x14 && script[22] == OP_EQUAL
  }

  // ---------------------------------------------------------------- static counts

  /** What one instruction adds to the signature-operation count. */
  function SigOpCost(opcode: byte, last: byte, accurate: bool): nat
  {
    if opcode == OP_CHECKSIG || opcode == OP_CHECKSIGVERIFY then 1
    else if opcode == OP_CHECKMULTISIG || opcode == OP_CHECKMULTISIGVERIFY then
      if accurate && IsSmallInt(last) then DecodeOpN(last) else 20
    else 0
  }

  function SigOpsFrom(script: Code, pc: nat, last: byte, accurate: bool): nat
    requires pc <= |script|
    decreases |script| - pc
  {
    match GetOp(script, pc)
    case None => 0
    case Some(i) => SigOpCost(i.opcode, last, accurate) + SigOpsFrom(script, i.next, i.opcode, accurate)
  }

  function SigOps(script: Code, accurate: bool): nat
  {
    SigOpsFrom(script, 0, OP_INVALIDOPCODE, accurate)
  }

  method GetSigOpCount(script: Code, accurate: bool) returns (n: nat)
    ensures n == SigOps(script, accurate)
  {
    n := 0;
    var pc := 0;
    var last := OP_INVALIDOPCODE;
    while pc < |script|
      invariant pc <= |script|
      invariant n + SigOpsFrom(script, pc, last, accurate) == SigOps(script, accurate)
      decreases |script| - pc
    {
      hide ReadOperand;
      var read := GetOp(script, pc);
      if read == None { break; }
      var i := read.value;
      if i.opcode == OP_CHECKSIG || i.opcode == OP_CHECKSIGVERIFY {
        n := n + 1;
      } else if i.opcode == OP_CHECKMULTISIG || i.opcode == OP_CHECKMULTISIGVERIFY {
        if accurate && IsSmallInt(last) {
          n := n + DecodeOpN(last);
        } else {
          n := n + 20;
        }
      }
      last := i.opcode;
      pc := i.next;
    }
  }

  /** The accurate count never exceeds the legacy one. */
  lemma {:induction false} AccurateIsLower(script: Code, pc: nat, last: byte)
    requires pc <= |script|
    ensures SigOpsFrom(script, pc, last, true) <= SigOpsFrom(script, pc, last, false)
    decreases |script| - pc
  {
    hide ReadOperand;
    var read := GetOp(script, pc);
    if read.Some? { AccurateIsLower(script, read.value.next, read.value.opcode); }
  }

  predicate PushOnlyFrom(script: Code, pc: nat)
    requires pc <= |script|
    decreases |script| - pc
  {
    pc < |script| ==>
      var read := GetOp(script, pc);
      read.Some? && read.value.opcode <= OP_16 && PushOnlyFrom(script, read.value.next)
  }

  predicate PushOnly(script: Code) { PushOnlyFrom(script, 0) }

  method IsPushOnly(script: Code) returns (b: bool)
    ensures b == PushOnly(script)
  {
    var pc := 0;
    while pc < |script|
      invariant pc <= |script| && PushOnlyFrom(script, pc) == PushOnly(script)
      decreases |script| - pc
    {
      var read := GetOp(script, pc);
      if read == None { return false; }
      if read.value.opcode > OP_16 { return false; }
      pc := read.value.next;
    }
    return true;
  }

  /** The data of the last instruction, or `data` when there is none. */
  function LastData(script: Code, pc: nat, data: Element): Element
    requires pc <= |script| && PushOnlyFrom(script, pc)
    decreases |script| - pc
  {
    if pc == |script| then data
    else
      var i := GetOp(script, pc).value;
      LastData(script, i.next, i.data)
  }

  /** The count for an output script, looking through pay-to-script-hash. */
  function SigOpsSpending(script: Code, scriptSig: Code): nat
  {
    if !IsPayToScriptHash(script) then SigOps(script, true)
    else if !PushOnly(scriptSig) then 0
    else SigOps(LastData(scriptSig, 0, []), true)
  }

  method GetSigOpCountSpending(script: Code, scriptSig: Code) returns (n: nat)
    ensures n == SigOpsSpending(script, scriptSig)
  {
    if !IsPayToScriptHash(script) {
      n := GetSigOpCount(script, true);
      return;
    }
    var pc := 0;
    var data: Element := [];
    while pc < |scriptSig|
      invariant pc <= |scriptSig|
      invariant PushOnlyFrom(scriptSig, pc) == PushOnly(scriptSig)
      invariant PushOnly(scriptSig) ==> LastData(scriptSig, pc, data) == LastData(scriptSig, 0, [])
      decreases |scriptSig| - pc
    {
      hide ReadOperand;
      var read := GetOp(scriptSig, pc);
      if read == None { return 0; }
      data := read.value.data;
      if read.value.opcode > OP_16 { return 0; }
      pc := read.value.next;
    }
    n := GetSigOpCount(data, true);
  }

  // ---------------------------------------------------------------- pushing data

  /** `n` little-endian bytes of a length. */
  function LengthBytes(v: nat, n: nat): (s: seq<byte>)
    ensures |s| == n
  {
    if n == 0 then [] else [v % 256] + LengthBytes(v / 256, n - 1)
  }

  lemma {:induction false} LengthBytesValue(v: nat, n: nat)
    requires v < Pow256(n)
    ensures Magnitude(LengthBytes(v, n)) == v
    decreases n
  {
    if n == 0 {
    } else {
      LengthBytesValue(v / 256, n - 1);
      assert LengthBytes(v, n)[1..] == LengthBytes(v / 256, n - 1);
    }
  }

  function PushHeader(size: nat): seq<byte>
  {
    if size < OP_PUSHDATA1 then [size]
    else if size <= 0xff then [OP_PUSHDATA1, size]
    else if size <= 0xffff then [OP_PUSHDATA2] + LengthBytes(size, 2)
    else [OP_PUSHDATA4] + LengthBytes(size, 4)
  }

  /** The bytes `operator<<` appends for a byte vector. */
  function Push(data: Element): Code { PushHeader(|data|) + data }

  function PushOpcode(size: nat): byte
  {
    if size < OP_PUSHDATA1 then size
    else if size <= 0xff then OP_PUSHDATA1
    else if size <= 0xffff then OP_PUSHDATA2
    else OP_PUSHDATA4
  }

  lemma HeaderOperand(before: Code, size: nat, after: Code)
    requires size < 0x1_0000_0000
    ensures PushHeader(size) != [] && PushHeader(size)[0] == PushOpcode(size) <= OP_PUSHDATA4
    ensures ReadOperand(before + PushHeader(size) + after, |before| + 1, PushOpcode(size))
         == Some(Operand(|before| + |PushHeader(size)|, size))
  {
    hide Magnitude, LengthBytes;
    var h := PushHeader(size);
    var s := before + h + after;
    var pc := |before| + 1;
    if size < OP_PUSHDATA1 {
    } else if size <= 0xff {
      assert s[pc] == h[1];
    } else if size <= 0xffff {
      assert s[pc..pc + 2] == LengthBytes(size, 2);
      assert size < Pow256(2);
      LengthBytesValue(size, 2);
    } else {
      assert s[pc..pc + 4] == LengthBytes(size, 4);
      assert Pow256(2) == 0x1_0000;
      assert size < Pow256(4);
      LengthBytesValue(size, 4);
    }
  }

  /** A pushed element is read back whole, wherever in a script it stands. */
  lemma GetPush(before: Code, data: Element, after: Code)
    requires |data| < 0x1_0000_0000
    ensures GetOp(before + Push(data) + after, |before|)
         == Some(Instruction(PushOpcode(|data|), data, |before| + |Push(data)|))
  {
    hide PushHeader, ReadOperand, PushOpcode;
    var h := PushHeader(|data|);
    var s := before + Push(data) + after;
    HeaderOperand(before, |data|, data + after);
    assert s == before + h + (data + after);
    assert s[|before|] == h[0];
    var start := |before| + |h|;
    assert s[start..start + |data|] == data;
  }
}
