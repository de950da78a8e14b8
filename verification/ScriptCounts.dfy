/** What a script's bytes say before it runs: its instructions, its exact counts, and what success needs of them. */
module ScriptCounts {

  import opened Prelude
  import opened ScriptNum
  import opened Script

  // ---------------------------------------------------------------- instructions as bytes

  /** The bytes of one instruction: opcode, length field if there is one, and data. */
  predicate Encodes(op: byte, d: Element, bytes: Code)
  {
    if op < 76 then |d| == op && bytes == [op] + d
    else if op == 76 then |d| < 0x100 && bytes == [76, |d|] + d
    else if op == 77 then |d| < 0x1_0000 && bytes == [77, |d| % 0x100, |d| / 0x100] + d
    else if op == 78 then
      |d| < 0x1_0000_0000 &&
      bytes == [78, |d| % 0x100, |d| / 0x100 % 0x100, |d| / 0x1_0000 % 0x100, |d| / 0x100_0000] + d
    else d == [] && bytes == [op]
  }

  lemma TwoBytes(a: byte, b: byte)
    ensures Magnitude([a, b]) == a + 0x100 * b
  {
    assert [a, b][1..] == [b] && [b][1..] == [];
    assert Magnitude([b]) == b + 256 * Magnitude([]);
  }

  lemma FourBytes(a: byte, b: byte, x: byte, y: byte)
    ensures Magnitude([a, b, x, y]) == a + 0x100 * b + 0x1_0000 * x + 0x100_0000 * y
  {
    assert [a, b, x, y][1..] == [b, x, y] && [b, x, y][1..] == [x, y];
    TwoBytes(x, y);
    assert Magnitude([b, x, y]) == b + 256 * Magnitude([x, y]);
  }

  lemma ShortIsEncoded(script: Code, pc: nat)
    requires pc <= |script| && GetOp(script, pc).Some? && GetOp(script, pc).value.opcode <= 76
    ensures var i := GetOp(script, pc).value;
            Encodes(i.opcode, i.data, script[pc..i.next])
  {
    hide Magnitude;
    var i := GetOp(script, pc).value;
    var length := if i.opcode == 76 then [|i.data|] else [];
    assert script[pc..i.next] == [i.opcode] + length + i.data;
  }

  lemma LongIsEncoded(script: Code, pc: nat)
    requires pc <= |script| && GetOp(script, pc).Some? && 77 <= GetOp(script, pc).value.opcode <= 78
    ensures var i := GetOp(script, pc).value;
            Encodes(i.opcode, i.data, script[pc..i.next])
  {
    hide Magnitude;
    var i := GetOp(script, pc).value;
    var a, b := script[pc + 1], script[pc + 2];
    if i.opcode == 77 {
      assert script[pc + 1..pc + 3] == [a, b];
      TwoBytes(a, b);
      assert script[pc..i.next] == [77, a, b] + i.data;
    } else {
      var x, y := script[pc + 3], script[pc + 4];
      assert script[pc + 1..pc + 5] == [a, b, x, y];
      FourBytes(a, b, x, y);
      LengthDigits(a, b, x, y);
      assert script[pc..i.next] == [78, a, b, x, y] + i.data;
    }
  }

  /** What the reader returns is the instruction whose bytes stand there. */
  lemma ReadIsEncoded(script: Code, pc: nat)
    requires pc <= |script| && GetOp(script, pc).Some?
    ensures var i := GetOp(script, pc).value;
            Encodes(i.opcode, i.data, script[pc..i.next])
  {
    hide ReadOperand;
    var i := GetOp(script, pc).value;
    if i.opcode <= 76 {
      ShortIsEncoded(script, pc);
    } else if i.opcode <= 78 {
      LongIsEncoded(script, pc);
    } else {
      assert script[pc..i.next] == [i.opcode];
    }
  }

  lemma LengthDigits(a: byte, b: byte, x: byte, y: byte)
    ensures var n := a + 0x100 * b + 0x1_0000 * x + 0x100_0000 * y;
            n % 0x100 == a && n / 0x100 % 0x100 == b && n / 0x1_0000 % 0x100 == x && n / 0x100_0000 == y
  {
    var q := x + 0x100 * y;
    var n := a + 0x100 * b + 0x1_0000 * x + 0x100_0000 * y;
    assert n == a + 0x100 * (b + 0x100 * q);
    OneDigit(a, b + 0x100 * q);
    OneDigit(b, q);
    OneDigit(x, y);
    QuotientTwice(n, 0x100);
    QuotientTwice(n, 0x1_0000);
  }

  lemma OneDigit(a: byte, q: nat)
    ensures (a + 0x100 * q) % 0x100 == a && (a + 0x100 * q) / 0x100 == q
  {
  }

  lemma QuotientTwice(n: nat, p: nat)
    requires p == 0x100 || p == 0x1_0000
    ensures n / (p * 0x100) == n / p / 0x100
  {
  }

  /** Where the parts of an instruction lie in the script. */
  lemma HeadAndData(script: Code, pc: nat, next: nat, op: byte, length: Code, d: Element)
    requires pc < next <= |script| && script[pc..next] == [op] + length + d
    ensures var start := pc + 1 + |length|;
            && script[pc] == op && start <= next && next == start + |d|
            && script[pc + 1..start] == length && script[start..next] == d
  {
    var bytes := script[pc..next];
    assert |bytes| == 1 + |length| + |d|;
    assert script[pc] == bytes[0];
    assert forall k :: 0 <= k < |length| ==> script[pc + 1 + k] == bytes[1 + k] == length[k];
    assert forall k :: 0 <= k < |d| ==> script[pc + 1 + |length| + k] == bytes[1 + |length| + k] == d[k];
  }

  lemma ReadShort(script: Code, pc: nat, op: byte, d: Element, next: nat)
    requires pc < next <= |script| && Encodes(op, d, script[pc..next]) && op != 77 && op != 78
    ensures GetOp(script, pc) == Some(Instruction(op, d, next))
  {
    var length := if op == 76 then [|d|] else [];
    assert script[pc..next] == [op] + length + d;
    HeadAndData(script, pc, next, op, length, d);
    if op == 76 { assert script[pc + 1] == script[pc + 1..pc + 2][0]; }
  }

  lemma ReadLong(script: Code, pc: nat, op: byte, d: Element, next: nat)
    requires pc < next <= |script| && Encodes(op, d, script[pc..next]) && (op == 77 || op == 78)
    ensures GetOp(script, pc) == Some(Instruction(op, d, next))
  {
    hide Magnitude;
    var n := |d|;
    var length: Code := if op == 77 then [n % 0x100, n / 0x100]
                        else [n % 0x100, n / 0x100 % 0x100, n / 0x1_0000 % 0x100, n / 0x100_0000];
    assert script[pc..next] == [op] + length + d;
    HeadAndData(script, pc, next, op, length, d);
    if op == 77 { TwoBytes(length[0], length[1]); } else { FourBytes(length[0], length[1], length[2], length[3]); }
    LengthValue(n);
  }

  lemma LengthValue(n: nat)
    ensures n % 0x100 + 0x100 * (n / 0x100) == n
    ensures n % 0x100 + 0x100 * (n / 0x100 % 0x100) + 0x1_0000 * (n / 0x1_0000 % 0x100)
              + 0x100_0000 * (n / 0x100_0000) == n
  {
    assert n / 0x1_0000 == n / 0x100 / 0x100;
    assert n / 0x100_0000 == n / 0x1_0000 / 0x100;
  }

  /** An instruction whose bytes stand there is the one the reader returns. */
  lemma EncodedIsRead(script: Code, pc: nat, op: byte, d: Element, next: nat)
    requires pc < next <= |script| && Encodes(op, d, script[pc..next])
    ensures GetOp(script, pc) == Some(Instruction(op, d, next))
  {
    hide GetOp, Encodes;
    if op == 77 || op == 78 {
      ReadLong(script, pc, op, d, next);
    } else {
      ReadShort(script, pc, op, d, next);
    }
  }

  /** The reader and the byte layout agree, readable or not. */
  lemma GetOpIff(script: Code, pc: nat, op: byte, d: Element, next: nat)
    requires pc <= |script|
    ensures GetOp(script, pc) == Some(Instruction(op, d, next)) <==>
            pc < next <= |script| && Encodes(op, d, script[pc..next])
  {
    hide GetOp, Encodes;
    if GetOp(script, pc) == Some(Instruction(op, d, next)) {
      ReadIsEncoded(script, pc);
    } else if pc < next <= |script| && Encodes(op, d, script[pc..next]) {
      EncodedIsRead(script, pc, op, d, next);
      assert false;
    }
  }

  // ---------------------------------------------------------------- the list of opcodes

  /** The opcodes read before the first unreadable instruction. */
  function Opcodes(script: Code, pc: nat): seq<byte>
    requires pc <= |script|
    decreases |script| - pc
  {
    match GetOp(script, pc)
    case None => []
    case Some(i) => [i.opcode] + Opcodes(script, i.next)
  }

  /** Reading goes through to the end. */
  predicate Readable(script: Code, pc: nat)
    requires pc <= |script|
    decreases |script| - pc
  {
    pc == |script| || (GetOp(script, pc).Some? && Readable(script, GetOp(script, pc).value.next))
  }

  lemma FirstOpcode(script: Code, pc: nat)
    requires pc <= |script|
    ensures match GetOp(script, pc)
            case None => Opcodes(script, pc) == []
            case Some(i) => |Opcodes(script, pc)| > 0 && Opcodes(script, pc)[0] == i.opcode
                            && Opcodes(script, pc)[1..] == Opcodes(script, i.next)
                            && multiset(Opcodes(script, pc)) == multiset{i.opcode} + multiset(Opcodes(script, i.next))
  {
    hide GetOp;
  }

  /** A script is push-only when it is readable and no opcode is above 0x60. */
  lemma {:induction false} PushOnlyIff(script: Code, pc: nat)
    requires pc <= |script|
    ensures PushOnlyFrom(script, pc) <==>
            Readable(script, pc) && forall i :: 0 <= i < |Opcodes(script, pc)| ==> Opcodes(script, pc)[i] <= 0x60
    decreases |script| - pc
  {
    hide GetOp;
    FirstOpcode(script, pc);
    var read := GetOp(script, pc);
    if pc == |script| {
      NothingLeft(script);
    } else if read.Some? {
      PushOnlyIff(script, read.value.next);
      var ops, rest := Opcodes(script, pc), Opcodes(script, read.value.next);
      assert forall i :: 0 <= i < |rest| ==> rest[i] == ops[i + 1];
      assert forall i :: 0 < i < |ops| ==> ops[i] == rest[i - 1];
    }
  }

  lemma NothingLeft(script: Code)
    ensures GetOp(script, |script|) == None
  {
  }

  // ---------------------------------------------------------------- signature operations, counted exactly

  /** One for each CHECKSIG or CHECKSIGVERIFY, twenty for each CHECKMULTISIG or CHECKMULTISIGVERIFY. */
  function LegacyTotal(ops: multiset<byte>): nat
  {
    ops[0xac] + ops[0xad] + 20 * (ops[0xae] + ops[0xaf])
  }

  /** Each opcode with the one before it; `last` stands before the first. */
  function Pairs(ops: seq<byte>, last: byte): seq<(byte, byte)>
  {
    if ops == [] then [] else [(last, ops[0])] + Pairs(ops[1..], ops[0])
  }

  function MultisigsAfter(pairs: multiset<(byte, byte)>, a: byte): nat { pairs[(a, 0xae)] + pairs[(a, 0xaf)] }

  /** What counting each multisig right after the small integer n <= top as n takes off twenty. */
  function Saving(pairs: multiset<(byte, byte)>, top: nat): int
    requires top <= 16
  {
    if top == 0 then 0
    else (20 - top) * MultisigsAfter(pairs, 0x50 + top) + Saving(pairs, top - 1)
  }

  lemma LegacyStep(op: byte, last: byte, rest: multiset<byte>)
    ensures LegacyTotal(multiset{op} + rest) == SigOpCost(op, last, false) + LegacyTotal(rest)
  {
  }

  lemma LegacyNone()
    ensures LegacyTotal(multiset{}) == 0
  {
  }

  lemma {:induction false} LegacyFrom(script: Code, pc: nat, last: byte)
    requires pc <= |script|
    ensures SigOpsFrom(script, pc, last, false) == LegacyTotal(multiset(Opcodes(script, pc)))
    decreases |script| - pc
  {
    hide GetOp, LegacyTotal, SigOpCost;
    FirstOpcode(script, pc);
    var read := GetOp(script, pc);
    if read.Some? {
      LegacyFrom(script, read.value.next, read.value.opcode);
      LegacyStep(read.value.opcode, last, multiset(Opcodes(script, read.value.next)));
    } else {
      assert LegacyTotal(multiset([])) == 0 by { LegacyNone(); }
    }
  }

  lemma OneMorePair(pairs: multiset<(byte, byte)>, a: byte, b: byte, n: byte)
    ensures MultisigsAfter(multiset{(a, b)} + pairs, n)
         == MultisigsAfter(pairs, n) + if a == n && (b == 0xae || b == 0xaf) then 1 else 0
  {
  }

  lemma TimesNext(k: int, x: int)
    ensures k * (x + 1) == k * x + k
  {
  }

  /** What one pair takes off. */
  function PairSaving(a: byte, b: byte, top: nat): int
  {
    if (b == 0xae || b == 0xaf) && 0x51 <= a <= 0x50 + top then 20 - (a - 0x50) else 0
  }

  lemma {:induction false} SavingStep(pairs: multiset<(byte, byte)>, a: byte, b: byte, top: nat)
    requires top <= 16
    ensures Saving(multiset{(a, b)} + pairs, top) == PairSaving(a, b, top) + Saving(pairs, top)
    decreases top
  {
    hide MultisigsAfter;
    if top == 0 {
    } else {
      SavingStep(pairs, a, b, top - 1);
      OneMorePair(pairs, a, b, 0x50 + top);
      TimesNext(20 - top, MultisigsAfter(pairs, 0x50 + top));
    }
  }

  lemma CostSaving(op: byte, last: byte)
    ensures SigOpCost(op, last, true) + PairSaving(last, op, 16) == SigOpCost(op, last, false)
  {
  }

  lemma FirstPair(ops: seq<byte>, last: byte)
    requires ops != []
    ensures multiset(Pairs(ops, last)) == multiset{(last, ops[0])} + multiset(Pairs(ops[1..], ops[0]))
  {
  }

  lemma {:induction false} AccurateFrom(script: Code, pc: nat, last: byte)
    requires pc <= |script|
    ensures SigOpsFrom(script, pc, last, true) + Saving(multiset(Pairs(Opcodes(script, pc), last)), 16)
         == SigOpsFrom(script, pc, last, false)
    decreases |script| - pc
  {
    hide GetOp, Saving, PairSaving, SigOpCost, Pairs;
    FirstOpcode(script, pc);
    var read := GetOp(script, pc);
    if read.Some? {
      var op, ops := read.value.opcode, Opcodes(script, read.value.next);
      AccurateFrom(script, read.value.next, op);
      FirstPair(Opcodes(script, pc), last);
      SavingStep(multiset(Pairs(ops, op)), last, op, 16);
      CostSaving(op, last);
    } else {
      NoPairs(last);
      NoSaving(16);
    }
  }

  lemma NoPairs(last: byte)
    ensures multiset(Pairs([], last)) == multiset{}
  {
  }

  lemma {:induction false} NoSaving(top: nat)
    requires top <= 16
    ensures Saving(multiset{}, top) == 0
    decreases top
  {
    if top == 0 {
    } else {
      NoSaving(top - 1);
    }
  }

  /** Both counts, from the opcodes alone. */
  lemma CountsExact(script: Code)
    ensures SigOps(script, false) == LegacyTotal(multiset(Opcodes(script, 0)))
    ensures SigOps(script, true)
         == LegacyTotal(multiset(Opcodes(script, 0))) - Saving(multiset(Pairs(Opcodes(script, 0), 0xff)), 16)
  {
    hide Opcodes, Saving, LegacyTotal, SigOpsFrom;
    LegacyFrom(script, 0, OP_INVALIDOPCODE);
    AccurateFrom(script, 0, OP_INVALIDOPCODE);
  }

  // ---------------------------------------------------------------- the template and the small integers

  /** The pay-to-script-hash test holds of exactly the scripts built for a 20-byte hash. */
  lemma ScriptHashTemplate(script: Code)
    ensures IsPayToScriptHash(script) <==>
            exists h: Element :: |h| == 20 && script == [OP_HASH160] + Push(h) + [OP_EQUAL]
  {
    if IsPayToScriptHash(script) {
      var h := script[2..22];
      assert script == [OP_HASH160] + Push(h) + [OP_EQUAL];
    }
  }

  lemma SmallIntegers(n: nat)
    requires n <= 16
    ensures DecodeOpN(EncodeOpN(n)) == n
    ensures EncodeOpN(n) == if n == 0 then 0x00 else 0x50 + n
  {
  }

  // ---------------------------------------------------------------- the input's last push

  lemma PushedStep(before: Code, d: Element, after: Code, last: byte, accurate: bool)
    requires |d| < 0x1_0000_0000
    ensures SigOpsFrom(before + Push(d) + after, |before|, last, accurate)
         == SigOpsFrom(before + Push(d) + after, |before| + |Push(d)|, PushOpcode(|d|), accurate)
  {
    hide Push, GetOp;
    GetPush(before, d, after);
    PushIsNoSigOp(|d|);
  }

  lemma PushIsNoSigOp(size: nat)
    ensures PushOpcode(size) <= OP_PUSHDATA4
  {
  }

  /** The data a push-only input ends with is what the spending count looks at. */
  lemma LastPushCounted(output: Code, before: Code, d: Element)
    requires IsPayToScriptHash(output) && PushOnly(before) && |d| < 0x1_0000_0000
    ensures SigOpsSpending(output, before + Push(d)) == SigOps(d, true)
  {
    hide Push, SigOps;
    LastPush(before, d, 0, []);
  }

  lemma {:induction false} LastPush(before: Code, d: Element, pc: nat, data: Element)
    requires pc <= |before| && PushOnlyFrom(before, pc) && |d| < 0x1_0000_0000
    ensures PushOnlyFrom(before + Push(d), pc) && LastData(before + Push(d), pc, data) == d
    decreases |before| - pc
  {
    hide Push, GetOp;
    var script := before + Push(d);
    if pc == |before| {
      assert script + [] == script;
      assert before + Push(d) + [] == script;
      GetPush(before, d, []);
      PushIsNoSigOp(|d|);
      NothingLeft(script);
    } else {
      var i := GetOp(before, pc).value;
      ReadInPrefix(before, Push(d), pc);
      LastPush(before, d, i.next, i.data);
    }
  }

  lemma ReadInPrefix(before: Code, after: Code, pc: nat)
    requires pc <= |before| && GetOp(before, pc).Some?
    ensures GetOp(before + after, pc) == GetOp(before, pc)
  {
    hide GetOp, Encodes;
    var i := GetOp(before, pc).value;
    ReadIsEncoded(before, pc);
    assert (before + after)[pc..i.next] == before[pc..i.next];
    EncodedIsRead(before + after, pc, i.opcode, i.data, i.next);
  }
}
