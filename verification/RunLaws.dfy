/** What the instructions of a script decide about every run of it. */
module RunLaws {

  import opened Prelude
  import opened ScriptNum
  import opened Script
  import opened ScriptCounts
  import opened Machine

  // ---------------------------------------------------------------- instructions that never run

  /** CAT, SUBSTR, LEFT, RIGHT, INVERT, AND, OR, XOR, 2MUL, 2DIV, MUL, DIV, MOD, LSHIFT, RSHIFT, CODESEPARATOR. */
  const DISABLED: set<byte> :=
    {0x7e, 0x7f, 0x80, 0x81, 0x83, 0x84, 0x85, 0x86, 0x8d, 0x8e, 0x95, 0x96, 0x97, 0x98, 0x99, 0xab}

  lemma DisabledSet(op: byte)
    ensures IsDisabled(op) <==> op in DISABLED
  {
  }

  /** Those, and VERIF and VERNOTIF, end a run even in a branch that is not taken. */
  predicate Forbidden(op: byte) { op in DISABLED || op == 0x65 || op == 0x66 }

  // ---------------------------------------------------------------- one step

  function Opens(op: byte): nat { if op == 0x63 || op == 0x64 then 1 else 0 }

  function Closes(op: byte): nat { if op == 0x68 then 1 else 0 }

  function Counted(op: byte): nat { if op > 0x60 then 1 else 0 }

  lemma ExecuteShape(c: Context, script: Code, i: Instruction, m: State)
    requires Execute(c, script, i, m).Continue?
    ensures var next := Execute(c, script, i, m).state;
            && |next.exec| + Closes(i.opcode) == |m.exec| + Opens(i.opcode)
            && next.ops >= m.ops && (m.ops <= MAX_OPS ==> next.ops <= MAX_OPS)
            && i.opcode != 0x65 && i.opcode != 0x66
  {
    hide PlainOp, ReadCounts, Scan, EncodingError, CheckMinimalPush, KeysOf, SigsOf, Decode;
  }

  lemma StepShape(c: Context, script: Code, m: State)
    requires m.pc <= |script| && Step(c, script, m).Continue?
    ensures GetOp(script, m.pc).Some?
    ensures var i, next := GetOp(script, m.pc).value, Step(c, script, m).state;
            && next.pc == i.next && !Forbidden(i.opcode)
            && |next.exec| + Closes(i.opcode) == |m.exec| + Opens(i.opcode)
            && m.ops + Counted(i.opcode) <= next.ops && (m.ops <= MAX_OPS ==> next.ops <= MAX_OPS)
            && |i.data| <= MAX_SCRIPT_ELEMENT_SIZE
  {
    hide Execute, GetOp, IsDisabled;
    var i := GetOp(script, m.pc).value;
    DisabledSet(i.opcode);
    ExecuteShape(c, script, i, Fetched(i, m));
  }

  // ---------------------------------------------------------------- whole runs

  /** How many operations are not pushes. */
  function Operations(ops: seq<byte>): nat
  {
    if ops == [] then 0 else Counted(ops[0]) + Operations(ops[1..])
  }

  ghost predicate NoneForbidden(ops: seq<byte>) { forall i :: 0 <= i < |ops| ==> !Forbidden(ops[i]) }

  lemma {:induction false} RunNeeds(c: Context, script: Code, m: State)
    requires m.pc <= |script| && m.ops <= MAX_OPS && Run(c, script, m).Success?
    ensures var ops := Opcodes(script, m.pc);
            && Readable(script, m.pc) && NoneForbidden(ops) && m.ops + Operations(ops) <= MAX_OPS
            && |m.exec| + multiset(ops)[0x63] + multiset(ops)[0x64] == multiset(ops)[0x68]
    decreases |script| - m.pc
  {
    hide Step, GetOp, Forbidden;
    FirstOpcode(script, m.pc);
    if m.pc == |script| {
      NothingLeft(script);
    } else {
      var next := Step(c, script, m).state;
      StepShape(c, script, m);
      RunNeeds(c, script, next);
      var ops, rest := Opcodes(script, m.pc), Opcodes(script, next.pc);
      assert forall i :: 0 < i < |ops| ==> ops[i] == rest[i - 1];
    }
  }

  /**
   * No run succeeds unless the script is readable to its end, holds no disabled or reserved conditional opcode,
   * has at most 201 operations, and closes every conditional it opens, whatever branches are taken.
   */
  lemma SuccessNeeds(c: Context, script: Code, stack: seq<Element>)
    requires Eval(c, script, stack).Success?
    ensures var ops := Opcodes(script, 0);
            && |script| <= 10000 && Readable(script, 0) && NoneForbidden(ops) && Operations(ops) <= 201
            && multiset(ops)[0x63] + multiset(ops)[0x64] == multiset(ops)[0x68]
  {
    hide Run, Opcodes, Readable, Operations, NoneForbidden;
    RunNeeds(c, script, Start(stack));
  }

  // ---------------------------------------------------------------- scripts of one operation

  /** Neither a push, a conditional, an alt stack operation nor a signature check. */
  predicate IsPlain(op: byte)
  {
    op >= 0x61 && !(0x63 <= op <= 0x68) && op != 0x6b && op != 0x6c && !(0xac <= op <= 0xaf) && op !in DISABLED
  }

  /** A script of one plain operation does to the stack what the operation does. */
  lemma PlainEval(c: Context, op: byte, s: seq<Element>)
    requires IsPlain(op)
    ensures Eval(c, [op], s) ==
            match PlainOp(c, op, s)
            case Err(e) => Failure(e, 0)
            case Ok(t) => if |t| > 1000 then Failure(StackSize, 0) else Success(t, 0)
  {
    hide PlainOp, IsDisabled;
    DisabledSet(op);
    assert GetOp([op], 0) == Some(Instruction(op, [], 1));
    var o := Step(c, [op], Start(s));
    assert o == StackLimited(Dispatch(c, [op], op, State(1, s, [], [], 1, 0)));
    if o.Continue? { assert Run(c, [op], o.state) == Success(o.state.stack, 0); }
  }

  /** Exactly 201 operations are allowed. */
  lemma NopsIff(c: Context, n: nat, stack: seq<Element>)
    requires |stack| <= 1000
    ensures Eval(c, Nops(n), stack) == Success(stack, 0) <==> n <= 201
  {
    hide Run;
    if n <= 201 {
      RunNops(c, n, State(0, stack, [], [], 0, 0));
    } else if Eval(c, Nops(n), stack) == Success(stack, 0) {
      SuccessNeeds(c, Nops(n), stack);
      NopsCounted(n, 0);
      assert false;
    }
  }

  function Nops(n: nat): Code { seq(n, _ => 0x61) }

  lemma {:induction false} RunNops(c: Context, n: nat, m: State)
    requires m.pc <= n <= 201 && m.ops == m.pc && m.exec == [] && |m.stack| + |m.alt| <= 1000
    ensures Run(c, Nops(n), m) == Success(m.stack, m.checks)
    decreases n - m.pc
  {
    hide StackOp, UnaryOp, BinaryOp, Within, LockTimeOp, VerifyOp, HashOp, CheckSigOp, MultisigOp;
    if m.pc == n {
    } else {
      assert GetOp(Nops(n), m.pc) == Some(Instruction(0x61, [], m.pc + 1));
      RunNops(c, n, m.(pc := m.pc + 1, ops := m.ops + 1));
    }
  }

  lemma {:induction false} NopsCounted(n: nat, pc: nat)
    requires pc <= n
    ensures Operations(Opcodes(Nops(n), pc)) == n - pc
    decreases n - pc
  {
    hide GetOp;
    FirstOpcode(Nops(n), pc);
    if pc == n {
      NothingLeft(Nops(n));
    } else {
      NopRead(n, pc);
      NopsCounted(n, pc + 1);
    }
  }

  lemma NopRead(n: nat, pc: nat)
    requires pc < n
    ensures GetOp(Nops(n), pc) == Some(Instruction(0x61, [], pc + 1))
  {
  }
}
