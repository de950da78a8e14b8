/** Stack opcodes stated as the rewriting of the top of an arbitrary stack. */
module StackEffects {

  import opened Prelude
  import opened ScriptNum
  import opened Machine

  type E = Element

  /** What the swaps, erasures and insertions of the moving opcodes amount to. */
  lemma Moving(b: seq<E>, x1: E, x2: E, x3: E, x4: E, x5: E, x6: E, minimal: bool)
    ensures StackOp(OP_SWAP, b + [x1, x2], minimal) == Ok(b + [x2, x1])
    ensures StackOp(OP_ROT, b + [x1, x2, x3], minimal) == Ok(b + [x2, x3, x1])
    ensures StackOp(OP_2SWAP, b + [x1, x2, x3, x4], minimal) == Ok(b + [x3, x4, x1, x2])
    ensures StackOp(OP_2ROT, b + [x1, x2, x3, x4, x5, x6], minimal) == Ok(b + [x3, x4, x5, x6, x1, x2])
    ensures StackOp(OP_NIP, b + [x1, x2], minimal) == Ok(b + [x2])
    ensures StackOp(OP_TUCK, b + [x1, x2], minimal) == Ok(b + [x2, x1, x2])
  {
    hide Encode, Decode, PickOrRoll;
    MovingTwo(b, x1, x2);
    MovingThree(b, x1, x2, x3);
    MovingFour(b, x1, x2, x3, x4);
    MovingSix(b, x1, x2, x3, x4, x5, x6);
  }

  lemma MovingTwo(b: seq<E>, x1: E, x2: E)
    ensures Swapped(b + [x1, x2], 2, 1) == b + [x2, x1]
    ensures Erased(b + [x1, x2], 2, 1) == b + [x2]
    ensures Top(b + [x1, x2], 1) == x2 && Inserted(b + [x1, x2], 2, x2) == b + [x2, x1, x2]
  {
  }

  lemma MovingThree(b: seq<E>, x1: E, x2: E, x3: E)
    ensures Swapped(Swapped(b + [x1, x2, x3], 3, 2), 2, 1) == b + [x2, x3, x1]
  {
    assert Swapped(b + [x1, x2, x3], 3, 2) == b + [x2, x1, x3];
  }

  lemma MovingFour(b: seq<E>, x1: E, x2: E, x3: E, x4: E)
    ensures Swapped(Swapped(b + [x1, x2, x3, x4], 4, 2), 3, 1) == b + [x3, x4, x1, x2]
  {
    assert Swapped(b + [x1, x2, x3, x4], 4, 2) == b + [x3, x2, x1, x4];
  }

  lemma MovingSix(b: seq<E>, x1: E, x2: E, x3: E, x4: E, x5: E, x6: E)
    ensures var s := b + [x1, x2, x3, x4, x5, x6];
            Erased(s, 6, 4) + [Top(s, 6)] + [Top(s, 5)] == b + [x3, x4, x5, x6, x1, x2]
  {
  }

  // ---------------------------------------------------------------- conservation

  predicate IsMove(op: byte) { op == OP_SWAP || op == OP_ROT || op == OP_2SWAP || op == OP_2ROT }

  lemma SwapConserves(s: seq<E>, i: nat, j: nat)
    requires 1 <= i <= |s| && 1 <= j <= |s|
    ensures multiset(Swapped(s, i, j)) == multiset(s)
  {
  }

  /** Erased elements are the only ones missing. */
  lemma EraseConserves(s: seq<E>, from: nat, to: nat)
    requires to <= from <= |s|
    ensures multiset(Erased(s, from, to)) + multiset(s[|s| - from..|s| - to]) == multiset(s)
  {
    assert s == s[..|s| - from] + s[|s| - from..|s| - to] + s[|s| - to..];
  }

  /** The moving opcodes only reorder: no element is lost, copied or changed, on any stack. */
  lemma MovesConserve(op: byte, s: seq<E>, minimal: bool)
    requires IsStackOp(op) && IsMove(op) && StackOp(op, s, minimal).Ok?
    ensures multiset(StackOp(op, s, minimal).value) == multiset(s)
  {
    hide Encode, Decode, PickOrRoll, Swapped, Erased;
    if op == OP_SWAP {
      SwapConserves(s, 2, 1);
    } else if op == OP_ROT {
      SwapConserves(s, 3, 2);
      SwapConserves(Swapped(s, 3, 2), 2, 1);
    } else if op == OP_2SWAP {
      SwapConserves(s, 4, 2);
      SwapConserves(Swapped(s, 4, 2), 3, 1);
    } else {
      RotateConserves(s);
    }
  }

  lemma RotateConserves(s: seq<E>)
    requires |s| >= 6
    ensures multiset(Erased(s, 6, 4) + [Top(s, 6)] + [Top(s, 5)]) == multiset(s)
  {
    hide Erased;
    EraseConserves(s, 6, 4);
    assert s[|s| - 6..|s| - 4] == [Top(s, 6), Top(s, 5)];
  }

  lemma MoveUpConserves(t: seq<E>, n: nat)
    requires n < |t|
    ensures multiset(Erased(t, n + 1, n) + [Top(t, n + 1)]) == multiset(t)
  {
    hide Erased;
    EraseConserves(t, n + 1, n);
    assert t[|t| - (n + 1)..|t| - n] == [Top(t, n + 1)];
  }

  lemma TakeTop(s: seq<E>)
    requires s != []
    ensures multiset(s) == multiset(Pop(s, 1)) + multiset{Top(s, 1)}
  {
    assert s == Pop(s, 1) + [Top(s, 1)];
  }

  lemma RollIs(s: seq<E>, minimal: bool)
    requires StackOp(OP_ROLL, s, minimal).Ok?
    ensures |s| >= 2 && ReadNum(Top(s, 1), minimal, 4).Some?
    ensures var n, t := GetInt(ReadNum(Top(s, 1), minimal, 4).value), Pop(s, 1);
            0 <= n < |t| && StackOp(OP_ROLL, s, minimal).value == Erased(t, n + 1, n) + [Top(t, n + 1)]
  {
    hide Encode, Decode, ReadNum, Erased;
  }

  /** ROLL consumes its number and reorders the rest. */
  lemma RollConserves(s: seq<E>, minimal: bool)
    requires StackOp(OP_ROLL, s, minimal).Ok?
    ensures |s| >= 2 && multiset(StackOp(OP_ROLL, s, minimal).value) + multiset{Top(s, 1)} == multiset(s)
  {
    hide Encode, Decode, ReadNum, Erased, Top, Pop;
    RollIs(s, minimal);
    var n := GetInt(ReadNum(Top(s, 1), minimal, 4).value);
    TakeTop(s);
    MoveUpConserves(Pop(s, 1), n);
  }

  // ---------------------------------------------------------------- numbers

  /** PICK copies, and ROLL moves, the element as deep as the number on top says. */
  lemma PickAndRoll(b: seq<E>, x: E, mid: seq<E>, minimal: bool)
    requires |mid| <= INT_MAX
    ensures StackOp(OP_PICK, b + [x] + mid + [Encode(|mid|)], minimal) == Ok(b + [x] + mid + [x])
    ensures StackOp(OP_ROLL, b + [x] + mid + [Encode(|mid|)], minimal) == Ok(b + mid + [x])
  {
    hide Encode, Decode;
    var s := b + [x] + mid + [Encode(|mid|)];
    assert Top(s, 1) == Encode(|mid|);
    NumberReads(|mid|, minimal);
    var t := Pop(s, 1);
    assert t == b + [x] + mid;
    assert Top(t, |mid| + 1) == x;
    assert t[..|t| - |mid| - 1] == b && t[|t| - |mid|..] == mid;
  }

  /** Every operand in range is read back from its own encoding. */
  lemma NumberReads(v: int, minimal: bool)
    requires IsOperand(v)
    ensures ReadNum(Encode(v), minimal, 4) == Some(v)
  {
    hide Decode, Minimal, Encode;
    DecodeEncode(v);
    EncodeMinimal(v);
    EncodeWidth(v);
  }

  /** Four bytes hold every number strictly between -2^31 and 2^31. */
  lemma EncodeWidth(v: int)
    requires IsOperand(v)
    ensures |Encode(v)| <= 4
  {
    hide Magnitude, MagnitudeBytes;
    var n := Abs(v);
    assert Pow256(2) == 0x1_0000;
    assert Pow256(3) == 0x100_0000;
    if n < 0x100_0000 {
      EncodeLength(v, 3);
    } else {
      var s := MagnitudeBytes(n);
      assert Pow256(4) == 0x1_0000_0000;
      BytesLength(n, 4);
      if |s| == 4 {
        MagnitudeOfBytes(n);
        MagnitudeSnoc(ButLast(s), Last(s));
        assert s == ButLast(s) + [Last(s)];
      }
    }
  }

  /** A two-operand opcode replaces its operands by the encoded result. */
  lemma TwoOperands(op: byte, b: seq<E>, x: int, y: int, minimal: bool)
    requires IsBinary(op) && op != OP_NUMEQUALVERIFY && IsOperand(x) && IsOperand(y)
    ensures BinaryOp(op, b + [Encode(x), Encode(y)], minimal) == Ok(b + [Encode(Binary(op, x, y))])
  {
    hide Encode, ReadNum, Binary;
    var s := b + [Encode(x), Encode(y)];
    NumberReads(x, minimal);
    NumberReads(y, minimal);
    assert Top(s, 2) == Encode(x) && Top(s, 1) == Encode(y) && Pop(s, 2) == b;
  }

  /** The arithmetic opcodes compute what they are named for, on every pair of operands. */
  lemma Arithmetic(b: seq<E>, x: int, y: int, minimal: bool)
    requires IsOperand(x) && IsOperand(y)
    ensures BinaryOp(OP_ADD, b + [Encode(x), Encode(y)], minimal) == Ok(b + [Encode(x + y)])
    ensures BinaryOp(OP_SUB, b + [Encode(x), Encode(y)], minimal) == Ok(b + [Encode(x - y)])
    ensures BinaryOp(OP_MIN, b + [Encode(x), Encode(y)], minimal) == Ok(b + [Encode(if x <= y then x else y)])
    ensures BinaryOp(OP_MAX, b + [Encode(x), Encode(y)], minimal) == Ok(b + [Encode(if x <= y then y else x)])
    ensures BinaryOp(OP_LESSTHAN, b + [Encode(x), Encode(y)], minimal)
         == BinaryOp(OP_GREATERTHAN, b + [Encode(y), Encode(x)], minimal)
         == Ok(b + [FromBool(x < y)])
    ensures BinaryOp(OP_LESSTHANOREQUAL, b + [Encode(x), Encode(y)], minimal)
         == BinaryOp(OP_GREATERTHANOREQUAL, b + [Encode(y), Encode(x)], minimal)
         == Ok(b + [FromBool(x <= y)])
    ensures BinaryOp(OP_NUMEQUAL, b + [Encode(x), Encode(y)], minimal) == Ok(b + [FromBool(x == y)])
    ensures BinaryOp(OP_NUMNOTEQUAL, b + [Encode(x), Encode(y)], minimal) == Ok(b + [FromBool(x != y)])
    ensures BinaryOp(OP_BOOLAND, b + [Encode(x), Encode(y)], minimal) == Ok(b + [FromBool(x != 0 && y != 0)])
    ensures BinaryOp(OP_BOOLOR, b + [Encode(x), Encode(y)], minimal) == Ok(b + [FromBool(x != 0 || y != 0)])
  {
    hide Encode, BinaryOp;
    TruthValues();
    TwoOperands(OP_ADD, b, x, y, minimal);
    TwoOperands(OP_SUB, b, x, y, minimal);
    TwoOperands(OP_MIN, b, x, y, minimal);
    TwoOperands(OP_MAX, b, x, y, minimal);
    TwoOperands(OP_LESSTHAN, b, x, y, minimal);
    TwoOperands(OP_GREATERTHAN, b, y, x, minimal);
    TwoOperands(OP_LESSTHANOREQUAL, b, x, y, minimal);
    TwoOperands(OP_GREATERTHANOREQUAL, b, y, x, minimal);
    TwoOperands(OP_NUMEQUAL, b, x, y, minimal);
    TwoOperands(OP_NUMNOTEQUAL, b, x, y, minimal);
    TwoOperands(OP_BOOLAND, b, x, y, minimal);
    TwoOperands(OP_BOOLOR, b, x, y, minimal);
  }

  lemma TruthValues()
    ensures Encode(1) == TRUE_ELEMENT && Encode(0) == FALSE_ELEMENT
  {
    assert MagnitudeBytes(1) == [1] + MagnitudeBytes(0);
  }

  /** WITHIN tests the half-open range. */
  lemma WithinRange(b: seq<E>, x: int, low: int, high: int, minimal: bool)
    requires IsOperand(x) && IsOperand(low) && IsOperand(high)
    ensures Within(b + [Encode(x), Encode(low), Encode(high)], minimal) == Ok(b + [FromBool(low <= x < high)])
  {
    hide Encode, ReadNum;
    var s := b + [Encode(x), Encode(low), Encode(high)];
    NumberReads(x, minimal);
    NumberReads(low, minimal);
    NumberReads(high, minimal);
    assert Top(s, 3) == Encode(x) && Top(s, 2) == Encode(low) && Top(s, 1) == Encode(high) && Pop(s, 3) == b;
  }

  /** IF runs the first branch exactly on a true condition, ELSE the other one, and ENDIF restores what was. */
  lemma Branches(m: State)
    requires Executing(m.exec) && m.stack != []
    ensures var taken := ControlOp(OP_IF, m);
            && taken.Continue? && taken.state.stack == Pop(m.stack, 1)
            && (Executing(taken.state.exec) <==> IsTrue(Top(m.stack, 1)))
            && var other := ControlOp(OP_ELSE, taken.state);
               && other.Continue? && (Executing(other.state.exec) <==> !IsTrue(Top(m.stack, 1)))
               && var done := ControlOp(OP_ENDIF, other.state);
                  done.Continue? && done.state.exec == m.exec && done.state.stack == Pop(m.stack, 1)
  {
    hide Decode;
    var e := m.exec;
    var t := ControlOp(OP_IF, m).state.exec;
    assert t == e + [IsTrue(Top(m.stack, 1))];
    assert t[..|t| - 1] == e;
    assert t[|t| - 1] == IsTrue(Top(m.stack, 1));
    var o := ControlOp(OP_ELSE, ControlOp(OP_IF, m).state).state.exec;
    assert o == e + [!IsTrue(Top(m.stack, 1))];
    assert o[..|o| - 1] == e;
  }

  lemma AltRoundTrip(m: State)
    requires m.stack != []
    ensures var away := AltOp(OP_TOALTSTACK, m);
            away.Continue? && AltOp(OP_FROMALTSTACK, away.state) == Continue(m)
  {
    var away := AltOp(OP_TOALTSTACK, m).state;
    assert Pop(away.alt, 1) == m.alt;
    assert away.stack + [Top(away.alt, 1)] == m.stack;
  }
}
