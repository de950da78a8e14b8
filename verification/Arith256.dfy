/** Fixed-width unsigned integers kept as limbs and updated in place, for any width. */
module Arith256 {

  import opened Prelude
  import opened Bits
  import opened Limbs

  class BaseUint {
    const pn: array<limb>

    ghost function Val(): nat
      reads pn
    {
      Value(pn[..])
    }

    ghost function Modulus(): nat { Power(pn.Length) }

    constructor (width: nat)
      ensures fresh(pn) && pn.Length == width && Val() == 0
      ensures forall i :: 0 <= i < width ==> pn[i] == 0
    {
      pn := new limb[width](_ => 0);
      new;
      ValueZeros(pn[..]);
    }

    constructor Copy(b: BaseUint)
      ensures fresh(pn) && pn[..] == b.pn[..]
    {
      pn := new limb[b.pn.Length](i requires 0 <= i < b.pn.Length reads b.pn => b.pn[i]);
    }

    method Clear()
      modifies pn
      ensures Val() == 0 && forall i :: 0 <= i < pn.Length ==> pn[i] == 0
    {
      for i := 0 to pn.Length
        invariant forall k :: 0 <= k < i ==> pn[k] == 0
      {
        pn[i] := 0;
      }
      ValueZeros(pn[..]);
    }

    /** Assignment of a 64-bit number. */
    method Assign64(b: nat)
      requires pn.Length >= 2 && b < BASE * BASE
      modifies pn
      ensures Val() == b
    {
      hide Value;
      Clear();
      SplitSum(b);
      pn[0] := LowLimb(b);
      pn[1] := HighPart(b);
      TwoLimbs(pn[..]);
    }

    method GetLow64() returns (v: nat)
      requires pn.Length >= 2
      ensures v == Val() % (BASE * BASE)
      ensures Val() < BASE * BASE ==> v == Val()
    {
      hide Value;
      LowTwo(pn[..]);
      v := pn[0] + pn[1] * BASE;
    }

    // ---------------------------------------------------------------- addition

    /** Addition modulo the width; `b` may be the same object. */
    method AddAssign(b: BaseUint)
      requires b.pn.Length == pn.Length
      modifies pn
      ensures Val() == (old(Val()) + old(b.Val())) % Modulus()
    {
      hide Value, Power, LowLimb, HighPart;
      ghost var a0, b0 := pn[..], b.pn[..];
      var carry: nat := 0;
      var i := 0;
      ValueStart(pn[..]);
      ValueStart(a0);
      ValueStart(b0);
      while i < pn.Length
        invariant i <= pn.Length && carry <= 1
        invariant pn[i..] == a0[i..] && b.pn[i..] == b0[i..]
        invariant Value(pn[..i]) + carry * Power(i) == Value(a0[..i]) + Value(b0[..i])
      {
        assert pn[i] == pn[i..][0] == a0[i] && b.pn[i] == b.pn[i..][0] == b0[i];
        var n := carry + pn[i] + b.pn[i];
        assert n < BASE * BASE;
        SplitSum(n);
        ghost var add: nat := a0[i] as int + b0[i] as int;
        AddColumn(Value(pn[..i]), carry, Value(a0[..i]) + Value(b0[..i]), LowLimb(n), HighPart(n), add, Power(i));
        Scale(a0[i], b0[i], Power(i));
        ValueNext(a0, i);
        ValueNext(b0, i);
        PowerNext(i);
        ghost var before := pn[..i];
        pn[i] := LowLimb(n);
        carry := HighPart(n);
        assert pn[..i] == before;
        ValueNext(pn[..], i);
        assert pn[..][..i + 1] == pn[..i + 1] && pn[..][..i] == pn[..i];
        i := i + 1;
      }
      Whole(pn[..]);
      Whole(a0);
      Whole(b0);
      ValueBound(pn[..]);
      Remainder(Val(), carry, Modulus(), Value(a0) + Value(b0));
    }

    /** Adds one, letting the carry run up the limbs. */
    method Increment()
      requires pn.Length >= 1
      modifies pn
      ensures Val() == (old(Val()) + 1) % Modulus()
    {
      hide Value, Power;
      ghost var a := Val();
      var i := 0;
      ValueStart(pn[..]);
      while true
        invariant i < pn.Length && Val() + Power(i) == a + 1
        decreases pn.Length - i
      {
        ghost var before := pn[..];
        var x: limb := (pn[i] + 1) % BASE;
        IncrementLimb(before, i);
        pn[i] := x;
        assert pn[..] == before[i := x];
        if !(pn[i] == 0 && i < pn.Length - 1) { break; }
        i := i + 1;
      }
      ValueBound(pn[..]);
      if pn[i] == 0 { Remainder(Val(), 1, Modulus(), a + 1); } else { Remainder(Val(), 0, Modulus(), a + 1); }
    }

    /** Takes one away, letting the borrow run up the limbs. */
    method Decrement()
      requires pn.Length >= 1
      modifies pn
      ensures Val() == (old(Val()) - 1) % Modulus()
    {
      hide Value, Power;
      ghost var a := Val();
      var i := 0;
      ValueStart(pn[..]);
      ValueBound(pn[..]);
      while true
        invariant i < pn.Length && Val() + 1 == a + Power(i)
        decreases pn.Length - i
      {
        ghost var before := pn[..];
        var x: limb := (pn[i] - 1) % BASE;
        DecrementLimb(before, i);
        pn[i] := x;
        assert pn[..] == before[i := x];
        if !(pn[i] == BASE - 1 && i < pn.Length - 1) { break; }
        i := i + 1;
      }
      ValueBound(pn[..]);
      Borrowed(Val(), a, Modulus());
    }

    /** The two's complement. */
    method Negated() returns (ret: BaseUint)
      requires pn.Length >= 1
      ensures fresh(ret) && fresh(ret.pn) && ret.pn.Length == pn.Length
      ensures ret.Val() == (Modulus() - Val()) % Modulus()
    {
      hide Value, Power;
      ret := new BaseUint(pn.Length);
      var i := 0;
      ValueStart(pn[..]);
      ValueStart(ret.pn[..]);
      while i < pn.Length
        invariant i <= pn.Length
        invariant Value(ret.pn[..i]) + Value(pn[..i]) + 1 == Power(i)
        modifies ret.pn
      {
        ghost var before := ret.pn[..i];
        ret.pn[i] := BASE - 1 - pn[i];
        assert ret.pn[..i] == before;
        ValueNext(ret.pn[..], i);
        ValueNext(pn[..], i);
        assert ret.pn[..][..i] == ret.pn[..i] && ret.pn[..][..i + 1] == ret.pn[..i + 1];
        assert pn[..][..i] == pn[..i] && pn[..][..i + 1] == pn[..i + 1];
        ComplementColumn(ret.pn[i], pn[i], Power(i));
        PowerNext(i);
        i := i + 1;
      }
      Whole(pn[..]);
      Whole(ret.pn[..]);
      assert ret.Val() + Val() + 1 == Modulus();
      ret.Increment();
    }

    method SubAssign(b: BaseUint)
      requires pn.Length >= 1 && b.pn.Length == pn.Length
      modifies pn
      ensures Val() == (old(Val()) - old(b.Val())) % Modulus()
    {
      hide Value, Power;
      var neg := b.Negated();
      ValueBound(pn[..]);
      ValueBound(b.pn[..]);
      AddNegated(Val(), b.Val(), Modulus());
      AddAssign(neg);
    }

    // ---------------------------------------------------------------- multiplication

    method MulAssign32(b32: limb)
      modifies pn
      ensures Val() == (old(Val()) * b32) % Modulus()
    {
      hide Value, Power, LowLimb, HighPart;
      ghost var a0 := pn[..];
      var carry: nat := 0;
      var i := 0;
      ValueStart(pn[..]);
      ValueStart(a0);
      while i < pn.Length
        invariant i <= pn.Length && carry < BASE
        invariant pn[i..] == a0[i..]
        invariant Value(pn[..i]) + carry * Power(i) == Value(a0[..i]) * b32
      {
        assert pn[i] == pn[i..][0] == a0[i];
        var n := Column(carry, 0, b32, pn[i]);
        WideEnough(carry, 0, b32, pn[i]);
        SplitSum(n);
        Mul32Step(Value(pn[..i]), carry, a0, i, b32, n);
        ghost var before := pn[..i];
        pn[i] := LowLimb(n);
        carry := HighPart(n);
        assert pn[..i] == before;
        ValueNext(pn[..], i);
        assert pn[..][..i + 1] == pn[..i + 1] && pn[..][..i] == pn[..i];
        i := i + 1;
      }
      Whole(pn[..]);
      Whole(a0);
      ValueBound(pn[..]);
      Remainder(Val(), carry, Modulus(), Value(a0) * b32);
    }

    /** One cell of the product: the new carry, and the limb left behind. */
    method AddCell(b: BaseUint, i: nat, j: nat, aj: limb, carry: nat) returns (carry': nat)
      requires b.pn.Length == pn.Length && i + j < pn.Length && carry < BASE
      modifies pn
      ensures var n := Column(carry, old(pn[i + j]), aj, old(b.pn[i]));
              pn[..] == old(pn[..])[i + j := LowLimb(n)] && carry' == HighPart(n) < BASE
    {
      hide LowLimb, HighPart;
      var n := Column(carry, pn[i + j], aj, b.pn[i]);
      WideEnough(carry, pn[i + j], aj, b.pn[i]);
      SplitSum(n);
      pn[i + j] := LowLimb(n);
      carry' := HighPart(n);
    }

    /** The inner loop: one limb times all of `b`, added in at column `j`. */
    method AddRow(b: BaseUint, j: nat, aj: limb) returns (ghost over: nat)
      requires b.pn.Length == pn.Length && j < pn.Length
      modifies pn
      ensures b.pn != pn ==>
                Val() + over * Modulus() == old(Val()) + (aj * Value(b.pn[..pn.Length - j])) * Power(j)
      ensures b.pn == pn && old(Val()) == 0 ==> Val() == 0
    {
      hide Value, Power, LowLimb, HighPart;
      ghost var v0 := Val();
      var carry: nat := 0;
      var i := 0;
      ValueStart(b.pn[..]);
      while i + j < pn.Length
        invariant i + j <= pn.Length && carry < BASE
        invariant b.pn != pn ==> b.pn[..] == old(b.pn[..])
        invariant b.pn != pn ==> Val() + carry * Power(i + j) == v0 + (aj * Value(b.pn[..i])) * Power(j)
        invariant b.pn == pn && v0 == 0 ==> carry == 0 && Val() == 0
      {
        ghost var before := pn[..];
        RowStep(before, b.pn[..], i, j, aj, carry, v0);
        carry := AddCell(b, i, j, aj, carry);
        assert b.pn[..][..i] == b.pn[..i] && b.pn[..][..i + 1] == b.pn[..i + 1];
        i := i + 1;
      }
      over := carry;
    }

    /** The product, except that an object multiplied by itself becomes zero. */
    method MulAssign(b: BaseUint)
      requires b.pn.Length == pn.Length
      modifies pn
      ensures b.pn != pn ==> Val() == (old(Val()) * old(b.Val())) % Modulus()
      ensures b.pn == pn ==> Val() == 0
    {
      hide Value, Power;
      var a := new BaseUint.Copy(this);
      ghost var a0, b0, m := pn[..], Value(b.pn[..]), Modulus();
      ValueStart(a.pn[..]);
      Clear();
      ghost var total: nat := 0;
      var j := 0;
      while j < pn.Length
        invariant j <= pn.Length && a.pn[..] == a0
        invariant b.pn != pn ==> Value(b.pn[..]) == b0
        invariant b.pn != pn ==> Val() + total * m == Value(a0[..j]) * b0
        invariant b.pn == pn ==> Val() == 0
        modifies pn
      {
        ghost var v := Val();
        assert a.pn[j] == a0[j];
        ghost var over := AddRow(b, j, a.pn[j]);
        if b.pn != pn {
          total := RowTotal(v, Val(), over, total, a0, b.pn[..], j);
        }
        j := j + 1;
      }
      Whole(a0);
      ValueBound(pn[..]);
      if b.pn != pn { Remainder(Val(), total, m, Value(a0) * b0); }
    }

    // ---------------------------------------------------------------- comparison and size

    method CompareTo(b: BaseUint) returns (r: int)
      requires b.pn.Length == pn.Length
      ensures r == if Val() < b.Val() then -1 else if Val() > b.Val() then 1 else 0
    {
      hide Value;
      var i: nat := pn.Length;
      while i > 0
        invariant i <= pn.Length && pn[i..] == b.pn[i..]
      {
        i := i - 1;
        if pn[i] < b.pn[i] {
          CompareAt(pn[..], b.pn[..], i);
          return -1;
        }
        if pn[i] > b.pn[i] {
          CompareAt(b.pn[..], pn[..], i);
          return 1;
        }
      }
      assert pn[..] == b.pn[..];
      return 0;
    }

    /** The position of the highest set bit plus one, or zero. */
    method BitLength() returns (n: nat)
      ensures n == 0 <==> Val() == 0
      ensures n > 0 ==> Pow2(n - 1) <= Val() < Pow2(n)
      ensures n <= 32 * pn.Length
    {
      hide Value, Pow2;
      var pos: nat := pn.Length;
      while pos > 0
        invariant pos <= pn.Length && forall k :: pos <= k < pn.Length ==> pn[k] == 0
      {
        pos := pos - 1;
        if pn[pos] != 0 {
          var t := LimbBits(pn[pos]);
          TopLimb(pn[..], pos, t);
          return 32 * pos + t;
        }
      }
      ValueZeros(pn[..]);
      return 0;
    }

    // ---------------------------------------------------------------- shifts

    /** The two limbs one limb of the operand is spread over. */
    method ShlCell(x: limb, i: nat, k: nat, s: nat)
      requires s < 32
      requires i + k + 1 < pn.Length ==> pn[i + k + 1] == 0
      requires i + k < pn.Length ==> pn[i + k] < Pow2(s)
      modifies pn
      ensures pn[..] == SpreadUp(old(pn[..]), x, i, k, s)
    {
      hide Pow2, Shr, ShlWord, BitOr;
      ShiftLimb(x, s);
      Pow2Below(s);
      if i + k + 1 < pn.Length && s != 0 {
        OrZero(Shr(x, 32 - s));
        pn[i + k + 1] := BitOr(Shr(x, 32 - s), pn[i + k + 1]);
      }
      if i + k < pn.Length {
        JoinUp(x, pn[i + k], s);
        pn[i + k] := BitOr(ShlWord(x, s, 32), pn[i + k]);
      }
      JoinedUp(old(pn[..]), x, i, k, s);
    }

    method ShlAssign(shift: nat)
      modifies pn
      ensures Val() == (old(Val()) * Pow2(shift)) % Modulus()
    {
      hide Value, Power, Pow2, LeftDone, SpreadUp, ShiftedLeft;
      var a := new BaseUint.Copy(this);
      ghost var a0 := pn[..];
      Clear();
      var k, s := shift / 32, shift % 32;
      var i := 0;
      LeftStart(pn[..], a0, k, s);
      while i < pn.Length
        invariant i <= pn.Length && a.pn[..] == a0 && LeftDone(pn[..], a0, k, s, i)
        modifies pn
      {
        assert a.pn[i] == a0[i];
        SpreadLeft(pn[..], a0, k, s, i);
        ShlCell(a.pn[i], i, k, s);
        i := i + 1;
      }
      LeftLimbs(a0, shift, pn[..]);
      ShiftedLeftValue(a0, shift);
    }

    method ShrCell(x: limb, i: nat, k: nat, s: nat)
      requires s < 32 && i < pn.Length
      requires 0 <= i - k ==> pn[i - k] == 0
      requires 0 <= i - k - 1 ==> pn[i - k - 1] < Pow2(32 - s)
      modifies pn
      ensures pn[..] == SpreadDown(old(pn[..]), x, i, k, s)
    {
      hide Pow2, Shr, ShlWord, BitOr;
      DropLimb(x, s);
      Pow2Below(32 - s);
      if i - k - 1 >= 0 && s != 0 {
        JoinDown(x, pn[i - k - 1], s);
        pn[i - k - 1] := BitOr(ShlWord(x, 32 - s, 32), pn[i - k - 1]);
      }
      if i - k >= 0 {
        OrZero(Shr(x, s));
        pn[i - k] := BitOr(Shr(x, s), pn[i - k]);
      }
      JoinedDown(old(pn[..]), x, i, k, s);
    }

    method ShrAssign(shift: nat)
      modifies pn
      ensures Val() == old(Val()) / Pow2(shift)
    {
      hide Value, Power, Pow2, RightDone, SpreadDown, ShiftedRight;
      var a := new BaseUint.Copy(this);
      ghost var a0 := pn[..];
      Clear();
      var k, s := shift / 32, shift % 32;
      var i := 0;
      RightStart(pn[..], a0, k, s);
      while i < pn.Length
        invariant i <= pn.Length && a.pn[..] == a0 && RightDone(pn[..], a0, k, s, i)
        modifies pn
      {
        assert a.pn[i] == a0[i];
        SpreadRight(pn[..], a0, k, s, i);
        ShrCell(a.pn[i], i, k, s);
        i := i + 1;
      }
      RightLimbs(a0, shift, pn[..]);
      ShiftedRightValue(a0, shift);
    }

    // ---------------------------------------------------------------- division

    /** Sets a bit of a quotient whose lower bits are still clear. */
    method SetBit(shift: nat)
      requires shift / 32 < pn.Length && LowClear(pn[..], shift + 1)
      modifies pn
      ensures Val() == old(Val()) + Pow2(shift) && LowClear(pn[..], shift)
    {
      hide Value, Power, Pow2, BitOr, LowClear;
      var w, t := shift / 32, shift % 32;
      ghost var before := pn[..];
      SetLimb(before, shift);
      pn[w] := BitOr(pn[w], Pow2(t));
      assert pn[..] == before[w := pn[w]];
      SetLimbValue(before, shift);
    }

    /** The body of the division loop: take the shifted divisor off if it fits, and note the bit. */
    method SubtractStep(num: BaseUint, div: BaseUint, shift: nat, ghost d: nat)
      requires pn.Length == num.pn.Length == div.pn.Length && pn != num.pn && pn != div.pn && num.pn != div.pn
      requires shift / 32 < pn.Length && LowClear(pn[..], shift + 1)
      requires div.Val() == d * Pow2(shift) && num.Val() < 2 * div.Val()
      modifies pn, num.pn
      ensures Val() * d + num.Val() == old(Val()) * d + old(num.Val())
      ensures num.Val() < div.Val() && LowClear(pn[..], shift)
    {
      hide Value, Power, Pow2, LowClear;
      var cmp := num.CompareTo(div);
      if cmp >= 0 {
        ValueBound(num.pn[..]);
        Below32(num.Val() - div.Val(), Modulus());
        Scale(Val(), Pow2(shift), d);
        num.SubAssign(div);
        SetBit(shift);
      } else {
        KeepClear(pn[..], shift);
      }
    }

    /** The floor of the quotient; the loop's `num` ends as the remainder. */
    method DivAssign(b: BaseUint) returns (ok: bool, ghost remainder: nat)
      requires pn.Length >= 1 && b.pn.Length == pn.Length
      modifies pn
      ensures ok <==> old(b.Val()) != 0
      ensures !ok ==> Val() == 0
      ensures ok ==> Val() == old(Val()) / old(b.Val()) && remainder == old(Val()) % old(b.Val())
    {
      hide Value, Power, Pow2, LowClear;
      var div := new BaseUint.Copy(b);
      var num := new BaseUint.Copy(this);
      ghost var d, n0, m := div.Val(), num.Val(), Modulus();
      ValueBound(num.pn[..]);
      Clear();
      var numBits := num.BitLength();
      var divBits := div.BitLength();
      if divBits == 0 { return false, 0; }
      if divBits > numBits {
        Smaller(n0, d, numBits, divBits);
        DivModUnique(n0, d, 0, n0);
        return true, n0;
      }
      var shift: int := numBits - divBits;
      Aligned(n0, d, numBits, divBits, pn.Length);
      div.ShlAssign(shift);
      Below32(d * Pow2(shift), m);
      ZerosAreClear(pn[..], shift + 1);
      while shift >= 0
        invariant -1 <= shift && shift / 32 < pn.Length
        invariant Val() * d + num.Val() == n0
        invariant shift >= 0 ==> div.Val() == d * Pow2(shift)
        invariant num.Val() < d * Pow2(shift + 1)
        invariant LowClear(pn[..], shift + 1)
        modifies pn, num.pn, div.pn
      {
        Halving(d, shift);
        SubtractStep(num, div, shift, d);
        div.ShrAssign(1);
        shift := shift - 1;
      }
      UnitPow2(d);
      DivModUnique(n0, d, Val(), num.Val());
      return true, num.Val();
    }
  }

  method LimbBits(x: limb) returns (t: nat)
    requires x != 0
    ensures 1 <= t <= 32 && Pow2(t - 1) <= x < Pow2(t)
  {
    hide Pow2, Shr;
    BaseIsPow2();
    var bits := 31;
    while bits > 0
      invariant 0 <= bits <= 31 && x < Pow2(bits + 1)
    {
      TestBit(x, bits);
      if Shr(x, bits) % 2 == 1 { return bits + 1; }
      bits := bits - 1;
    }
    OnePow2();
    return 1;
  }

  // ---------------------------------------------------------------- steps of the loops

  lemma LowTwo(s: seq<limb>)
    requires |s| >= 2
    ensures s[0] + s[1] * BASE == Value(s) % (BASE * BASE)
    ensures Value(s) == s[0] + s[1] * BASE + BASE * BASE * Value(s[2..])
  {
    hide Value;
    ValueSplit(s, 2);
    ValueNext(s, 0);
    ValueNext(s, 1);
    ValueStart(s);
    PowerNext(0);
    PowerNext(1);
    Remainder(s[0] + s[1] * BASE, Value(s[2..]), BASE * BASE, Value(s));
  }

  lemma TwoLimbs(s: seq<limb>)
    requires |s| >= 2 && forall k :: 2 <= k < |s| ==> s[k] == 0
    ensures Value(s) == s[0] + s[1] * BASE
  {
    hide Value;
    LowTwo(s);
    ValueZeros(s[2..]);
  }

  lemma ValueStart(s: seq<limb>)
    ensures Value(s[..0]) == 0 && Power(0) == 1
  {
  }

  lemma PowerNext(i: nat)
    ensures Power(i + 1) == BASE * Power(i)
  {
  }

  lemma Whole(s: seq<limb>)
    ensures s[..|s|] == s
  {
  }

  lemma IncrementLimb(s: seq<limb>, i: nat)
    requires i < |s|
    ensures var x: limb := (s[i] + 1) % BASE;
            if s[i] + 1 < BASE then x != 0 && Value(s[i := x]) == Value(s) + Power(i)
            else x == 0 && Value(s[i := x]) + Power(i + 1) == Value(s) + Power(i)
  {
    hide Value;
    var x: limb := (s[i] + 1) % BASE;
    ValueUpdate(s, i, x);
    if s[i] + 1 < BASE { Scale(s[i], 1, Power(i)); } else { Scale(BASE - 1, 1, Power(i)); }
  }

  lemma DecrementLimb(s: seq<limb>, i: nat)
    requires i < |s|
    ensures var x: limb := (s[i] - 1) % BASE;
            if s[i] > 0 then x == s[i] - 1 && Value(s[i := x]) + Power(i) == Value(s)
            else x == BASE - 1 && Value(s[i := x]) + Power(i) == Value(s) + Power(i + 1)
  {
    hide Value;
    var x: limb := (s[i] - 1) % BASE;
    ValueUpdate(s, i, x);
    if s[i] > 0 { Scale(s[i] - 1, 1, Power(i)); } else { Scale(BASE - 1, 1, Power(i)); }
  }

  lemma Borrowed(v: nat, a: nat, m: nat)
    requires v < m && a < m && (v + 1 == a || v + 1 == a + m)
    ensures v == (a - 1) % m
  {
    if a == 0 { assert (-1 + m) % m == -1 % m by { MinusOne(m); } } else { Remainder(v, 0, m, a - 1); }
  }

  lemma MinusOne(m: nat)
    requires m > 0
    ensures -1 % m == m - 1 && (-1 + m) % m == m - 1
  {
    ModShift(-1, m);
    Remainder(m - 1, 0, m, m - 1);
  }

  lemma ModShift(x: int, m: nat)
    requires 0 - m <= x < 0
    ensures x % m == (x + m) % m == x + m
  {
    var q, r := x / m, x % m;
    assert x == q * m + r;
    QuotientsEqual(m, q, r, -1, x + m);
    Remainder(x + m, 0, m, x + m);
  }

  lemma AddNegated(a: nat, b: nat, m: nat)
    requires a < m && b < m
    ensures (a + (m - b) % m) % m == (a - b) % m
  {
    if b == 0 {
      Remainder(0, 1, m, m);
    } else {
      Remainder(m - b, 0, m, m - b);
      if a < b {
        ModShift(a - b, m);
      } else {
        Remainder(a - b, 1, m, a + (m - b));
        Remainder(a - b, 0, m, a - b);
      }
    }
  }

  lemma ComplementColumn(x: nat, y: nat, p: nat)
    requires x + y == BASE - 1
    ensures x * p + y * p + p == BASE * p
  {
    Scale(x, y, p);
    Scale(BASE - 1, 1, p);
  }

  lemma MulColumn(v: nat, x: nat, b: nat, p: nat)
    ensures v * b + (b * x) * p == (v + x * p) * b
  {
    Scale(v, x * p, b);
    assert (b * x) * p == (x * p) * b;
  }

  /** No 64-bit intermediate of a multiplication overflows. */
  lemma WideEnough(carry: nat, x: limb, a: limb, b: limb)
    requires carry < BASE
    ensures Column(carry, x, a, b) < BASE * BASE
  {
    ProductBound(a, b);
  }

  lemma Mul32Step(v: nat, carry: nat, a: seq<limb>, i: nat, b: limb, n: nat)
    requires i < |a| && n == Column(carry, 0, b, a[i]) && v + carry * Power(i) == Value(a[..i]) * b
    ensures (v + LowLimb(n) * Power(i)) + HighPart(n) * Power(i + 1) == Value(a[..i + 1]) * b
  {
    hide Value, Power, LowLimb, HighPart;
    SplitSum(n);
    AddColumn(v, carry, Value(a[..i]) * b, LowLimb(n), HighPart(n), b * a[i], Power(i));
    MulColumn(Value(a[..i]), a[i], b, Power(i));
    ValueNext(a, i);
    PowerNext(i);
  }

  /** The 64-bit intermediate of a multiplication. */
  function Column(carry: nat, x: limb, a: limb, b: limb): nat { carry + x + a * b }

  lemma RowStep(s: seq<limb>, b: seq<limb>, i: nat, j: nat, aj: limb, carry: nat, v0: nat)
    requires |s| == |b| && i + j < |s|
    ensures var n := Column(carry, s[i + j], aj, b[i]);
            Value(s) + carry * Power(i + j) == v0 + (aj * Value(b[..i])) * Power(j) ==>
              Value(s[i + j := LowLimb(n)]) + HighPart(n) * Power(i + j + 1) == v0 + (aj * Value(b[..i + 1])) * Power(j)
    ensures var n := Column(carry, s[i + j], aj, b[i]);
            s == b && carry == 0 && Value(s) == 0 ==> HighPart(n) == 0 && Value(s[i + j := LowLimb(n)]) == 0
  {
    hide Value, Power, HighPart, LowLimb, Column;
    var n := Column(carry, s[i + j], aj, b[i]);
    var p, x, c := Power(i + j), LowLimb(n), HighPart(n);
    SplitSum(n);
    ValueUpdate(s, i + j, x);
    ValueNext(b, i);
    PowerNext(i + j);
    PowerAdd(i, j);
    if s == b && carry == 0 && Value(s) == 0 { ZeroRow(s, i, j, aj); }
    ColumnIs(carry, s[i + j], aj, b[i]);
    RowAlgebra(Value(s), Value(s[i + j := x]), s[i + j], x, c, carry, aj, b[i], p);
    RowProduct(aj, Value(b[..i]), b[i], Power(i), Power(j));
  }

  lemma ColumnIs(carry: nat, x: limb, a: limb, b: limb)
    ensures Column(carry, x, a, b) == carry + x + a * b
  {
  }

  /** An object multiplied by itself gets its square exactly when its low half is zero. */
  lemma AliasedSquareIff(v: nat, width: nat)
    ensures (v * v) % Power(width) == 0 <==> v % Pow2(16 * width) == 0
  {
    hide Power, Pow2;
    PowerIsPow2(width);
    SquareVanishes(v, 16 * width);
  }

  lemma {:induction false} SquareVanishes(v: nat, k: nat)
    ensures (v * v) % Pow2(2 * k) == 0 <==> v % Pow2(k) == 0
    decreases k
  {
    if k == 0 {
    } else {
      hide Pow2;
      DoublePow2(k - 1);
      DoublePow2(2 * k - 1);
      DoublePow2(2 * k - 2);
      if v % 2 == 0 {
        var u := v / 2;
        SquareVanishes(u, k - 1);
        ScaledRemainder(u, 2, Pow2(k - 1));
        assert v * v == 4 * (u * u);
        ScaledRemainder(u * u, 4, Pow2(2 * k - 2));
      } else {
        OddNotMultiple(v, Pow2(k - 1));
        OddSquare(v);
        OddNotMultiple(v * v, Pow2(2 * k - 1));
      }
    }
  }

  lemma ScaledRemainder(x: nat, c: nat, m: nat)
    requires c > 0 && m > 0
    ensures (c * x) % (c * m) == 0 <==> x % m == 0
  {
    var q, r := x / m, x % m;
    assert c * x == q * (c * m) + c * r by {
      assert x == q * m + r;
      MulRotate(c, q, m);
    }
    MulLe(c, r + 1, m);
    DivModUnique(c * x, c * m, q, c * r);
    assert c * r == 0 <==> r == 0;
  }

  lemma OddNotMultiple(x: nat, m: nat)
    requires x % 2 == 1 && m > 0
    ensures x % (2 * m) != 0
  {
    var q, r := x / (2 * m), x % (2 * m);
    assert x == 2 * (q * m) + r by { MulRotate(q, 2, m); }
  }

  lemma OddSquare(v: nat)
    requires v % 2 == 1
    ensures (v * v) % 2 == 1
  {
    var u := v / 2;
    assert v * v == 2 * (2 * (u * u) + 2 * u) + 1;
  }

  /** The square of one, asked of a single object. */
  method SquareOneInPlace() returns (low: nat)
    ensures low == 0
  {
    var x := new BaseUint(8);
    x.Assign64(1);
    x.MulAssign(x);
    low := x.GetLow64();
  }

  /** An operand that is the zeroed result contributes nothing. */
  lemma ZeroRow(s: seq<limb>, i: nat, j: nat, aj: limb)
    requires i + j < |s| && Value(s) == 0
    ensures var n := Column(0, s[i + j], aj, s[i]);
            HighPart(n) == 0 && s[i + j := LowLimb(n)] == s
  {
    ZeroValue(s, i);
    ZeroValue(s, i + j);
  }

  lemma RowAlgebra(v: int, v': int, y: int, x: int, c: int, carry: int, aj: int, bi: int, p: int)
    requires v' + y * p == v + x * p && x + c * BASE == carry + y + aj * bi
    ensures v' + c * (BASE * p) == v + carry * p + (aj * bi) * p
  {
    Scale(x, c * BASE, p);
    Scale(carry + y, aj * bi, p);
    Scale(carry, y, p);
    MulAssoc(c, BASE, p);
  }

  lemma RowProduct(aj: nat, v: nat, bi: nat, pi: nat, pj: nat)
    ensures (aj * (v + bi * pi)) * pj == (aj * v) * pj + (aj * bi) * (pi * pj)
  {
    assert aj * (v + bi * pi) == aj * v + (aj * bi) * pi by { MulAssoc(aj, bi, pi); }
    Scale(aj * v, (aj * bi) * pi, pj);
    MulAssoc(aj * bi, pi, pj);
  }

  lemma RowTotal(v: nat, v': nat, over: nat, total: nat, a: seq<limb>, b: seq<limb>, j: nat) returns (total': nat)
    requires |a| == |b| && j < |a|
    requires v + total * Power(|a|) == Value(a[..j]) * Value(b)
    requires v' + over * Power(|a|) == v + (a[j] * Value(b[..|a| - j])) * Power(j)
    ensures v' + total' * Power(|a|) == Value(a[..j + 1]) * Value(b)
  {
    hide Value, Power;
    var lo, hi := Value(b[..|a| - j]), Value(b[|a| - j..]);
    var pj, pr, m := Power(j), Power(|a| - j), Power(|a|);
    total' := total + over + a[j] * hi;
    ValueSplit(b, |a| - j);
    PowerAdd(|a| - j, j);
    ValueNext(a, j);
    assert total' * m == total * m + over * m + (a[j] * hi) * m by {
      Scale(total + over, a[j] * hi, m);
      Scale(total, over, m);
    }
    Scale(Value(a[..j]), a[j] * pj, Value(b));
    RowSplit(a[j], pj, lo, pr, hi);
  }

  lemma RowSplit(x: nat, pj: nat, lo: nat, pr: nat, hi: nat)
    ensures (x * pj) * (lo + pr * hi) == (x * lo) * pj + (x * hi) * (pr * pj)
  {
    assert (x * pj) * (lo + pr * hi) == (x * pj) * lo + (x * pj) * (pr * hi);
    assert (x * pj) * lo == (x * lo) * pj;
    MulFour(x, pj, pr, hi);
    assert (x * pj) * (pr * hi) == (x * hi) * (pr * pj);
  }

  // ---------------------------------------------------------------- bits and shifts

  lemma TestBit(x: nat, bits: nat)
    requires x < Pow2(bits + 1)
    ensures Shr(x, bits) % 2 == 1 <==> Pow2(bits) <= x
  {
    hide Shr, Low;
    var h := Shr(x, bits);
    SplitAt(x, bits);
    ShlIsMul(h, bits);
    LowBound(x, bits);
    ShrBound(x, bits + 1, bits);
    assert Pow2(1) == 2;
  }

  lemma TopLimb(s: seq<limb>, pos: nat, t: nat)
    requires pos < |s| && 1 <= t <= 32 && Pow2(t - 1) <= s[pos] < Pow2(t)
    requires forall k :: pos < k < |s| ==> s[k] == 0
    ensures Pow2(32 * pos + t - 1) <= Value(s) < Pow2(32 * pos + t)
    ensures Value(s) > 0
  {
    hide Value, Power, Pow2;
    ValueSplit(s, pos + 1);
    ValueZeros(s[pos + 1..]);
    ValueNext(s, pos);
    ValueBound(s[..pos]);
    PowerIsPow2(pos);
    var p := Power(pos);
    Pow2Sum(t - 1, 32 * pos);
    Pow2Sum(t, 32 * pos);
    MulLe(p, Pow2(t - 1), s[pos]);
    Below(Value(s[..pos]), s[pos], Pow2(t), p);
  }

  lemma OrZero(x: nat)
    ensures BitOr(x, 0) == x
  {
  }

  lemma Pow2Below(s: nat)
    requires s <= 32
    ensures Pow2(s) <= BASE
  {
    hide Pow2;
    BaseIsPow2();
    Pow2Monotone(s, 32);
  }

  /** A limb list after one limb `x` at `i` is spread upward. */
  ghost function SpreadUp(p: seq<limb>, x: limb, i: nat, k: nat, s: nat): (r: seq<limb>)
    requires s < 32
    requires i + k < |p| ==> p[i + k] < Pow2(s)
    ensures |r| == |p|
  {
    ShiftLimb(x, s);
    Pow2Below(s);
    var q := if i + k + 1 < |p| && s != 0 then p[i + k + 1 := Crossing(x, s)] else p;
    if i + k < |p| then
      JoinUp(x, p[i + k], s);
      q[i + k := Staying(x, s) + p[i + k]]
    else q
  }

  lemma JoinedUp(p: seq<limb>, x: limb, i: nat, k: nat, s: nat)
    requires s < 32
    requires i + k + 1 < |p| ==> p[i + k + 1] == 0
    requires i + k < |p| ==> p[i + k] < Pow2(s)
    ensures i + k + 1 < |p| && s != 0 ==> SpreadUp(p, x, i, k, s)[i + k + 1] == Shr(x, 32 - s)
    ensures i + k < |p| ==> SpreadUp(p, x, i, k, s)[i + k] == BitOr(ShlWord(x, s, 32), p[i + k])
  {
    hide Pow2, Shr, ShlWord, BitOr;
    if i + k < |p| { JoinUp(x, p[i + k], s); }
  }

  ghost function LeftLimb(a: seq<limb>, k: nat, s: nat, j: nat): nat
    requires s < 32 && j < |a|
  {
    if j < k then 0 else Staying(a[j - k], s) + (if j == k then 0 else Crossing(a[j - k - 1], s))
  }

  /** The first `i` limbs have been spread. */
  ghost predicate LeftDone(p: seq<limb>, a: seq<limb>, k: nat, s: nat, i: nat)
    requires |p| == |a| && s < 32 && i <= |a|
  {
    && (forall j :: 0 <= j < |p| && j < i + k ==> p[j] == LeftLimb(a, k, s, j))
    && (i + k < |p| ==> p[i + k] == if i == 0 then 0 else Crossing(a[i - 1], s))
    && (forall j :: i + k < j < |p| ==> p[j] == 0)
  }

  lemma LeftStart(p: seq<limb>, a: seq<limb>, k: nat, s: nat)
    requires |p| == |a| && s < 32 && forall j :: 0 <= j < |p| ==> p[j] == 0
    ensures LeftDone(p, a, k, s, 0)
  {
  }

  lemma SpreadLeft(p: seq<limb>, a: seq<limb>, k: nat, s: nat, i: nat)
    requires |p| == |a| && s < 32 && i < |a| && LeftDone(p, a, k, s, i)
    ensures i + k + 1 < |p| ==> p[i + k + 1] == 0
    ensures i + k < |p| ==> p[i + k] < Pow2(s)
    ensures LeftDone(SpreadUp(p, a[i], i, k, s), a, k, s, i + 1)
  {
    hide Pow2, Shr, ShlWord;
    if i > 0 { ShiftLimb(a[i - 1], s); }
    if i + k < |p| { JoinUp(a[i], p[i + k], s); }
  }

  lemma LeftLimbs(a: seq<limb>, shift: nat, r: seq<limb>)
    requires |r| == |a| && LeftDone(r, a, shift / 32, shift % 32, |a|)
    ensures r == ShiftedLeft(a, shift)
  {
    hide Crossing, Staying, ShiftUp, Pow2;
    var k, s := shift / 32, shift % 32;
    forall j | 0 <= j < |a|
      ensures r[j] == ShiftedLeft(a, shift)[j]
    {
      if k <= j { ShiftUpAt(a[..|a| - k], s, 0, j - k); }
    }
  }

  ghost function SpreadDown(p: seq<limb>, x: limb, i: nat, k: nat, s: nat): (r: seq<limb>)
    requires s < 32 && i < |p|
    requires 0 <= i - k - 1 ==> p[i - k - 1] < Pow2(32 - s)
    ensures |r| == |p|
  {
    DropLimb(x, s);
    Pow2Below(32 - s);
    var q := if i - k >= 0 then p[i - k := Shr(x, s)] else p;
    if i - k - 1 >= 0 && s != 0 then
      JoinDown(x, p[i - k - 1], s);
      q[i - k - 1 := Falling(x, s) + p[i - k - 1]]
    else q
  }

  lemma JoinedDown(p: seq<limb>, x: limb, i: nat, k: nat, s: nat)
    requires s < 32 && i < |p|
    requires 0 <= i - k - 1 ==> p[i - k - 1] < Pow2(32 - s)
    ensures i - k >= 0 ==> SpreadDown(p, x, i, k, s)[i - k] == Shr(x, s)
    ensures i - k - 1 >= 0 && s != 0 ==>
              SpreadDown(p, x, i, k, s)[i - k - 1] == BitOr(ShlWord(x, 32 - s, 32), p[i - k - 1])
  {
    hide Pow2, Shr, ShlWord, BitOr;
    if i - k - 1 >= 0 { JoinDown(x, p[i - k - 1], s); }
  }

  ghost function RightLimb(a: seq<limb>, k: nat, s: nat, j: nat): nat
    requires s < 32 && j + k < |a|
  {
    (if j + k + 1 < |a| then Falling(a[j + k + 1], s) else 0) + Shr(a[j + k], s)
  }

  ghost predicate RightDone(p: seq<limb>, a: seq<limb>, k: nat, s: nat, i: nat)
    requires |p| == |a| && s < 32 && i <= |a|
  {
    && (forall j :: 0 <= j < i - k - 1 ==> p[j] == RightLimb(a, k, s, j))
    && (i - k - 1 >= 0 ==> p[i - k - 1] == Shr(a[i - 1], s))
    && (forall j :: 0 <= j < |p| && j >= i - k ==> p[j] == 0)
  }

  lemma RightStart(p: seq<limb>, a: seq<limb>, k: nat, s: nat)
    requires |p| == |a| && s < 32 && forall j :: 0 <= j < |p| ==> p[j] == 0
    ensures RightDone(p, a, k, s, 0)
  {
  }

  lemma SpreadRight(p: seq<limb>, a: seq<limb>, k: nat, s: nat, i: nat)
    requires |p| == |a| && s < 32 && i < |a| && RightDone(p, a, k, s, i)
    ensures 0 <= i - k ==> p[i - k] == 0
    ensures 0 <= i - k - 1 ==> p[i - k - 1] < Pow2(32 - s)
    ensures RightDone(SpreadDown(p, a[i], i, k, s), a, k, s, i + 1)
  {
    hide Pow2, Shr, ShlWord;
    if i > 0 { DropLimb(a[i - 1], s); }
    if i - k - 1 >= 0 { JoinDown(a[i], p[i - k - 1], s); }
  }

  lemma RightLimbs(a: seq<limb>, shift: nat, r: seq<limb>)
    requires |r| == |a| && RightDone(r, a, shift / 32, shift % 32, |a|)
    ensures r == ShiftedRight(a, shift)
  {
    hide Falling, Shr, ShiftDown;
    var k, s := shift / 32, shift % 32;
    forall j | 0 <= j < |a|
      ensures r[j] == ShiftedRight(a, shift)[j]
    {
      if j + k < |a| { ShiftDownAt(a[k..], s, j); }
    }
  }

  // ---------------------------------------------------------------- the quotient

  /** The lowest `n` bits are all zero. */
  ghost predicate LowClear(s: seq<limb>, n: nat)
  {
    && (forall k :: 0 <= k < |s| && k < n / 32 ==> s[k] == 0)
    && (n / 32 < |s| ==> s[n / 32] % Pow2(n % 32) == 0)
  }

  lemma ZerosAreClear(s: seq<limb>, n: nat)
    requires forall k :: 0 <= k < |s| ==> s[k] == 0
    ensures LowClear(s, n)
  {
    if n / 32 < |s| { Remainder(0, 0, Pow2(n % 32), 0); }
  }

  lemma ClearLimb(s: seq<limb>, shift: nat)
    requires shift / 32 < |s| && LowClear(s, shift + 1)
    ensures s[shift / 32] % Pow2(shift % 32 + 1) == 0
    ensures forall k :: 0 <= k < shift / 32 ==> s[k] == 0
  {
    hide Pow2;
    if shift % 32 == 31 {
      assert (shift + 1) / 32 == shift / 32 + 1;
      Remainder(0, 0, Pow2(32), 0);
    } else {
      assert (shift + 1) / 32 == shift / 32 && (shift + 1) % 32 == shift % 32 + 1;
    }
  }

  lemma MultipleOfHalf(x: nat, t: nat)
    requires x % Pow2(t + 1) == 0
    ensures x % Pow2(t) == 0 && (x + Pow2(t)) % Pow2(t) == 0
  {
    hide Pow2;
    var q, p := x / Pow2(t + 1), Pow2(t);
    DoublePow2(t);
    assert x == q * Pow2(t + 1);
    assert x == (2 * q) * p by { MulRotate(q, 2, p); }
    Remainder(0, 2 * q, p, x);
    Scale(2 * q, 1, p);
    Remainder(0, 2 * q + 1, p, x + p);
  }

  lemma KeepClear(s: seq<limb>, shift: nat)
    requires shift / 32 < |s| && LowClear(s, shift + 1)
    ensures LowClear(s, shift)
  {
    hide Pow2;
    ClearLimb(s, shift);
    MultipleOfHalf(s[shift / 32], shift % 32);
  }

  /** Setting the bit is adding it, and the limb still fits. */
  lemma SetLimb(s: seq<limb>, shift: nat)
    requires shift / 32 < |s| && LowClear(s, shift + 1)
    ensures BitOr(s[shift / 32], Pow2(shift % 32)) == s[shift / 32] + Pow2(shift % 32) < BASE
  {
    hide Pow2, Shl, Shr, BitOr, LowClear;
    var x, t := s[shift / 32], shift % 32;
    ClearLimb(s, shift);
    ShiftsAreDivision(x, t + 1);
    var y := Shr(x, t + 1);
    SplitAt(x, t + 1);
    BaseIsPow2();
    ShrBound(x, 32, t + 1);
    ShlBound(y, t + 1, 31 - t);
    DoublePow2(t);
    OrDisjoint(y, Pow2(t), t + 1);
  }

  lemma SetLimbValue(s: seq<limb>, shift: nat)
    requires shift / 32 < |s| && LowClear(s, shift + 1)
    requires s[shift / 32] + Pow2(shift % 32) < BASE
    ensures var r := s[shift / 32 := s[shift / 32] + Pow2(shift % 32)];
            Value(r) == Value(s) + Pow2(shift) && LowClear(r, shift)
  {
    hide Pow2, Value, Power;
    var w, t := shift / 32, shift % 32;
    ClearLimb(s, shift);
    MultipleOfHalf(s[w], t);
    ValueUpdate(s, w, s[w] + Pow2(t));
    Scale(s[w], Pow2(t), Power(w));
    ShiftPower(shift);
  }

  lemma Smaller(n: nat, d: nat, numBits: nat, divBits: nat)
    requires numBits < divBits && Pow2(divBits - 1) <= d
    requires (numBits == 0 <==> n == 0) && (numBits > 0 ==> n < Pow2(numBits))
    ensures n < d
  {
    hide Pow2;
    if numBits > 0 { Pow2Monotone(numBits, divBits - 1); }
  }

  /** Lined up by their top bits, the divisor stays in range and the dividend below its double. */
  lemma Aligned(n: nat, d: nat, numBits: nat, divBits: nat, width: nat)
    requires 0 < divBits <= numBits <= 32 * width
    requires Pow2(divBits - 1) <= d < Pow2(divBits) && n < Pow2(numBits)
    ensures d * Pow2(numBits - divBits) < Power(width)
    ensures n < d * Pow2(numBits - divBits + 1)
    ensures (numBits - divBits) / 32 < width
  {
    hide Pow2, Power;
    var shift := numBits - divBits;
    Pow2Sum(divBits, shift);
    Pow2Sum(divBits - 1, shift + 1);
    MulLe(Pow2(shift + 1), Pow2(divBits - 1), d);
    MulLt(Pow2(shift), d, Pow2(divBits));
    Pow2Monotone(numBits, 32 * width);
    PowerIsPow2(width);
  }

  lemma MulLt(a: nat, b: nat, c: nat)
    requires b < c && a > 0
    ensures b * a < c * a
  {
    assert c * a == b * a + (c - b) * a;
    MulAtLeast(c - b, a);
  }

  lemma Below32(v: nat, m: nat)
    requires v < m
    ensures v % m == v
  {
    Remainder(v, 0, m, v);
  }

  lemma Halving(d: nat, shift: nat)
    ensures d * Pow2(shift + 1) == 2 * (d * Pow2(shift))
    ensures shift > 0 ==> (d * Pow2(shift)) / Pow2(1) == d * Pow2(shift - 1)
  {
    hide Pow2;
    DoublePow2(shift);
    MulRotate(d, 2, Pow2(shift));
    OnePow2();
    DoublePow2(0);
    if shift > 0 {
      DoublePow2(shift - 1);
      MulRotate(d, 2, Pow2(shift - 1));
    }
  }

  lemma UnitPow2(d: nat)
    ensures d * Pow2(0) == d
  {
  }
}
