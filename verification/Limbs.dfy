/** Little-endian lists of 32-bit limbs and the numbers they stand for. */
module Limbs {

  import opened Prelude
  import opened Bits

  const BASE: nat := 0x1_0000_0000

  type limb = x: nat | x < 0x1_0000_0000

  function Power(n: nat): (r: nat)
    ensures r >= 1
  {
    if n == 0 then 1 else BASE * Power(n - 1)
  }

  function Value(s: seq<limb>): nat
  {
    if s == [] then 0 else s[0] + BASE * Value(s[1..])
  }

  lemma {:induction false} PowerAdd(a: nat, b: nat)
    ensures Power(a + b) == Power(a) * Power(b)
  {
    if a == 0 {
    } else {
      PowerAdd(a - 1, b);
      MulAssoc(BASE, Power(a - 1), Power(b));
    }
  }

  lemma {:induction false} ValueBound(s: seq<limb>)
    ensures Value(s) < Power(|s|)
  {
    if s == [] {
    } else {
      ValueBound(s[1..]);
    }
  }

  lemma {:induction false} ValueSplit(s: seq<limb>, k: nat)
    requires k <= |s|
    ensures Value(s) == Value(s[..k]) + Power(k) * Value(s[k..])
    decreases k
  {
    if k == 0 {
      assert s[0..] == s;
    } else {
      ValueSplit(s[1..], k - 1);
      assert s[1..][..k - 1] == s[1..k] == s[..k][1..];
      assert s[1..][k - 1..] == s[k..];
      MulAssoc(BASE, Power(k - 1), Value(s[k..]));
    }
  }

  lemma ValueOne(x: limb)
    ensures Value([x]) == x
  {
    assert Value([x]) == x + BASE * Value([]);
  }

  lemma ValueSnoc(s: seq<limb>, x: limb)
    ensures Value(s + [x]) == Value(s) + x * Power(|s|)
  {
    hide Value;
    ValueSplit(s + [x], |s|);
    assert (s + [x])[..|s|] == s && (s + [x])[|s|..] == [x];
    ValueOne(x);
  }

  /** The value of a list, read one limb further. */
  lemma ValueNext(s: seq<limb>, i: nat)
    requires i < |s|
    ensures Value(s[..i + 1]) == Value(s[..i]) + s[i] * Power(i)
  {
    hide Value;
    assert s[..i + 1] == s[..i] + [s[i]];
    ValueSnoc(s[..i], s[i]);
  }

  lemma ValueConcat(a: seq<limb>, b: seq<limb>)
    ensures Value(a + b) == Value(a) + Power(|a|) * Value(b)
  {
    hide Value;
    ValueSplit(a + b, |a|);
    assert (a + b)[..|a|] == a && (a + b)[|a|..] == b;
  }

  lemma {:induction false} ValueZeros(s: seq<limb>)
    requires forall k :: 0 <= k < |s| ==> s[k] == 0
    ensures Value(s) == 0
  {
    if s == [] {
    } else {
      ValueZeros(s[1..]);
    }
  }

  lemma {:induction false} ZeroValue(s: seq<limb>, k: nat)
    requires Value(s) == 0 && k < |s|
    ensures s[k] == 0
  {
    if k == 0 {
    } else {
      ZeroValue(s[1..], k - 1);
    }
  }

  lemma {:induction false} ValueUpdate(s: seq<limb>, i: nat, x: limb)
    requires i < |s|
    ensures Value(s[i := x]) + s[i] * Power(i) == Value(s) + x * Power(i)
    decreases i
  {
    if i == 0 {
      assert s[0 := x][1..] == s[1..];
    } else {
      ValueUpdate(s[1..], i - 1, x);
      assert s[i := x][1..] == s[1..][i - 1 := x];
      MulSwap(s[i], Power(i - 1));
      MulSwap(x, Power(i - 1));
    }
  }

  lemma MulSwap(x: nat, p: nat)
    ensures x * (BASE * p) == BASE * (x * p)
  {
  }

  /** A value below the modulus plus a multiple of it is a remainder. */
  lemma Remainder(v: nat, over: nat, m: nat, total: nat)
    requires v < m && v + over * m == total
    ensures total % m == v
  {
    DivModUnique(total, m, over, v);
  }

  // ---------------------------------------------------------------- carries

  lemma Scale(a: int, b: int, p: int)
    ensures (a + b) * p == a * p + b * p
  {
  }

  /** One column of an addition. */
  lemma AddColumn(v: nat, carry: nat, sum: nat, x: nat, carry': nat, add: nat, p: nat)
    requires v + carry * p == sum && x + carry' * BASE == carry + add
    ensures (v + x * p) + carry' * (BASE * p) == sum + add * p
  {
    Scale(x, carry' * BASE, p);
    Scale(carry, add, p);
    MulAssoc(carry', BASE, p);
  }

  /** The low and the high half of a 64-bit intermediate. */
  function LowLimb(n: nat): limb { n % BASE }

  function HighPart(n: nat): nat { n / BASE }

  lemma SplitSum(n: nat)
    ensures LowLimb(n) + HighPart(n) * BASE == n
    ensures n < BASE * BASE ==> HighPart(n) < BASE
    ensures n < 2 * BASE ==> HighPart(n) <= 1
  {
  }

  lemma ProductBound(a: nat, b: nat)
    requires a < BASE && b < BASE
    ensures a * b <= (BASE - 1) * (BASE - 1)
  {
    assert a * b <= a * (BASE - 1) by { MulLe(a, b, BASE - 1); }
    MulLe(BASE - 1, a, BASE - 1);
  }

  // ---------------------------------------------------------------- comparison

  /** The first difference from the top decides. */
  lemma CompareAt(a: seq<limb>, b: seq<limb>, i: nat)
    requires |a| == |b| && i < |a| && a[i] < b[i] && a[i + 1..] == b[i + 1..]
    ensures Value(a) < Value(b)
  {
    hide Value;
    ValueSplit(a, i + 1);
    ValueSplit(b, i + 1);
    ValueNext(a, i);
    ValueNext(b, i);
    ValueBound(a[..i]);
    Below(Value(a[..i]), a[i], b[i], Power(i));
  }

  lemma Below(v: nat, x: nat, y: nat, p: nat)
    requires v < p && x < y
    ensures v + x * p < y * p
  {
    Scale(x, 1, p);
    MulLe(p, x + 1, y);
  }

  // ---------------------------------------------------------------- powers of two

  lemma BaseIsPow2()
    ensures Pow2(32) == BASE
  {
    hide Pow2;
    SmallPow2();
    Pow2Sum(8, 8);
    Pow2Sum(16, 16);
  }

  lemma SmallPow2()
    ensures Pow2(8) == 256
  {
    assert Pow2(4) == 16;
  }

  lemma {:induction false} PowerIsPow2(n: nat)
    ensures Power(n) == Pow2(32 * n)
  {
    hide Pow2;
    if n == 0 {
      OnePow2();
    } else {
      PowerIsPow2(n - 1);
      BaseIsPow2();
      Pow2Sum(32, 32 * (n - 1));
    }
  }

  // ---------------------------------------------------------------- shifting a limb

  /** The part of a limb that crosses into the next one when shifting up by `s`. */
  function Crossing(x: limb, s: nat): nat
    requires s < 32
  {
    if s == 0 then 0 else Shr(x, 32 - s)
  }

  function Staying(x: limb, s: nat): nat
    requires s < 32
  {
    ShlWord(x, s, 32)
  }

  lemma ShrBound(v: nat, n: nat, k: nat)
    requires v < Pow2(n) && k <= n
    ensures Shr(v, k) < Pow2(n - k)
  {
    LowSmall(v, n);
    LowThenShr(v, n, k);
    LowBound(Shr(v, k), n - k);
  }

  lemma ShiftLimb(x: limb, s: nat)
    requires s < 32
    ensures Crossing(x, s) * BASE + Staying(x, s) == x * Pow2(s)
    ensures Crossing(x, s) < Pow2(s) && Staying(x, s) < BASE
    ensures Staying(x, s) == Shl(Low(x, 32 - s), s)
  {
    hide Pow2, Shl, Shr, Low;
    BaseIsPow2();
    LowShl(x, s, 32);
    LowBound(Shl(x, s), 32);
    var hi, lo := Shr(x, 32 - s), Low(x, 32 - s);
    SplitAt(x, 32 - s);
    ShlSum(Shl(hi, 32 - s), lo, s);
    ShlAdd(hi, 32 - s, s);
    ShlIsMul(hi, 32);
    ShlIsMul(x, s);
    ShrBound(x, 32, 32 - s);
    if s == 0 { OnePow2(); }
  }

  /** Joining the two parts with `|` is adding them. */
  lemma JoinUp(x: limb, low: nat, s: nat)
    requires s < 32 && low < Pow2(s)
    ensures BitOr(Staying(x, s), low) == Staying(x, s) + low < BASE
  {
    hide Pow2, Shl, Low, BitOr;
    ShiftLimb(x, s);
    OrDisjoint(Low(x, 32 - s), low, s);
    LowBound(x, 32 - s);
    ShlBound(Low(x, 32 - s), s, 32 - s);
    BaseIsPow2();
  }

  /** The part of a limb that falls into the one below when shifting down by `s`. */
  function Falling(x: limb, s: nat): nat
    requires s < 32
  {
    if s == 0 then 0 else ShlWord(x, 32 - s, 32)
  }

  lemma DropLimb(x: limb, s: nat)
    requires s < 32
    ensures Shr(x, s) * Pow2(s) + Low(x, s) == x
    ensures Falling(x, s) * Pow2(s) == Low(x, s) * BASE
    ensures Low(x, s) < Pow2(s) && Shr(x, s) < Pow2(32 - s)
    ensures Falling(x, s) < BASE
  {
    hide Pow2, Shl, Shr, Low;
    BaseIsPow2();
    SplitAt(x, s);
    ShlIsMul(Shr(x, s), s);
    LowBound(x, s);
    ShrBound(x, 32, s);
    if s == 0 {
      OnePow2();
      LowZero(x);
    } else {
      LowShl(x, 32 - s, 32);
      LowBound(Shl(x, 32 - s), 32);
      ShlAdd(Low(x, s), 32 - s, s);
      ShlIsMul(Shl(Low(x, s), 32 - s), s);
      ShlIsMul(Low(x, s), 32);
    }
  }

  lemma LowZero(x: nat)
    ensures Low(x, 0) == 0
  {
  }

  lemma JoinDown(x: limb, low: nat, s: nat)
    requires s < 32 && low < Pow2(32 - s)
    ensures BitOr(Falling(x, s), low) == Falling(x, s) + low < BASE
  {
    hide Pow2, Shl, Low;
    BaseIsPow2();
    if s > 0 {
      hide BitOr;
      LowShl(x, 32 - s, 32);
      OrDisjoint(Low(x, s), low, 32 - s);
      LowBound(x, s);
      ShlBound(Low(x, s), 32 - s, s);
    }
  }

  // ---------------------------------------------------------------- shifting a list

  /** Every limb shifted up by `s`, with the crossing part of the one below. */
  function ShiftUp(a: seq<limb>, s: nat, c: nat): (r: seq<limb>)
    requires s < 32 && c < Pow2(s)
    ensures |r| == |a|
  {
    if a == [] then []
    else
      ShiftLimb(a[0], s);
      JoinUp(a[0], c, s);
      [Staying(a[0], s) + c] + ShiftUp(a[1..], s, Crossing(a[0], s))
  }

  function CarryOut(a: seq<limb>, s: nat, c: nat): nat
    requires s < 32
  {
    if a == [] then c else CarryOut(a[1..], s, Crossing(a[0], s))
  }

  lemma {:induction false} ShiftUpAt(a: seq<limb>, s: nat, c: nat, j: nat)
    requires s < 32 && c < Pow2(s) && j < |a|
    ensures ShiftUp(a, s, c)[j] == Staying(a[j], s) + (if j == 0 then c else Crossing(a[j - 1], s))
    decreases j
  {
    hide Crossing, Staying, Pow2;
    if j == 0 {
    } else {
      ShiftLimb(a[0], s);
      ShiftUpAt(a[1..], s, Crossing(a[0], s), j - 1);
    }
  }

  lemma {:induction false} ShiftUpValue(a: seq<limb>, s: nat, c: nat)
    requires s < 32 && c < Pow2(s)
    ensures Value(ShiftUp(a, s, c)) + CarryOut(a, s, c) * Power(|a|) == Value(a) * Pow2(s) + c
    decreases |a|
  {
    hide Crossing, Staying, Pow2;
    if a == [] {
    } else {
      var x, rest := a[0], a[1..];
      ShiftLimb(x, s);
      ShiftUpValue(rest, s, Crossing(x, s));
      assert ShiftUp(a, s, c)[1..] == ShiftUp(rest, s, Crossing(x, s));
      UpStep(x, Value(rest), Value(ShiftUp(rest, s, Crossing(x, s))), CarryOut(a, s, c), Power(|rest|), Pow2(s),
             Crossing(x, s), Staying(x, s));
    }
  }

  lemma UpStep(x: nat, v: nat, w: nat, out: nat, p: nat, t: nat, hi: nat, lo: nat)
    requires w + out * p == v * t + hi && hi * BASE + lo == x * t
    ensures lo + BASE * w + out * (BASE * p) == (x + BASE * v) * t
  {
    MulSwap(out, p);
    Scale(x, BASE * v, t);
    MulAssoc(BASE, v, t);
  }

  /** Every limb shifted down by `s`, with the falling part of the one above. */
  function ShiftDown(a: seq<limb>, s: nat): (r: seq<limb>)
    requires s < 32
    ensures |r| == |a|
  {
    if a == [] then []
    else
      DropLimb(a[0], s);
      JoinDown(if |a| > 1 then a[1] else 0, Shr(a[0], s), s);
      [(if |a| > 1 then Falling(a[1], s) else 0) + Shr(a[0], s)] + ShiftDown(a[1..], s)
  }

  lemma {:induction false} ShiftDownAt(a: seq<limb>, s: nat, j: nat)
    requires s < 32 && j < |a|
    ensures ShiftDown(a, s)[j] == (if j + 1 < |a| then Falling(a[j + 1], s) else 0) + Shr(a[j], s)
    decreases j
  {
    hide Falling, Shr;
    if j == 0 {
    } else {
      ShiftDownAt(a[1..], s, j - 1);
    }
  }

  lemma {:induction false} ShiftDownValue(a: seq<limb>, s: nat)
    requires s < 32
    ensures Value(ShiftDown(a, s)) * Pow2(s) + (if a == [] then 0 else Low(a[0], s)) == Value(a)
    decreases |a|
  {
    hide Falling, Shr, Low, Pow2;
    if a == [] {
    } else {
      var x, rest := a[0], a[1..];
      DropLimb(x, s);
      ShiftDownValue(rest, s);
      assert ShiftDown(a, s)[1..] == ShiftDown(rest, s);
      if |a| > 1 {
        DropLimb(a[1], s);
        DownStep(Falling(a[1], s), Shr(x, s), Value(ShiftDown(rest, s)), Pow2(s), Low(a[1], s));
      } else {
        assert rest == [];
        DownStep(0, Shr(x, s), Value(ShiftDown(rest, s)), Pow2(s), 0);
      }
    }
  }

  lemma DownStep(f: nat, h: nat, w: nat, t: nat, low: nat)
    requires f * t == low * BASE
    ensures (f + h + BASE * w) * t == low * BASE + h * t + BASE * (w * t)
  {
    Scale(f + h, BASE * w, t);
    Scale(f, h, t);
    MulAssoc(BASE, w, t);
  }

  // ---------------------------------------------------------------- shifting by any amount

  function Zeros(n: nat): (r: seq<limb>)
    ensures |r| == n && forall i :: 0 <= i < n ==> r[i] == 0
  {
    seq(n, _ => 0)
  }

  /** Up by whole limbs and then by bits; what passes the top is lost. */
  function Raised(a: seq<limb>, k: nat, s: nat): (r: seq<limb>)
    requires k < |a| && s < 32
    ensures |r| == |a|
  {
    Zeros(k) + ShiftUp(a[..|a| - k], s, 0)
  }

  function ShiftedLeft(a: seq<limb>, shift: nat): (r: seq<limb>)
    ensures |r| == |a|
  {
    var k, s := shift / 32, shift % 32;
    if k >= |a| then Zeros(|a|) else Raised(a, k, s)
  }

  function ShiftedRight(a: seq<limb>, shift: nat): (r: seq<limb>)
    ensures |r| == |a|
  {
    var k, s := shift / 32, shift % 32;
    if k >= |a| then Zeros(|a|) else ShiftDown(a[k..], s) + Zeros(k)
  }

  lemma ShiftPower(shift: nat)
    ensures Pow2(shift) == Power(shift / 32) * Pow2(shift % 32)
  {
    hide Pow2, Power;
    PowerIsPow2(shift / 32);
    Pow2Sum(32 * (shift / 32), shift % 32);
  }

  lemma ShiftedLeftValue(a: seq<limb>, shift: nat)
    ensures Value(ShiftedLeft(a, shift)) == (Value(a) * Pow2(shift)) % Power(|a|)
  {
    hide Pow2, Power, Value, Raised;
    var k, s := shift / 32, shift % 32;
    ShiftPower(shift);
    if k >= |a| { ShiftOut(a, k, Pow2(s)); } else { ShiftNear(a, k, s); }
  }

  /** Everything is shifted out. */
  lemma ShiftOut(a: seq<limb>, k: nat, t: nat)
    requires k >= |a|
    ensures Value(Zeros(|a|)) == (Value(a) * (Power(k) * t)) % Power(|a|)
  {
    hide Power, Value;
    var n := |a|;
    ValueZeros(Zeros(n));
    PowerAdd(n, k - n);
    MulAssoc(Power(n), Power(k - n), t);
    OverModulus(Value(a), Power(n), Power(k - n) * t);
  }

  lemma ShiftNear(a: seq<limb>, k: nat, s: nat)
    requires k < |a| && s < 32
    ensures Value(Raised(a, k, s)) == (Value(a) * (Power(k) * Pow2(s))) % Power(|a|)
  {
    hide Pow2, Power, Value, Raised, ShiftUp, CarryOut;
    RaisedValue(a, k, s);
    var out := LowerPart(a, k, s);
    NearStep(a, k, Value(ShiftUp(a[..|a| - k], s, 0)), out, Pow2(s), Value(Raised(a, k, s)));
  }

  lemma LowerPart(a: seq<limb>, k: nat, s: nat) returns (out: nat)
    requires k < |a| && s < 32
    ensures Value(ShiftUp(a[..|a| - k], s, 0)) + out * Power(|a| - k) == Value(a[..|a| - k]) * Pow2(s)
  {
    hide Pow2, Power, Value, ShiftUp, CarryOut;
    ShiftUpValue(a[..|a| - k], s, 0);
    out := CarryOut(a[..|a| - k], s, 0);
  }

  lemma RaisedValue(a: seq<limb>, k: nat, s: nat)
    requires k < |a| && s < 32
    ensures Value(Raised(a, k, s)) == Power(k) * Value(ShiftUp(a[..|a| - k], s, 0)) < Power(|a|)
  {
    hide Power, Value, ShiftUp, Pow2;
    var up := ShiftUp(a[..|a| - k], s, 0);
    ValueConcat(Zeros(k), up);
    ValueZeros(Zeros(k));
    ValueBound(Raised(a, k, s));
  }

  lemma NearStep(a: seq<limb>, k: nat, w: nat, out: nat, t: nat, r: nat)
    requires k < |a| && w + out * Power(|a| - k) == Value(a[..|a| - k]) * t
    requires r == Power(k) * w && r < Power(|a|)
    ensures r == (Value(a) * (Power(k) * t)) % Power(|a|)
  {
    hide Power, Value;
    ValueSplit(a, |a| - k);
    PowerAdd(k, |a| - k);
    NearAlgebra(Value(a), Value(a[..|a| - k]), Value(a[|a| - k..]), w, out, Power(k), Power(|a| - k), t, Power(|a|), r);
  }

  lemma NearAlgebra(va: nat, v: nat, rest: nat, w: nat, out: nat, pk: nat, pr: nat, t: nat, m: nat, r: nat)
    requires va == v + pr * rest && w + out * pr == v * t && m == pk * pr && r == pk * w && r < m
    ensures r == (va * (pk * t)) % m
  {
    LeftStep(v, rest, w, out, pk, pr, t);
    Remainder(r, out + rest * t, m, va * (pk * t));
  }

  lemma OverModulus(v: nat, m: nat, q: nat)
    requires m > 0
    ensures (v * (m * q)) % m == 0
  {
    assert v * (m * q) == (v * q) * m;
    Remainder(0, v * q, m, v * (m * q));
  }

  lemma LeftStep(v: nat, rest: nat, w: nat, out: nat, pk: nat, pr: nat, t: nat)
    requires w + out * pr == v * t
    ensures pk * w + (out + rest * t) * (pk * pr) == (v + pr * rest) * (pk * t)
  {
    assert pk * (w + out * pr) == pk * w + out * (pk * pr) by { Distribute(pk, w, out, pr); }
    assert pk * (v * t) == v * (pk * t) by { MulRotate(pk, v, t); }
    Scale(out, rest * t, pk * pr);
    Scale(v, pr * rest, pk * t);
    assert (rest * t) * (pk * pr) == (pr * rest) * (pk * t) by { MulFour(rest, t, pk, pr); }
  }

  lemma Distribute(a: nat, w: nat, c: nat, d: nat)
    ensures a * (w + c * d) == a * w + c * (a * d)
  {
    assert a * (c * d) == c * (a * d);
  }

  lemma MulRotate(a: nat, b: nat, c: nat)
    ensures a * (b * c) == b * (a * c)
  {
  }

  lemma MulFour(a: nat, b: nat, c: nat, d: nat)
    ensures (a * b) * (c * d) == (d * a) * (c * b)
  {
    assert (a * b) * (c * d) == a * (b * (c * d));
    assert b * (c * d) == d * (c * b);
    assert a * (d * (c * b)) == (d * a) * (c * b);
  }

  lemma ShiftedRightValue(a: seq<limb>, shift: nat)
    ensures Value(ShiftedRight(a, shift)) == Value(a) / Pow2(shift)
  {
    hide Pow2, Power, Value, ShiftDown, Low;
    var k, s, n := shift / 32, shift % 32, |a|;
    ShiftPower(shift);
    ValueBound(a);
    if k >= n {
      ValueZeros(Zeros(n));
      PowerAdd(n, k - n);
      MulAtLeast(Power(k - n) * Pow2(s), Power(n));
      MulAssoc(Power(n), Power(k - n), Pow2(s));
      AtLeastOne(Power(k - n), Pow2(s));
      DivModUnique(Value(a), Pow2(shift), 0, Value(a));
    } else {
      var t := a[k..];
      ShiftDownValue(t, s);
      ValueSplit(a, k);
      ValueBound(a[..k]);
      LowBound(t[0], s);
      ValueConcat(ShiftDown(t, s), Zeros(k));
      ValueZeros(Zeros(k));
      RightStep(Value(a[..k]), Value(ShiftDown(t, s)), Low(t[0], s), Power(k), Pow2(s));
      DivModUnique(Value(a), Pow2(shift), Value(ShiftDown(t, s)), Value(a[..k]) + Power(k) * Low(t[0], s));
    }
  }

  lemma AtLeastOne(a: nat, b: nat)
    requires a >= 1 && b >= 1
    ensures a * b >= 1
  {
  }

  lemma RightStep(v: nat, w: nat, low: nat, p: nat, t: nat)
    requires v < p && low < t
    ensures v + p * (w * t + low) == w * (p * t) + (v + p * low)
    ensures v + p * low < p * t
  {
    assert p * (w * t) == w * (p * t) by { MulRotate(p, w, t); }
    MulLe(p, low + 1, t);
  }
}
