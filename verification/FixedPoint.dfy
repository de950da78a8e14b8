/** Parsing decimal amounts: the JSON number grammar and an exact fixed-point value. */
module FixedPoint {

  import opened Prelude

  const LIMIT: nat := 999_999_999_999_999_999
  const TENTH: nat := 99_999_999_999_999_999
  const INT_MAX: nat := 0x7fff_ffff

  function Pow10(n: nat): (r: nat)
    ensures r >= 1
  {
    if n == 0 then 1 else 10 * Pow10(n - 1)
  }

  // ---------------------------------------------------------------- the grammar

  predicate IsDigit(c: char) { '0' <= c <= '9' }

  function DigitValue(c: char): nat
    requires IsDigit(c)
  {
    c as int - '0' as int
  }

  predicate AllDigits(s: string) { forall i :: 0 <= i < |s| ==> IsDigit(s[i]) }

  datatype Exponent = Exponent(mark: char, sign: string, digits: string)

  /** The parts of a number (section 6 of RFC 8259). */
  datatype Number = Number(negative: bool, whole: string, frac: Option<string>, exp: Option<Exponent>)

  function RenderFrac(f: Option<string>): string { if f.None? then "" else "." + f.value }

  function RenderExp(e: Option<Exponent>): string
  {
    if e.None? then "" else [e.value.mark] + e.value.sign + e.value.digits
  }

  function Render(n: Number): string
  {
    (if n.negative then "-" else "") + (n.whole + (RenderFrac(n.frac) + RenderExp(n.exp)))
  }

  predicate GoodWhole(s: string)
  {
    s == "0" || (s != "" && AllDigits(s) && s[0] != '0')
  }

  predicate GoodExp(e: Exponent)
  {
    && (e.mark == 'e' || e.mark == 'E')
    && (e.sign == "" || e.sign == "+" || e.sign == "-")
    && e.digits != "" && AllDigits(e.digits)
  }

  predicate WellFormed(n: Number)
  {
    && GoodWhole(n.whole)
    && (n.frac.Some? ==> n.frac.value != "" && AllDigits(n.frac.value))
    && (n.exp.Some? ==> GoodExp(n.exp.value))
  }

  // ---------------------------------------------------------------- recognising it

  /** The digits a string starts with. */
  function Digits(s: string): (d: string)
    ensures |d| <= |s| && d == s[..|d|] && AllDigits(d)
    ensures |d| < |s| ==> !IsDigit(s[|d|])
  {
    if s == "" || !IsDigit(s[0]) then "" else [s[0]] + Digits(s[1..])
  }

  predicate StartsWith(s: string, c: char) { s != "" && s[0] == c }

  function After(s: string, part: string): string
    requires |part| <= |s|
  {
    s[|part|..]
  }

  function ReadWhole(s: string): (r: Option<string>)
    ensures r.Some? ==> |r.value| <= |s|
  {
    if s == "" then None
    else if s[0] == '0' then Some("0")
    else if IsDigit(s[0]) then Some(Digits(s))
    else None
  }

  /** An optional part: not there, there, or begun and broken off. */
  datatype Part<T> = Absent | Present(value: T) | Broken

  function ReadFrac(s: string): (r: Part<string>)
    ensures r.Present? ==> |RenderFrac(Some(r.value))| <= |s|
  {
    if !StartsWith(s, '.') then Absent
    else
      var f := Digits(s[1..]);
      if f == "" then Broken else Present(f)
  }

  function ReadSign(s: string): (r: string)
    ensures |r| <= |s|
  {
    if StartsWith(s, '+') then "+" else if StartsWith(s, '-') then "-" else ""
  }

  function ReadExp(s: string): (r: Part<Exponent>)
    ensures r.Present? ==> |RenderExp(Some(r.value))| <= |s|
  {
    if !(StartsWith(s, 'e') || StartsWith(s, 'E')) then Absent
    else
      var sign := ReadSign(s[1..]);
      var d := Digits(After(s[1..], sign));
      if d == "" then Broken else Present(Exponent(s[0], sign, d))
  }

  function ToOption<T>(p: Part<T>): Option<T> { if p.Present? then Some(p.value) else None }

  function ReadTail(negative: bool, whole: string, s: string): Option<Number>
  {
    var f := ReadFrac(s);
    if f.Broken? then None
    else
      var t := After(s, RenderFrac(ToOption(f)));
      var e := ReadExp(t);
      if e.Broken? || After(t, RenderExp(ToOption(e))) != "" then None
      else Some(Number(negative, whole, ToOption(f), ToOption(e)))
  }

  function ParseNumber(s: string): Option<Number>
  {
    var negative := StartsWith(s, '-');
    var t := if negative then s[1..] else s;
    match ReadWhole(t)
    case None => None
    case Some(w) => ReadTail(negative, w, After(t, w))
  }

  lemma {:induction false} DigitsOf(d: string, rest: string)
    requires AllDigits(d) && (rest == "" || !IsDigit(rest[0]))
    ensures Digits(d + rest) == d
  {
    if d == "" {
      assert d + rest == rest;
    } else {
      assert (d + rest)[1..] == d[1..] + rest;
      DigitsOf(d[1..], rest);
      assert d == [d[0]] + d[1..];
    }
  }

  lemma SplitParts(s: string, part: string)
    requires |part| <= |s| && s[..|part|] == part
    ensures s == part + After(s, part)
  {
  }

  lemma Rejoin(part: string, rest: string)
    ensures After(part + rest, part) == rest
  {
  }

  lemma WholeSound(s: string)
    requires ReadWhole(s).Some?
    ensures GoodWhole(ReadWhole(s).value) && s == ReadWhole(s).value + After(s, ReadWhole(s).value)
  {
    var w := ReadWhole(s).value;
    if s[0] == '0' { assert s[..1] == "0"; } else { assert w[0] == s[0]; }
    SplitParts(s, w);
  }

  lemma FracSound(s: string)
    requires !ReadFrac(s).Broken?
    ensures var f := ToOption(ReadFrac(s));
            && (f.Some? ==> f.value != "" && AllDigits(f.value))
            && |RenderFrac(f)| <= |s| && s == RenderFrac(f) + After(s, RenderFrac(f))
  {
    var f := ToOption(ReadFrac(s));
    if f.Some? { assert s[..|RenderFrac(f)|] == RenderFrac(f); }
    SplitParts(s, RenderFrac(f));
  }

  lemma ExpSound(s: string)
    requires !ReadExp(s).Broken?
    ensures var e := ToOption(ReadExp(s));
            && (e.Some? ==> GoodExp(e.value))
            && |RenderExp(e)| <= |s| && s == RenderExp(e) + After(s, RenderExp(e))
  {
    var e := ToOption(ReadExp(s));
    if e.Some? {
      var sign := ReadSign(s[1..]);
      assert s[1..][..|sign|] == sign;
      assert s[..|RenderExp(e)|] == RenderExp(e);
    }
    SplitParts(s, RenderExp(e));
  }

  /** What is recognised is in the grammar and reads exactly as written. */
  lemma ParsedIsWellFormed(s: string)
    requires ParseNumber(s).Some?
    ensures WellFormed(ParseNumber(s).value) && Render(ParseNumber(s).value) == s
  {
    hide GoodWhole, GoodExp, ReadWhole, ReadFrac, ReadExp, RenderFrac, RenderExp, After, AllDigits;
    var negative := StartsWith(s, '-');
    var t := if negative then s[1..] else s;
    WholeSound(t);
    var w := ReadWhole(t).value;
    var u := After(t, w);
    FracSound(u);
    var f := ToOption(ReadFrac(u));
    var v := After(u, RenderFrac(f));
    ExpSound(v);
    var e := ToOption(ReadExp(v));
    assert RenderExp(e) + "" == RenderExp(e);
    if negative { assert s == "-" + t; } else { assert s == "" + t; }
  }

  lemma WholeBack(w: string, rest: string)
    requires GoodWhole(w) && (rest == "" || !IsDigit(rest[0]))
    ensures ReadWhole(w + rest) == Some(w)
  {
    assert (w + rest)[0] == w[0];
    if w != "0" { DigitsOf(w, rest); }
  }

  lemma FracBack(f: Option<string>, rest: string)
    requires f.Some? ==> f.value != "" && AllDigits(f.value)
    requires (rest == "" || !IsDigit(rest[0])) && !StartsWith(rest, '.')
    ensures !ReadFrac(RenderFrac(f) + rest).Broken? && ToOption(ReadFrac(RenderFrac(f) + rest)) == f
  {
    var s := RenderFrac(f) + rest;
    if f.Some? {
      assert s[0] == '.' && s[1..] == f.value + rest;
      DigitsOf(f.value, rest);
    } else {
      assert s == rest;
    }
  }

  lemma ExpBack(e: Option<Exponent>)
    requires e.Some? ==> GoodExp(e.value)
    ensures !ReadExp(RenderExp(e)).Broken? && ToOption(ReadExp(RenderExp(e))) == e
  {
    hide Digits;
    if e.Some? {
      var s, x := RenderExp(e), e.value;
      assert s[0] == x.mark && s[1..] == x.sign + x.digits;
      SignBack(x.sign, x.digits);
      Rejoin(x.sign, x.digits);
      AllOfIt(x.digits);
    }
  }

  lemma SignBack(sign: string, digits: string)
    requires (sign == "" || sign == "+" || sign == "-") && digits != "" && AllDigits(digits)
    ensures ReadSign(sign + digits) == sign
  {
    assert (sign + digits)[0] == if sign == "" then digits[0] else sign[0];
  }

  lemma AllOfIt(d: string)
    requires AllDigits(d)
    ensures Digits(d) == d
  {
    hide Digits;
    DigitsOf(d, "");
    assert d + "" == d;
  }

  lemma Separators(f: Option<string>, e: Option<Exponent>)
    requires e.Some? ==> GoodExp(e.value)
    ensures var r := RenderExp(e);
            (r == "" || !IsDigit(r[0])) && !StartsWith(r, '.')
    ensures var r := RenderFrac(f) + RenderExp(e);
            r == "" || !IsDigit(r[0])
  {
    var r := RenderFrac(f) + RenderExp(e);
    if f.None? { assert r == RenderExp(e); }
  }

  /** And every number of the grammar is recognised, with its own parts. */
  lemma WellFormedIsParsed(n: Number)
    requires WellFormed(n)
    ensures ParseNumber(Render(n)) == Some(n)
  {
    hide GoodWhole, GoodExp, ReadWhole, ReadFrac, ReadExp, RenderFrac, RenderExp, After, AllDigits;
    var e := RenderExp(n.exp);
    var f := RenderFrac(n.frac) + e;
    var t := n.whole + f;
    Separators(n.frac, n.exp);
    WholeBack(n.whole, f);
    FracBack(n.frac, e);
    ExpBack(n.exp);
    Rejoin(n.whole, f);
    Rejoin(RenderFrac(n.frac), e);
    assert e + "" == e;
    Rejoin(e, "");
    WholeStart(n.whole, f);
    if n.negative { assert ("-" + t)[1..] == t; } else { assert "" + t == t; }
  }

  lemma WholeStart(w: string, rest: string)
    requires GoodWhole(w)
    ensures !StartsWith(w + rest, '-')
  {
    assert (w + rest)[0] == w[0];
  }

  // ---------------------------------------------------------------- mantissa and exponent

  /** A mantissa and the zeros held back after it. */
  datatype Scaled = Scaled(m: nat, zeros: nat)

  /** Multiplication by a power of ten, checked before every factor. */
  function TimesPow10(m: nat, k: nat): Option<nat>
  {
    if k > 0 && m * Pow10(k - 1) > TENTH then None else Some(m * Pow10(k))
  }

  function PushDigit(sc: Scaled, c: char): Option<Scaled>
    requires IsDigit(c)
  {
    if c == '0' then Some(Scaled(sc.m, sc.zeros + 1))
    else
      match TimesPow10(sc.m, sc.zeros + 1)
      case None => None
      case Some(v) => Some(Scaled(v + DigitValue(c), 0))
  }

  function PushDigits(sc: Scaled, d: string): Option<Scaled>
    requires AllDigits(d)
    decreases |d|
  {
    if d == "" then Some(sc)
    else
      match PushDigit(sc, d[0])
      case None => None
      case Some(next) => PushDigits(next, d[1..])
  }

  function ExpDigits(e: nat, d: string): Option<nat>
    requires AllDigits(d)
    decreases |d|
  {
    if d == "" then Some(e)
    else if e > TENTH then None
    else ExpDigits(e * 10 + DigitValue(d[0]), d[1..])
  }

  /** The digits that are processed: a lone leading zero is passed over. */
  function Significant(n: Number): string
  {
    (if n.whole == "0" then "" else n.whole) + (if n.frac.Some? then n.frac.value else "")
  }

  function FracLength(n: Number): nat { if n.frac.Some? then |n.frac.value| else 0 }

  function ReadExponent(n: Number): Option<int>
    requires WellFormed(n)
  {
    if n.exp.None? then Some(0)
    else
      match ExpDigits(0, n.exp.value.digits)
      case None => None
      case Some(e) => Some(if n.exp.value.sign == "-" then 0 - e else e)
  }

  function WithSign(negative: bool, v: nat): int { if negative then 0 - v else v }

  function Finish(negative: bool, m: nat, exponent: int): Option<int>
  {
    if exponent < 0 || exponent >= 18 then None
    else
      match TimesPow10(m, exponent)
      case None => None
      case Some(v) => if v > LIMIT then None else Some(WithSign(negative, v))
  }

  lemma SignificantDigits(n: Number)
    requires WellFormed(n)
    ensures AllDigits(Significant(n))
  {
  }

  function Evaluate(n: Number, decimals: int): Option<int>
    requires WellFormed(n)
  {
    SignificantDigits(n);
    match PushDigits(Scaled(0, 0), Significant(n))
    case None => None
    case Some(sc) =>
      match ReadExponent(n)
      case None => None
      case Some(e) => Finish(n.negative, sc.m, e - FracLength(n) + sc.zeros + decimals)
  }

  // ---------------------------------------------------------------- what a number denotes

  /** The value after appending digits. */
  function ValueFrom(v: nat, d: string): nat
    requires AllDigits(d)
    decreases |d|
  {
    if d == "" then v else ValueFrom(10 * v + DigitValue(d[0]), d[1..])
  }

  function FracDigits(n: Number): string { if n.frac.Some? then n.frac.value else "" }

  lemma AllSignificant(n: Number)
    requires WellFormed(n)
    ensures AllDigits(n.whole + FracDigits(n))
  {
  }

  /** All the digits, read as one integer. */
  function Coefficient(n: Number): nat
    requires WellFormed(n)
  {
    AllSignificant(n);
    ValueFrom(0, n.whole + FracDigits(n))
  }

  function ExponentValue(n: Number): int
    requires WellFormed(n)
  {
    if n.exp.None? then 0
    else
      var e := ValueFrom(0, n.exp.value.digits);
      if n.exp.value.sign == "-" then 0 - e else e
  }

  /** `a` is the magnitude of the number times 10^decimals, with no rounding. */
  predicate Denotes(n: Number, decimals: int, a: nat)
    requires WellFormed(n)
  {
    Balanced(a, Coefficient(n), ExponentValue(n) - FracLength(n) + decimals)
  }

  /** a == v * 10^e, for an exponent of either sign. */
  predicate Balanced(a: nat, v: nat, e: int)
  {
    if e >= 0 then a == v * Pow10(e) else a * Pow10(-e) == v
  }

  /** The amounts a number is accepted with. */
  predicate HasAmount(n: Number, decimals: int, amount: int)
    requires WellFormed(n)
  {
    if Coefficient(n) == 0 then amount == 0 && 0 <= ExponentValue(n) + decimals < 18
    else
      var a := if n.negative then 0 - amount else amount;
      0 < a <= LIMIT && Denotes(n, decimals, a)
  }

  // ---------------------------------------------------------------- powers of ten

  lemma {:induction false} Pow10Sum(a: nat, b: nat)
    ensures Pow10(a + b) == Pow10(a) * Pow10(b)
  {
    if a == 0 {
    } else {
      Pow10Sum(a - 1, b);
      assert 10 * (Pow10(a - 1) * Pow10(b)) == (10 * Pow10(a - 1)) * Pow10(b);
    }
  }

  lemma {:induction false} Pow10Less(a: nat, b: nat)
    requires a < b
    ensures Pow10(a) < Pow10(b)
    decreases b
  {
    if a < b - 1 { Pow10Less(a, b - 1); }
  }

  lemma Pow10Eighteen()
    ensures Pow10(18) == LIMIT + 1
  {
    assert Pow10(4) == 10_000;
    assert Pow10(8) == 100_000_000;
    assert Pow10(12) == 1_000_000_000_000;
    assert Pow10(16) == 10_000_000_000_000_000;
  }

  lemma TimesTen(m: nat, k: nat)
    requires k > 0
    ensures m * Pow10(k) == 10 * (m * Pow10(k - 1))
  {
  }

  /** A number without its trailing zeros, and how many there were. */
  function Strip(v: nat): nat { if v == 0 then 0 else if v % 10 == 0 then Strip(v / 10) else v }

  function Trailing(v: nat): nat { if v == 0 then 0 else if v % 10 == 0 then 1 + Trailing(v / 10) else 0 }

  lemma {:induction false} StripSplit(v: nat)
    requires v > 0
    ensures v == Strip(v) * Pow10(Trailing(v)) && 0 < Strip(v) <= v && Strip(v) % 10 != 0
    decreases v
  {
    if v % 10 == 0 {
      StripSplit(v / 10);
      TimesTen(Strip(v), Trailing(v));
    }
  }

  lemma StripTen(v: nat)
    requires v > 0
    ensures Strip(10 * v) == Strip(v) && Trailing(10 * v) == Trailing(v) + 1
  {
    assert (10 * v) % 10 == 0 && (10 * v) / 10 == v;
  }

  lemma {:induction false} StripTimes(v: nat, k: nat)
    requires v > 0
    ensures v * Pow10(k) > 0 && Strip(v * Pow10(k)) == Strip(v) && Trailing(v * Pow10(k)) == Trailing(v) + k
    decreases k
  {
    hide Strip, Trailing;
    if k == 0 {
      assert v * Pow10(0) == v;
    } else {
      StripTimes(v, k - 1);
      TimesTen(v, k);
      StripTen(v * Pow10(k - 1));
    }
  }

  // ---------------------------------------------------------------- the mantissa

  /** The mantissa is the value so far without its trailing zeros. */
  predicate Tracks(sc: Scaled, v: nat)
  {
    sc.m * Pow10(sc.zeros) == v && sc.m <= LIMIT && (sc.m == 0 || sc.m % 10 != 0)
  }

  predicate TooLong(v: nat) { Strip(v) > LIMIT }

  lemma PushTracks(sc: Scaled, v: nat, c: char)
    requires Tracks(sc, v) && IsDigit(c)
    ensures var w := 10 * v + DigitValue(c);
            match PushDigit(sc, c)
            case Some(next) => Tracks(next, w) && next.zeros <= sc.zeros + 1
                               && (next.m == 0 ==> sc.m == 0 && next.zeros == sc.zeros + 1)
            case None => TooLong(w)
  {
    hide Pow10;
    TimesTen(sc.m, sc.zeros + 1);
    Pow10Zero();
  }

  lemma Pow10Zero()
    ensures Pow10(0) == 1
  {
  }

  lemma {:induction false} TooLongStays(v: nat, d: string)
    requires TooLong(v) && AllDigits(d)
    ensures TooLong(ValueFrom(v, d))
    decreases |d|
  {
    if d == "" {
    } else {
      var w := 10 * v + DigitValue(d[0]);
      StripSplit(v);
      if d[0] == '0' { StripTen(v); } else { assert w % 10 == DigitValue(d[0]) != 0; }
      TooLongStays(w, d[1..]);
    }
  }

  lemma {:induction false} PushAllTracks(sc: Scaled, v: nat, d: string)
    requires Tracks(sc, v) && AllDigits(d)
    ensures match PushDigits(sc, d)
            case Some(next) => Tracks(next, ValueFrom(v, d)) && next.zeros <= sc.zeros + |d|
                               && (next.m == 0 ==> sc.m == 0 && next.zeros == sc.zeros + |d|)
            case None => TooLong(ValueFrom(v, d))
    decreases |d|
  {
    hide Tracks, TooLong, PushDigit;
    if d == "" {
    } else {
      PushTracks(sc, v, d[0]);
      var w := 10 * v + DigitValue(d[0]);
      var next := PushDigit(sc, d[0]);
      if next.Some? { PushAllTracks(next.value, w, d[1..]); } else { TooLongStays(w, d[1..]); }
    }
  }

  /** Held-back zeros never outnumber the digits seen. */
  lemma {:induction false} ZerosBound(sc: Scaled, d: string)
    requires AllDigits(d)
    ensures PushDigits(sc, d).Some? ==> PushDigits(sc, d).value.zeros <= sc.zeros + |d|
    decreases |d|
  {
    hide TimesPow10;
    if d == "" {
    } else {
      var next := PushDigit(sc, d[0]);
      if next.Some? { ZerosBound(next.value, d[1..]); }
    }
  }

  lemma {:induction false} ValueGrows(v: nat, d: string)
    requires AllDigits(d)
    ensures ValueFrom(v, d) >= v && (d != "" ==> ValueFrom(v, d) >= 10 * v)
    decreases |d|
  {
    if d == "" {
    } else {
      ValueGrows(10 * v + DigitValue(d[0]), d[1..]);
    }
  }

  lemma {:induction false} ExpDigitsValue(e: nat, d: string)
    requires AllDigits(d) && e <= LIMIT
    ensures match ExpDigits(e, d)
            case Some(r) => r == ValueFrom(e, d) <= LIMIT
            case None => ValueFrom(e, d) > LIMIT
    decreases |d|
  {
    if d == "" {
    } else {
      if e > TENTH { ValueGrows(e, d); } else { ExpDigitsValue(e * 10 + DigitValue(d[0]), d[1..]); }
    }
  }

  lemma LeadingZero(n: Number)
    requires WellFormed(n)
    ensures AllDigits(Significant(n)) && ValueFrom(0, Significant(n)) == Coefficient(n)
    ensures |Significant(n)| <= |Render(n)|
  {
    AllSignificant(n);
    if n.whole == "0" {
      var all := n.whole + FracDigits(n);
      assert all[0] == '0' && all[1..] == FracDigits(n) == Significant(n);
    } else {
      assert Significant(n) == n.whole + FracDigits(n);
    }
  }

  lemma {:induction false} NonzeroFirst(v: nat, d: string)
    requires AllDigits(d) && d != "" && d[0] != '0'
    ensures ValueFrom(v, d) > 0
  {
    ValueGrows(10 * v + DigitValue(d[0]), d[1..]);
  }

  /** A number is zero only when every digit is, and then its whole part is a lone zero. */
  lemma ZeroNumber(n: Number)
    requires WellFormed(n) && Coefficient(n) == 0
    ensures |Significant(n)| == FracLength(n)
  {
    hide ValueFrom;
    if n.whole != "0" {
      AllSignificant(n);
      NonzeroFirst(0, n.whole + FracDigits(n));
    }
  }

  // ---------------------------------------------------------------- the amount

  lemma ExponentRead(n: Number)
    requires WellFormed(n)
    ensures ReadExponent(n).Some? ==> ReadExponent(n).value == ExponentValue(n)
    ensures ReadExponent(n).None? ==> ExponentValue(n) > LIMIT || ExponentValue(n) < 0 - LIMIT
  {
    hide ValueFrom, ExpDigits;
    if n.exp.Some? { ExpDigitsValue(0, n.exp.value.digits); }
  }

  /** The amount of a nonzero coefficient is its stripped mantissa with the right number of zeros. */
  lemma BalancedStrip(a: nat, v: nat, e: int)
    requires a > 0 && v > 0 && Balanced(a, v, e)
    ensures Strip(a) == Strip(v) && Trailing(a) == Trailing(v) + e
  {
    hide Strip, Trailing, Pow10;
    if e >= 0 { StripTimes(v, e); } else { StripTimes(a, -e); }
  }

  lemma StripBalanced(a: nat, v: nat, e: int)
    requires a > 0 && v > 0 && Strip(a) == Strip(v) && Trailing(a) == Trailing(v) + e
    ensures Balanced(a, v, e)
  {
    hide Strip, Trailing, Pow10;
    StripSplit(a);
    StripSplit(v);
    var m := Strip(v);
    if e >= 0 {
      Pow10Sum(Trailing(v), e);
      MulAssoc3(m, Pow10(Trailing(v)), Pow10(e));
    } else {
      Pow10Sum(Trailing(a), -e);
      MulAssoc3(m, Pow10(Trailing(a)), Pow10(-e));
    }
  }

  lemma MulAssoc3(a: nat, b: nat, c: nat)
    ensures a * (b * c) == (a * b) * c
  {
  }

  lemma TracksStrip(sc: Scaled, v: nat)
    requires Tracks(sc, v) && v > 0
    ensures 0 < sc.m == Strip(v) <= LIMIT && sc.zeros == Trailing(v)
  {
    hide Pow10, Strip, Trailing;
    PositiveFactor(sc.m, Pow10(sc.zeros));
    StripTimes(sc.m, sc.zeros);
    OwnStrip(sc.m);
  }

  lemma PositiveFactor(a: nat, b: nat)
    requires a * b > 0
    ensures a > 0
  {
  }

  lemma OwnStrip(m: nat)
    requires m % 10 != 0
    ensures Strip(m) == m && Trailing(m) == 0
  {
  }

  /** The last steps accept exactly the amounts within the limit. */
  lemma FinishIff(negative: bool, m: nat, e: int, a: nat)
    requires 0 < m <= LIMIT && m % 10 != 0
    ensures Finish(negative, m, e) == Some(WithSign(negative, a)) <==>
            e >= 0 && a == m * Pow10(e) && a <= LIMIT
  {
    hide Pow10;
    if e >= 0 {
      Pow10Eighteen();
      if e >= 18 {
        AtLeastPower(m, e);
      } else if e > 0 {
        TimesTen(m, e);
      }
    }
  }

  lemma AtLeastPower(m: nat, e: nat)
    requires m > 0 && e >= 18
    ensures m * Pow10(e) > LIMIT
  {
    hide Pow10;
    Pow10Eighteen();
    if e > 18 { Pow10Less(18, e); }
    assert m * Pow10(e) >= Pow10(e) by { assert m * Pow10(e) == (m - 1) * Pow10(e) + Pow10(e); }
  }

  predicate Sizes(n: Number, decimals: int)
  {
    |Render(n)| <= INT_MAX && 0 - INT_MAX <= decimals <= INT_MAX
  }

  lemma PartLengths(n: Number)
    requires WellFormed(n)
    ensures FracLength(n) <= |Render(n)|
  {
  }

  lemma NonzeroAmount(n: Number, decimals: int, a: nat)
    requires WellFormed(n) && Sizes(n, decimals) && Coefficient(n) > 0 && a > 0
    ensures Evaluate(n, decimals) == Some(WithSign(n.negative, a)) <==> a <= LIMIT && Denotes(n, decimals, a)
  {
    hide Pow10, Strip, Trailing, PushDigits, ValueFrom, Coefficient, ExponentValue, ReadExponent, Render, Finish,
      WellFormed, Significant, FracLength, Tracks, TooLong, Balanced;
    var v, e := Coefficient(n), ExponentValue(n) - FracLength(n) + decimals;
    LeadingZero(n);
    NoDigits();
    PushAllTracks(Scaled(0, 0), 0, Significant(n));
    var r := PushDigits(Scaled(0, 0), Significant(n));
    if r.None? {
      if Balanced(a, v, e) { LongAmount(a, v, e); }
    } else {
      TracksStrip(r.value, v);
      ExponentRead(n);
      if ReadExponent(n).Some? {
        AmountOf(n.negative, v, e, a);
      } else {
        PartLengths(n);
        if Balanced(a, v, e) && a <= LIMIT { NearExponent(a, v, e); }
      }
    }
  }

  lemma LongAmount(a: nat, v: nat, e: int)
    requires a > 0 && v > 0 && Balanced(a, v, e) && TooLong(v)
    ensures a > LIMIT
  {
    hide Strip, Trailing, Balanced;
    BalancedStrip(a, v, e);
    StripSplit(a);
  }

  lemma NearExponent(a: nat, v: nat, e: int)
    requires 0 < a <= LIMIT && v > 0 && Balanced(a, v, e)
    ensures 0 <= Trailing(v) + e < 18
  {
    hide Strip, Trailing, Balanced, Pow10;
    BalancedStrip(a, v, e);
    StripSplit(a);
    if Trailing(a) >= 18 { AtLeastPower(Strip(a), Trailing(a)); }
  }

  lemma NoDigits()
    ensures Tracks(Scaled(0, 0), 0)
  {
  }

  lemma AmountOf(negative: bool, v: nat, e: int, a: nat)
    requires v > 0 && a > 0 && Strip(v) <= LIMIT
    ensures Finish(negative, Strip(v), e + Trailing(v)) == Some(WithSign(negative, a)) <==>
            a <= LIMIT && Balanced(a, v, e)
  {
    hide Pow10, Strip, Trailing, Finish, Balanced;
    StripSplit(v);
    StripSplit(a);
    var k := e + Trailing(v);
    FinishIff(negative, Strip(v), k, a);
    if Balanced(a, v, e) { BalancedStrip(a, v, e); }
    if k >= 0 && a == Strip(v) * Pow10(k) {
      StripTimes(Strip(v), k);
      OwnStrip(Strip(v));
      StripBalanced(a, v, e);
    }
  }

  lemma ZeroAmount(n: Number, decimals: int)
    requires WellFormed(n) && Sizes(n, decimals) && Coefficient(n) == 0
    ensures Evaluate(n, decimals) == if 0 <= ExponentValue(n) + decimals < 18 then Some(0) else None
  {
    hide Strip, Trailing, PushDigits, ValueFrom, Coefficient, ExponentValue, ReadExponent, Render,
      WellFormed, Significant, FracLength;
    LeadingZero(n);
    ZeroNumber(n);
    PartLengths(n);
    NoDigits();
    PushAllTracks(Scaled(0, 0), 0, Significant(n));
    ExponentRead(n);
    StripZero();
    var r := PushDigits(Scaled(0, 0), Significant(n));
    if r.Some? { ZeroMantissa(r.value); }
  }

  lemma StripZero()
    ensures Strip(0) == 0
  {
  }

  lemma ZeroMantissa(sc: Scaled)
    requires Tracks(sc, 0)
    ensures sc.m == 0
  {
    assert sc.m * Pow10(sc.zeros) >= sc.m by {
      assert sc.m * Pow10(sc.zeros) == sc.m * (Pow10(sc.zeros) - 1) + sc.m;
    }
  }

  /** A number is accepted with an amount exactly when the amount is its value, without rounding, in range. */
  lemma EvaluateIff(n: Number, decimals: int, amount: int)
    requires WellFormed(n) && Sizes(n, decimals)
    ensures Evaluate(n, decimals) == Some(amount) <==> HasAmount(n, decimals, amount)
  {
    hide Evaluate, Coefficient, Denotes, ExponentValue, WellFormed, Sizes;
    if Coefficient(n) == 0 {
      ZeroAmount(n, decimals);
    } else {
      var a := if n.negative then 0 - amount else amount;
      if a > 0 { NonzeroAmount(n, decimals, a); } else { NeverZero(n, decimals, amount); }
    }
  }

  lemma NeverZero(n: Number, decimals: int, amount: int)
    requires WellFormed(n) && Sizes(n, decimals) && Coefficient(n) > 0
    requires if n.negative then amount >= 0 else amount <= 0
    ensures Evaluate(n, decimals) != Some(amount)
  {
    hide Pow10, Strip, Trailing, PushDigits, ValueFrom, Coefficient, ReadExponent, Render, WellFormed, Significant,
      FracLength;
    LeadingZero(n);
    NoDigits();
    PushAllTracks(Scaled(0, 0), 0, Significant(n));
    var r := PushDigits(Scaled(0, 0), Significant(n));
    if r.Some? && ReadExponent(n).Some? {
      TracksStrip(r.value, Coefficient(n));
      StripSplit(Coefficient(n));
      var k := ReadExponent(n).value - FracLength(n) + r.value.zeros + decimals;
      if k >= 0 { Positive(r.value.m, Pow10(k)); }
    }
  }

  lemma Positive(a: nat, b: nat)
    requires a > 0 && b > 0
    ensures a * b > 0
  {
  }

  function Parse(val: string, decimals: int): Option<int>
  {
    match ParseNumber(val)
    case None => None
    case Some(n) =>
      ParsedIsWellFormed(val);
      Evaluate(n, decimals)
  }

  /** A string is accepted exactly when it is a number of the grammar that has the amount. */
  lemma ParseIff(val: string, decimals: int, amount: int)
    requires |val| <= INT_MAX && 0 - INT_MAX <= decimals <= INT_MAX
    ensures Parse(val, decimals) == Some(amount) <==>
            exists n: Number :: WellFormed(n) && Render(n) == val && HasAmount(n, decimals, amount)
  {
    hide WellFormed, Render, HasAmount, Evaluate, ParseNumber;
    var p := ParseNumber(val);
    if p.Some? {
      ParsedIsWellFormed(val);
      EvaluateIff(p.value, decimals, amount);
    }
    if exists n: Number :: WellFormed(n) && Render(n) == val && HasAmount(n, decimals, amount) {
      var n: Number :| WellFormed(n) && Render(n) == val && HasAmount(n, decimals, amount);
      WellFormedIsParsed(n);
      EvaluateIff(n, decimals, amount);
    }
  }

  /** A zero the parser refuses, although zero is an amount. */
  lemma RefusedZero()
    ensures Parse("0e-9", 8).None?
  {
    hide Parse, Evaluate;
    var n := Number(false, "0", None, Some(Exponent('e', "-", "9")));
    assert Render(n) == "0e-9";
    WellFormedIsParsed(n);
    assert ValueFrom(0, "9") == ValueFrom(9, "");
    assert ValueFrom(0, "0" + "") == ValueFrom(0, "");
    ZeroAmount(n, 8);
    ParseOf(n, 8);
  }

  lemma ParseOf(n: Number, decimals: int)
    requires WellFormed(n)
    ensures Parse(Render(n), decimals) == Evaluate(n, decimals)
  {
    hide Evaluate, WellFormed, Render;
    WellFormedIsParsed(n);
  }

  /** Amounts stay below 10^18 in magnitude. */
  lemma AmountBound(val: string, decimals: int)
    ensures Parse(val, decimals).Some? ==> 0 - LIMIT <= Parse(val, decimals).value <= LIMIT
  {
    hide ParseNumber, PushDigits, ReadExponent, TimesPow10;
  }
}
