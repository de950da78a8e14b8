/** The scanning loops of the fixed-point parser, proved against its grammar and value. */
module FixedPointParser {

  import opened Prelude
  import opened FixedPoint

  const INT64_MAX: int := 0x7fff_ffff_ffff_ffff

  // ---------------------------------------------------------------- powers of ten

  function Magnitude(m: int): nat { if m < 0 then 0 - m else m }

  lemma Pow10NotLess(a: nat, b: nat)
    requires a <= b
    ensures Pow10(a) <= Pow10(b)
  {
    if a < b { Pow10Less(a, b); }
  }

  lemma StaysOver(m: nat, i: nat, k: nat)
    requires i < k && m * Pow10(i) > TENTH
    ensures m * Pow10(k - 1) > TENTH
  {
    hide Pow10;
    Pow10NotLess(i, k - 1);
    assert m * Pow10(k - 1) >= m * Pow10(i) by {
      assert m * Pow10(k - 1) == m * Pow10(i) + m * (Pow10(k - 1) - Pow10(i));
    }
  }

  /** Multiplies by ten `k` times, giving up before a step that could overflow. */
  method ScaleUp(m: int, k: nat) returns (r: Option<int>)
    ensures r.None? <==> TimesPow10(Magnitude(m), k).None?
    ensures r.Some? ==> r.value == WithSign(m < 0, TimesPow10(Magnitude(m), k).value)
  {
    hide Pow10;
    Pow10Zero();
    var x := m;
    for i := 0 to k
      invariant Magnitude(x) == Magnitude(m) * Pow10(i) && (m < 0 ==> x < 0) && (m >= 0 ==> x >= 0)
      invariant i > 0 ==> Magnitude(m) * Pow10(i - 1) <= TENTH
    {
      if x > TENTH || x < 0 - TENTH {
        StaysOver(Magnitude(m), i, k);
        return None;
      }
      TimesTen(Magnitude(m), i + 1);
      assert -INT64_MAX <= x * 10 <= INT64_MAX;
      x := x * 10;
    }
    return Some(x);
  }

  lemma ScaledFits(m: nat, k: nat)
    requires k > 0 && TimesPow10(m, k).Some?
    ensures TimesPow10(m, k).value <= 10 * TENTH
  {
    hide Pow10;
    TimesTen(m, k);
  }

  method ProcessMantissaDigit(c: char, sc: Scaled) returns (r: Option<Scaled>)
    requires IsDigit(c)
    ensures r == PushDigit(sc, c)
  {
    hide TimesPow10;
    if c == '0' { return Some(Scaled(sc.m, sc.zeros + 1)); }
    var v := ScaleUp(sc.m, sc.zeros + 1);
    if v == None { return None; }
    ScaledFits(sc.m, sc.zeros + 1);
    assert v.value + DigitValue(c) <= INT64_MAX;
    return Some(Scaled(v.value + DigitValue(c), 0));
  }

  // ---------------------------------------------------------------- runs of digits

  lemma DigitsStep(val: string, i: nat)
    requires i < |val|
    ensures Digits(val[i..]) == if IsDigit(val[i]) then [val[i]] + Digits(val[i + 1..]) else ""
  {
    assert val[i..][0] == val[i] && val[i..][1..] == val[i + 1..];
  }

  lemma DigitsEnd(val: string)
    ensures Digits(val[|val|..]) == ""
  {
  }

  lemma PushStep(sc: Scaled, c: char, rest: string)
    requires IsDigit(c) && AllDigits(rest) && AllDigits([c] + rest)
    ensures PushDigits(sc, [c] + rest) ==
            match PushDigit(sc, c) case None => None case Some(next) => PushDigits(next, rest)
  {
    assert ([c] + rest)[1..] == rest;
  }

  lemma OneMore(c: char, rest: string)
    requires IsDigit(c) && AllDigits(rest)
    ensures AllDigits([c] + rest)
  {
  }

  method MantissaDigits(val: string, from: nat, start: Scaled) returns (r: Option<Scaled>, to: nat)
    requires from <= |val|
    ensures r == PushDigits(start, Digits(val[from..]))
    ensures r.Some? ==> to == from + |Digits(val[from..])| && to <= |val| && r.value.zeros <= start.zeros + to - from
  {
    hide Digits, PushDigits, PushDigit;
    var sc := start;
    to := from;
    PushNone(sc);
    while to < |val| && IsDigit(val[to])
      invariant from <= to <= |val|
      invariant PushDigits(start, Digits(val[from..])) == PushDigits(sc, Digits(val[to..]))
      invariant to + |Digits(val[to..])| == from + |Digits(val[from..])|
    {
      DigitsStep(val, to);
      OneMore(val[to], Digits(val[to + 1..]));
      PushStep(sc, val[to], Digits(val[to + 1..]));
      var next := ProcessMantissaDigit(val[to], sc);
      if next == None { return None, to; }
      sc := next.value;
      to := to + 1;
    }
    if to < |val| { DigitsStep(val, to); } else { DigitsEnd(val); }
    PushNone(sc);
    ZerosBound(start, Digits(val[from..]));
    return Some(sc), to;
  }

  lemma PushNone(sc: Scaled)
    ensures PushDigits(sc, "") == Some(sc)
  {
  }

  lemma ExpStep(e: nat, c: char, rest: string)
    requires IsDigit(c) && AllDigits(rest) && AllDigits([c] + rest)
    ensures ExpDigits(e, [c] + rest) == if e > TENTH then None else ExpDigits(e * 10 + DigitValue(c), rest)
  {
    assert ([c] + rest)[1..] == rest;
  }

  lemma ExpNone(e: nat)
    ensures ExpDigits(e, "") == Some(e)
  {
  }

  method ExponentDigits(val: string, from: nat) returns (r: Option<nat>, to: nat)
    requires from <= |val|
    ensures r == ExpDigits(0, Digits(val[from..]))
    ensures r.Some? ==> to == from + |Digits(val[from..])| && to <= |val|
  {
    hide Digits, ExpDigits;
    var exponent: nat := 0;
    to := from;
    while to < |val| && IsDigit(val[to])
      invariant from <= to <= |val|
      invariant ExpDigits(0, Digits(val[from..])) == ExpDigits(exponent, Digits(val[to..]))
      invariant to + |Digits(val[to..])| == from + |Digits(val[from..])|
    {
      DigitsStep(val, to);
      OneMore(val[to], Digits(val[to + 1..]));
      ExpStep(exponent, val[to], Digits(val[to + 1..]));
      if exponent > TENTH { return None, to; }
      assert exponent * 10 + DigitValue(val[to]) <= INT64_MAX;
      exponent := exponent * 10 + DigitValue(val[to]);
      to := to + 1;
    }
    if to < |val| { DigitsStep(val, to); } else { DigitsEnd(val); }
    ExpNone(exponent);
    return Some(exponent), to;
  }

  // ---------------------------------------------------------------- the parts

  /** The digits of the whole part that are processed. */
  function Processed(w: string): string { if w == "0" then "" else w }

  lemma WholeIsDigits(s: string)
    ensures ReadWhole(s).Some? ==> AllDigits(Processed(ReadWhole(s).value)) && |ReadWhole(s).value| <= |s|
  {
  }

  method ScanWhole(val: string, from: nat) returns (r: Option<Scaled>, to: nat)
    requires from <= |val|
    ensures match ReadWhole(val[from..])
            case None => r.None?
            case Some(w) => AllDigits(Processed(w)) && r == PushDigits(Scaled(0, 0), Processed(w))
                            && (r.Some? ==> to == from + |w| && to <= |val|)
    ensures r.Some? ==> from <= to && r.value.zeros <= to - from
  {
    hide Digits, PushDigits;
    WholeIsDigits(val[from..]);
    to := from;
    if from == |val| { return None, to; }
    DigitsStep(val, from);
    assert val[from..][0] == val[from];
    if val[from] == '0' {
      PushNone(Scaled(0, 0));
      return Some(Scaled(0, 0)), from + 1;
    }
    if !IsDigit(val[from]) { return None, to; }
    NotLoneZero(val[from], Digits(val[from + 1..]));
    r, to := MantissaDigits(val, from, Scaled(0, 0));
  }

  lemma NotLoneZero(c: char, rest: string)
    requires c != '0'
    ensures [c] + rest != "0"
  {
    assert ([c] + rest)[0] == c;
  }

  method ScanFrac(val: string, from: nat, start: Scaled) returns (r: Option<Scaled>, to: nat)
    requires from <= |val|
    ensures match ReadFrac(val[from..])
            case Broken => r.None?
            case Absent => r == Some(start) && to == from
            case Present(f) => AllDigits(f) && r == PushDigits(start, f)
                               && (r.Some? ==> to == from + 1 + |f| && to <= |val|)
    ensures r.Some? ==> from <= to && r.value.zeros <= start.zeros + to - from
  {
    hide Digits, PushDigits;
    to := from;
    if !(from < |val| && val[from] == '.') { return Some(start), to; }
    assert val[from..][1..] == val[from + 1..];
    if !(from + 1 < |val| && IsDigit(val[from + 1])) {
      if from + 1 < |val| { DigitsStep(val, from + 1); } else { DigitsEnd(val); }
      return None, to;
    }
    DigitsStep(val, from + 1);
    r, to := MantissaDigits(val, from + 1, start);
  }

  /** The signed exponent of an exponent part. */
  function SignedExp(e: Exponent): Option<int>
    requires AllDigits(e.digits)
  {
    match ExpDigits(0, e.digits)
    case None => None
    case Some(v) => Some(if e.sign == "-" then 0 - v else v)
  }

  method ScanSign(val: string, from: nat) returns (negative: bool, to: nat)
    requires from <= |val|
    ensures to == from + |ReadSign(val[from..])| && to <= |val|
    ensures negative <==> ReadSign(val[from..]) == "-"
    ensures After(val[from..], ReadSign(val[from..])) == val[to..]
  {
    negative, to := false, from;
    if from < |val| && val[from] == '+' {
      to := from + 1;
    } else if from < |val| && val[from] == '-' {
      negative := true;
      to := from + 1;
    }
  }

  method ScanExp(val: string, from: nat) returns (r: Option<int>, to: nat)
    requires from <= |val|
    ensures match ReadExp(val[from..])
            case Broken => r.None?
            case Absent => r == Some(0) && to == from
            case Present(e) => AllDigits(e.digits) && r == SignedExp(e)
                               && (r.Some? ==> to == from + |RenderExp(Some(e))| && to <= |val|)
    ensures r.Some? ==> 0 - LIMIT <= r.value <= LIMIT
  {
    hide Digits, ExpDigits, ReadSign, After, ValueFrom;
    to := from;
    if !(from < |val| && (val[from] == 'e' || val[from] == 'E')) { return Some(0), to; }
    assert val[from..][1..] == val[from + 1..];
    var negative, p := ScanSign(val, from + 1);
    if !(p < |val| && IsDigit(val[p])) {
      if p < |val| { DigitsStep(val, p); } else { DigitsEnd(val); }
      return None, to;
    }
    DigitsStep(val, p);
    var e, q := ExponentDigits(val, p);
    ExpDigitsValue(0, Digits(val[p..]));
    if e == None { return None, q; }
    return Some(if negative then 0 - e.value else e.value), q;
  }

  // ---------------------------------------------------------------- the parser

  lemma {:induction false} PushConcat(sc: Scaled, a: string, b: string)
    requires AllDigits(a) && AllDigits(b) && AllDigits(a + b)
    ensures PushDigits(sc, a + b) == match PushDigits(sc, a) case None => None case Some(next) => PushDigits(next, b)
    decreases |a|
  {
    hide PushDigit;
    if a == "" {
      assert a + b == b;
    } else {
      assert (a + b)[1..] == a[1..] + b;
      var next := PushDigit(sc, a[0]);
      if next.Some? { PushConcat(next.value, a[1..], b); }
    }
  }

  lemma Joined(a: string, b: string)
    requires AllDigits(a) && AllDigits(b)
    ensures AllDigits(a + b)
  {
  }

  /** The processed digits of the whole number, in the two runs the parser meets them. */
  lemma TwoRuns(n: Number)
    requires WellFormed(n)
    ensures AllDigits(Processed(n.whole)) && AllDigits(FracDigits(n)) && AllDigits(Significant(n))
    ensures PushDigits(Scaled(0, 0), Significant(n)) ==
            match PushDigits(Scaled(0, 0), Processed(n.whole))
            case None => None
            case Some(sc) => PushDigits(sc, FracDigits(n))
  {
    hide PushDigits;
    Joined(Processed(n.whole), FracDigits(n));
    assert Significant(n) == Processed(n.whole) + FracDigits(n);
    PushConcat(Scaled(0, 0), Processed(n.whole), FracDigits(n));
  }

  lemma ExponentIs(n: Number)
    requires WellFormed(n)
    ensures ReadExponent(n) == if n.exp.None? then Some(0) else SignedExp(n.exp.value)
  {
    hide ExpDigits;
  }

  /** The last steps, on the number already scanned. */
  method Conclude(negative: bool, sc: Scaled, exponent: int) returns (r: Option<int>)
    ensures r == Finish(negative, sc.m, exponent)
  {
    hide TimesPow10;
    if exponent < 0 { return None; }
    if exponent >= 18 { return None; }
    var v := ScaleUp(WithSign(negative, sc.m), exponent);
    ZeroTimes(exponent);
    if v == None { return None; }
    if v.value > LIMIT || v.value < 0 - LIMIT { return None; }
    return v;
  }

  lemma ZeroTimes(k: nat)
    ensures TimesPow10(0, k) == Some(0)
  {
  }

  /** A part that is missing adds no digits and no exponent. */
  function PushPart(sc: Scaled, f: Part<string>): Option<Scaled>
    requires f.Present? ==> AllDigits(f.value)
  {
    if f.Present? then PushDigits(sc, f.value) else Some(sc)
  }

  function ExpPart(e: Part<Exponent>): Option<int>
    requires e.Present? ==> AllDigits(e.value.digits)
  {
    if e.Present? then SignedExp(e.value) else Some(0)
  }

  function Length(f: Part<string>): nat { if f.Present? then |f.value| else 0 }

  lemma PartsAreDigits(s: string)
    ensures ReadFrac(s).Present? ==> AllDigits(ReadFrac(s).value)
    ensures ReadExp(s).Present? ==> AllDigits(ReadExp(s).value.digits)
  {
    hide Digits;
  }

  /** The exponent part and the end of the string, after the mantissa. */
  function FromExp(s: string, negative: bool, sc: Scaled, pointOfs: nat, decimals: int): Option<int>
  {
    PartsAreDigits(s);
    var e := ReadExp(s);
    if e.Broken? then None
    else
      match ExpPart(e)
      case None => None
      case Some(x) =>
        if After(s, RenderExp(ToOption(e))) != "" then None
        else Finish(negative, sc.m, x - pointOfs + sc.zeros + decimals)
  }

  function FromFrac(s: string, negative: bool, sc: Scaled, decimals: int): Option<int>
  {
    PartsAreDigits(s);
    var f := ReadFrac(s);
    if f.Broken? then None
    else
      match PushPart(sc, f)
      case None => None
      case Some(next) => FromExp(After(s, RenderFrac(ToOption(f))), negative, next, Length(f), decimals)
  }

  function FromWhole(s: string, negative: bool, decimals: int): Option<int>
  {
    WholeIsDigits(s);
    match ReadWhole(s)
    case None => None
    case Some(w) =>
      match PushDigits(Scaled(0, 0), Processed(w))
      case None => None
      case Some(sc) => FromFrac(After(s, w), negative, sc, decimals)
  }

  /** Evaluating part by part, as the scan goes, is evaluating the parsed number. */
  lemma PartByPart(n: Number, decimals: int)
    requires WellFormed(n)
    ensures var w := PushDigits(Scaled(0, 0), Processed(n.whole));
            Evaluate(n, decimals) ==
            match w
            case None => None
            case Some(sc) =>
              match PushDigits(sc, FracDigits(n))
              case None => None
              case Some(next) =>
                match (if n.exp.None? then Some(0) else SignedExp(n.exp.value))
                case None => None
                case Some(x) => Finish(n.negative, next.m, x - FracLength(n) + next.zeros + decimals)
  {
    hide PushDigits, Finish, SignedExp, ReadExponent, Processed;
    TwoRuns(n);
    ExponentIs(n);
  }

  lemma FromWholeIsParse(val: string, decimals: int)
    ensures var negative := StartsWith(val, '-');
            FromWhole(if negative then val[1..] else val, negative, decimals) == Parse(val, decimals)
  {
    hide ReadWhole, ReadFrac, ReadExp, RenderFrac, RenderExp, PushDigits, Finish, SignedExp, After, Evaluate,
      Processed, WellFormed, Render;
    if ParseNumber(val).Some? {
      ParsedIsWellFormed(val);
      PartByPart(ParseNumber(val).value, decimals);
    }
    NothingPushed();
  }

  lemma NothingPushed()
    ensures forall sc: Scaled :: PushDigits(sc, "") == Some(sc)
  {
  }

  /** From the exponent on: the end of the string, and the fixed-point value. */
  method ParseFromExp(val: string, q: nat, negative: bool, sc: Scaled, pointOfs: nat, decimals: int)
    returns (r: Option<int>)
    requires q <= |val| <= INT_MAX && 0 - INT_MAX <= decimals <= INT_MAX
    requires sc.zeros <= |val| && pointOfs <= |val|
    ensures r == FromExp(val[q..], negative, sc, pointOfs, decimals)
  {
    hide ReadExp, RenderExp, SignedExp, Finish, After;
    PartsAt(val, q);
    NoExpLength();
    var x, end := ScanExp(val, q);
    if x == None { return None; }
    if end != |val| { return None; }
    var exponent := x.value;
    assert -INT64_MAX <= exponent - pointOfs <= INT64_MAX;
    assert -INT64_MAX <= exponent - pointOfs + sc.zeros <= INT64_MAX;
    exponent := exponent - pointOfs + sc.zeros;
    assert -INT64_MAX <= exponent + decimals <= INT64_MAX;
    exponent := exponent + decimals;
    r := Conclude(negative, sc, exponent);
  }

  lemma NoExpLength()
    ensures RenderExp(None) == ""
  {
  }

  method ParseFromFrac(val: string, p: nat, negative: bool, sc: Scaled, decimals: int) returns (r: Option<int>)
    requires p <= |val| <= INT_MAX && 0 - INT_MAX <= decimals <= INT_MAX && sc.zeros <= p
    ensures r == FromFrac(val[p..], negative, sc, decimals)
  {
    hide ReadFrac, PushDigits, FromExp, After;
    PartsAt(val, p);
    var next, q := ScanFrac(val, p, sc);
    if next == None { return None; }
    var pointOfs := if q == p then 0 else q - p - 1;
    r := ParseFromExp(val, q, negative, next.value, pointOfs, decimals);
  }

  method ParseFromWhole(val: string, ptr: nat, negative: bool, decimals: int) returns (r: Option<int>)
    requires ptr <= |val| <= INT_MAX && 0 - INT_MAX <= decimals <= INT_MAX
    ensures r == FromWhole(val[ptr..], negative, decimals)
  {
    hide ReadWhole, ReadFrac, ReadExp, PushDigits, FromFrac, After, Processed;
    PartsAt(val, ptr);
    var sc, p := ScanWhole(val, ptr);
    if sc == None { return None; }
    r := ParseFromFrac(val, p, negative, sc.value, decimals);
  }

  method ParseFixedPoint(val: string, decimals: int) returns (r: Option<int>)
    requires |val| <= INT_MAX && 0 - INT_MAX <= decimals <= INT_MAX
    ensures r == Parse(val, decimals)
  {
    hide FromWhole, Parse;
    FromWholeIsParse(val, decimals);
    var ptr := 0;
    var negative := false;
    if ptr < |val| && val[ptr] == '-' {
      negative := true;
      ptr := ptr + 1;
    }
    assert val[0..] == val;
    r := ParseFromWhole(val, ptr, negative, decimals);
  }

  /** Where each part ends, as a position in the whole string. */
  lemma PartsAt(val: string, i: nat)
    requires i <= |val|
    ensures ReadWhole(val[i..]).Some? ==>
              var w := ReadWhole(val[i..]).value;
              i + |w| <= |val| && After(val[i..], w) == val[i + |w|..]
    ensures !ReadFrac(val[i..]).Broken? ==>
              var n := |RenderFrac(ToOption(ReadFrac(val[i..])))|;
              i + n <= |val| && After(val[i..], RenderFrac(ToOption(ReadFrac(val[i..])))) == val[i + n..]
    ensures !ReadExp(val[i..]).Broken? ==>
              var n := |RenderExp(ToOption(ReadExp(val[i..])))|;
              i + n <= |val| && (After(val[i..], RenderExp(ToOption(ReadExp(val[i..])))) == "" <==> i + n == |val|)
  {
    hide ReadWhole, ReadFrac, ReadExp, RenderFrac, RenderExp;
    if !ReadFrac(val[i..]).Broken? { FracSound(val[i..]); }
    if !ReadExp(val[i..]).Broken? { ExpSound(val[i..]); }
  }
}
