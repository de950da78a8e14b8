/** The wallet's own UTF-8 converters and validator. */
module Utf8 {

  import opened Prelude

  // ---------------------------------------------------------------- writing

  /** A number without its `k` lowest six-bit digits. */
  function Above(wc: nat, k: nat): nat { if k == 0 then wc else Above(wc / 0x40, k - 1) }

  function Digit(wc: nat, k: nat): (d: nat)
    ensures d < 0x40
  {
    Above(wc, k) % 0x40
  }

  lemma {:induction false} AboveStep(wc: nat, k: nat)
    ensures Above(wc, k) == Above(wc, k + 1) * 0x40 + Digit(wc, k)
    decreases k
  {
    if k == 0 {
    } else {
      AboveStep(wc / 0x40, k - 1);
    }
  }

  /** A number from its six-bit digits. */
  lemma Digits(wc: nat)
    ensures wc == Above(wc, 1) * 0x40 + Digit(wc, 0)
    ensures Above(wc, 1) == Above(wc, 2) * 0x40 + Digit(wc, 1)
    ensures Above(wc, 2) == Above(wc, 3) * 0x40 + Digit(wc, 2)
    ensures Above(wc, 3) == Above(wc, 4) * 0x40 + Digit(wc, 3)
    ensures Above(wc, 4) == Above(wc, 5) * 0x40 + Digit(wc, 4)
  {
    hide Digit;
    AboveStep(wc, 0);
    AboveStep(wc, 1);
    AboveStep(wc, 2);
    AboveStep(wc, 3);
    AboveStep(wc, 4);
  }

  /** The number of bytes written. */
  function Size(wc: nat): nat
  {
    if wc <= 0x7f then 1 else if wc <= 0x7ff then 2 else if wc <= 0xffff then 3
    else if wc <= 0x1f_ffff then 4 else if wc <= 0x3ff_ffff then 5 else 6
  }

  /** The marker of a lead byte for that many bytes. */
  function Marker(n: nat): nat
  {
    if n <= 1 then 0 else if n == 2 then 0xc0 else if n == 3 then 0xe0
    else if n == 4 then 0xf0 else if n == 5 then 0xf8 else 0xfc
  }

  /** The continuation bytes for the `k` lowest digits. */
  function Trail(wc: nat, k: nat): (r: seq<byte>)
    ensures |r| == k
  {
    if k == 0 then [] else [0x80 + Digit(wc, k - 1)] + Trail(wc, k - 1)
  }

  lemma LeadFits(wc: nat)
    requires wc <= 0x7fff_ffff
    ensures var n := Size(wc);
            Above(wc, n - 1) < if n == 1 then 0x80 else if n == 2 then 0x20 else if n == 3 then 0x10
                               else if n == 4 then 8 else if n == 5 then 4 else 2
  {
    hide Digit, Above;
    Digits(wc);
    AboveNone(wc);
  }

  lemma AboveNone(wc: nat)
    ensures Above(wc, 0) == wc
  {
  }

  /** The bytes written for one wide character; negative ones write nothing. */
  function EncodeOne(wc: int): seq<byte>
    requires wc <= 0x7fff_ffff
  {
    if wc < 0 then []
    else
      var n := Size(wc);
      LeadFits(wc);
      [Marker(n) + Above(wc, n - 1)] + Trail(wc, n - 1)
  }

  predicate WideString(ws: seq<int>) { forall i :: 0 <= i < |ws| ==> ws[i] <= 0x7fff_ffff }

  function Encode(ws: seq<int>): seq<byte>
    requires WideString(ws)
  {
    if ws == [] then [] else EncodeOne(ws[0]) + Encode(ws[1..])
  }

  method UnicodeToUTF8(ws: seq<int>) returns (s: seq<byte>)
    requires WideString(ws)
    ensures s == Encode(ws)
  {
    s := [];
    var i := 0;
    assert ws[0..] == ws;
    while i < |ws|
      invariant i <= |ws| && s + Encode(ws[i..]) == Encode(ws)
    {
      hide EncodeOne;
      assert ws[i..][0] == ws[i] && ws[i..][1..] == ws[i + 1..];
      SeqAssoc(s, EncodeOne(ws[i]), Encode(ws[i + 1..]));
      s := s + EncodeOne(ws[i]);
      i := i + 1;
    }
  }

  // ---------------------------------------------------------------- reading

  /** A wide character read and the number of bytes stepped over. */
  datatype Read = Read(wc: int, size: nat)

  /** How many bytes a lead byte announces; zero for the ones no branch covers. */
  function LeadSize(c: byte): nat
  {
    if c < 0x80 then 1
    else if 0xc0 <= c < 0xe0 then 2
    else if 0xe0 <= c < 0xf0 then 3
    else if 0xf0 <= c < 0xf8 then 4
    else if 0xf8 <= c < 0xfc then 5
    else if 0xfc <= c < 0xfe then 6
    else 0
  }

  /** The byte at `i`; one past the end there is a terminating zero. */
  function At(s: seq<byte>, i: nat): byte
    requires i <= |s|
  {
    if i < |s| then s[i] else 0
  }

  function Low6(c: byte): (d: nat)
    ensures d < 0x40
  {
    c % 0x40
  }

  lemma Low6Of(d: nat)
    requires d < 0x40
    ensures Low6(0x80 + d) == d
  {
  }

  lemma Low6Back(c: byte)
    requires 0x80 <= c < 0xc0
    ensures c == 0x80 + Low6(c)
  {
  }

  /** One turn of the reading loop; `None` where it would not advance or would read outside the string. */
  function DecodeOne(s: seq<byte>, i: nat): (r: Option<Read>)
    requires i < |s|
    ensures r.Some? ==> r.value.size > 0
  {
    var c := s[i];
    var n := LeadSize(c);
    if n == 0 || (n <= 4 && i + n - 1 > |s|) then None
    else if n == 1 then Some(Read(c, 1))
    else if n == 2 then Some(Read((c - 0xc0) * 0x40 + Low6(At(s, i + 1)), 2))
    else if n == 3 then
      Some(Read((c - 0xe0) * 0x1000 + Low6(At(s, i + 1)) * 0x40 + Low6(At(s, i + 2)), 3))
    else if n == 4 then
      Some(Read((c - 0xf0) * 0x4_0000 + Low6(At(s, i + 1)) * 0x1000 + Low6(At(s, i + 2)) * 0x40
                + Low6(At(s, i + 3)), 4))
    else Some(Read(FromLead(c), n))
  }

  /** What the five- and six-byte branches compute: the lead byte stands in for every byte. */
  function FromLead(c: byte): nat
    requires 0xf8 <= c < 0xfe
  {
    var x := c - 0xc0;
    if c < 0xfc then (c - 0xf8) * 0x100_0000 + x * 0x4_0000 + x * 0x1000 + x * 0x40 + x
    else (c - 0xfc) * 0x4000_0000 + x * 0x100_0000 + x * 0x4_0000 + x * 0x1000 + x * 0x40 + x
  }

  function Decode(s: seq<byte>, i: nat): Option<seq<int>>
    decreases |s| - i
  {
    if i >= |s| then Some([])
    else
      match DecodeOne(s, i)
      case None => None
      case Some(r) =>
        match Decode(s, i + r.size)
        case None => None
        case Some(rest) => Some([r.wc] + rest)
  }

  /** The reading loop; `None` where the source's loop has no defined result. */
  method UTF8toUnicode(s: seq<byte>) returns (r: Option<seq<int>>)
    ensures r == Decode(s, 0)
  {
    hide DecodeOne;
    var ws: seq<int> := [];
    var i := 0;
    PrependNone(Decode(s, 0));
    while i < |s|
      invariant Decode(s, 0) == Prepend(ws, Decode(s, i))
      decreases |s| - i
    {
      var next := DecodeOne(s, i);
      if next == None { return None; }
      PrependOne(ws, next.value.wc, Decode(s, i + next.value.size));
      ws := ws + [next.value.wc];
      i := i + next.value.size;
    }
    assert ws + [] == ws;
    return Some(ws);
  }

  function Prepend(ws: seq<int>, r: Option<seq<int>>): Option<seq<int>>
  {
    if r.None? then None else Some(ws + r.value)
  }

  lemma PrependNone(r: Option<seq<int>>)
    ensures Prepend([], r) == r
  {
    if r.Some? { assert [] + r.value == r.value; }
  }

  lemma PrependOne(ws: seq<int>, wc: int, r: Option<seq<int>>)
    ensures r.Some? ==> ws + ([wc] + r.value) == (ws + [wc]) + r.value
  {
  }

  // ---------------------------------------------------------------- writing, then reading

  /** What is read back for a wide character that was written. */
  function ReadBack(wc: nat): int
    requires wc <= 0x7fff_ffff
  {
    LeadFits(wc);
    if wc <= 0x1f_ffff then wc
    else if wc <= 0x3ff_ffff then FromLead(0xf8 + Above(wc, 4))
    else FromLead(0xfc + Above(wc, 5))
  }

  /** Where the bytes of an encoded character stand. */
  lemma EncodedBytes(before: seq<byte>, wc: nat, after: seq<byte>)
    requires wc <= 0x7fff_ffff
    ensures var s, i, n := before + EncodeOne(wc) + after, |before|, Size(wc);
            && |EncodeOne(wc)| == n && |s| >= i + n && s[i] == Marker(n) + Above(wc, n - 1)
            && (n >= 2 ==> s[i + n - 1] == 0x80 + Digit(wc, 0))
            && (n >= 3 ==> s[i + n - 2] == 0x80 + Digit(wc, 1))
            && (n >= 4 ==> s[i + n - 3] == 0x80 + Digit(wc, 2))
  {
    hide Above, Digit, Trail, Marker, Size;
    var e, n := EncodeOne(wc), Size(wc);
    SizeRange(wc);
    LeadFits(wc);
    Placed(before, e, after);
    TrailAt(wc, n - 1);
    assert n >= 2 ==> e[n - 1] == Trail(wc, n - 1)[n - 2];
    assert n >= 3 ==> e[n - 2] == Trail(wc, n - 1)[n - 3];
    assert n >= 4 ==> e[n - 3] == Trail(wc, n - 1)[n - 4];
  }

  lemma SizeRange(wc: nat)
    ensures 1 <= Size(wc) <= 6
  {
  }

  /** One or two bytes. */
  lemma AssembleShort(s: seq<byte>, i: nat, wc: nat)
    requires wc <= 0x7ff && i + Size(wc) <= |s| && s[i] == Marker(Size(wc)) + Above(wc, Size(wc) - 1)
    requires Size(wc) == 2 ==> s[i + 1] == 0x80 + Digit(wc, 0)
    ensures DecodeOne(s, i) == Some(Read(wc, Size(wc)))
  {
    hide Above, Digit, Low6;
    Low6Of(Digit(wc, 0));
    LeadFits(wc);
    AboveNone(wc);
    Digits(wc);
  }

  lemma AssembleThree(s: seq<byte>, i: nat, wc: nat)
    requires Size(wc) == 3 && i + 3 <= |s| && s[i] == 0xe0 + Above(wc, 2)
    requires s[i + 1] == 0x80 + Digit(wc, 1) && s[i + 2] == 0x80 + Digit(wc, 0)
    ensures DecodeOne(s, i) == Some(Read(wc, 3))
  {
    hide Above, Digit, Low6;
    Low6Of(Digit(wc, 0));
    Low6Of(Digit(wc, 1));
    LeadFits(wc);
    Digits(wc);
  }

  lemma AssembleFour(s: seq<byte>, i: nat, wc: nat)
    requires Size(wc) == 4 && i + 4 <= |s| && s[i] == 0xf0 + Above(wc, 3)
    requires s[i + 1] == 0x80 + Digit(wc, 2) && s[i + 2] == 0x80 + Digit(wc, 1) && s[i + 3] == 0x80 + Digit(wc, 0)
    ensures DecodeOne(s, i) == Some(Read(wc, 4))
  {
    hide Above, Digit, Low6;
    Low6Of(Digit(wc, 0));
    Low6Of(Digit(wc, 1));
    Low6Of(Digit(wc, 2));
    LeadFits(wc);
    Digits(wc);
  }

  lemma AssembleLong(s: seq<byte>, i: nat, wc: nat)
    requires 5 <= Size(wc) && wc <= 0x7fff_ffff && i < |s| && s[i] == Marker(Size(wc)) + Above(wc, Size(wc) - 1)
    ensures DecodeOne(s, i) == Some(Read(ReadBack(wc), Size(wc)))
  {
    hide Above, FromLead;
    LeadFits(wc);
  }

  lemma DecodeEncoded(before: seq<byte>, wc: nat, after: seq<byte>)
    requires wc <= 0x7fff_ffff
    ensures EncodeOne(wc) != []
    ensures DecodeOne(before + EncodeOne(wc) + after, |before|) == Some(Read(ReadBack(wc), |EncodeOne(wc)|))
  {
    hide FromLead, Above, Digit, EncodeOne, DecodeOne;
    var s, i := before + EncodeOne(wc) + after, |before|;
    EncodedBytes(before, wc, after);
    if Size(wc) <= 2 { AssembleShort(s, i, wc); }
    else if Size(wc) == 3 { AssembleThree(s, i, wc); }
    else if Size(wc) == 4 { AssembleFour(s, i, wc); }
    else { AssembleLong(s, i, wc); }
  }

  lemma Placed(before: seq<byte>, e: seq<byte>, after: seq<byte>)
    ensures forall k :: 0 <= k < |e| ==> (before + e + after)[|before| + k] == e[k]
    ensures e != [] ==> (before + e + after)[|before|] == e[0]
  {
  }

  lemma {:induction false} TrailAt(wc: nat, n: nat)
    ensures forall k :: 0 <= k < n ==> Trail(wc, n)[k] == 0x80 + Digit(wc, n - 1 - k)
  {
    hide Digit;
    if n == 0 {
    } else {
      TrailAt(wc, n - 1);
    }
  }

  /** The wide characters that survive: four-byte ones and below, and six accidental ones. */
  predicate Survives(wc: int)
  {
    || 0 <= wc <= 0x1f_ffff
    || wc == 0xe3_8e38 || wc == 0x1e7_9e79 || wc == 0x2eb_aeba || wc == 0x3ef_befb
    || wc == 0x3cf3_cf3c || wc == 0x7df7_df7d
  }

  lemma SurvivesIff(wc: nat)
    requires wc <= 0x7fff_ffff
    ensures ReadBack(wc) == wc <==> Survives(wc)
  {
    hide Above, Digit;
    LeadFits(wc);
    Digits(wc);
    LeadOf(0xe3_8e38, 4, 0);
    LeadOf(0x1e7_9e79, 4, 1);
    LeadOf(0x2eb_aeba, 4, 2);
    LeadOf(0x3ef_befb, 4, 3);
    LeadOf(0x3cf3_cf3c, 5, 0);
    LeadOf(0x7df7_df7d, 5, 1);
  }

  lemma LeadOf(wc: nat, k: nat, top: nat)
    requires (k == 4 && wc / 0x100_0000 == top) || (k == 5 && wc / 0x4000_0000 == top)
    ensures Above(wc, k) == top
  {
    hide Above, Digit;
    Digits(wc);
  }

  /** Reading back a written string, in terms of each character. */
  function ReadBackAll(ws: seq<int>): seq<int>
    requires WideString(ws)
  {
    if ws == [] then []
    else if ws[0] < 0 then ReadBackAll(ws[1..])
    else [ReadBack(ws[0])] + ReadBackAll(ws[1..])
  }

  lemma {:induction false} DecodeEncodedAll(before: seq<byte>, ws: seq<int>)
    requires WideString(ws)
    ensures Decode(before + Encode(ws), |before|) == Some(ReadBackAll(ws))
    decreases |ws|
  {
    hide EncodeOne, DecodeOne, ReadBack;
    if ws == [] {
      assert before + [] == before;
    } else {
      var e, rest := EncodeOne(ws[0]), Encode(ws[1..]);
      var s := before + Encode(ws);
      assert s == before + e + rest;
      DecodeEncodedAll(before + e, ws[1..]);
      if ws[0] < 0 {
        NegativeWritesNothing(ws[0]);
        assert before + e == before;
      } else {
        DecodeEncoded(before, ws[0], rest);
      }
    }
  }

  lemma NegativeWritesNothing(wc: int)
    requires wc < 0
    ensures EncodeOne(wc) == []
  {
  }

  lemma {:induction false} ReadBackAllIff(ws: seq<int>)
    requires WideString(ws)
    ensures |ReadBackAll(ws)| <= |ws|
    ensures ReadBackAll(ws) == ws <==> forall i :: 0 <= i < |ws| ==> Survives(ws[i])
  {
    hide ReadBack, Survives;
    if ws == [] {
    } else {
      var rest := ws[1..];
      ReadBackAllIff(rest);
      if ws[0] < 0 {
        NegativeDoesNotSurvive(ws[0]);
        assert |ReadBackAll(ws)| < |ws|;
      } else {
        SurvivesIff(ws[0]);
        assert ws == [ws[0]] + rest;
        assert ReadBackAll(ws) == [ReadBack(ws[0])] + ReadBackAll(rest);
        if ReadBackAll(ws) == ws {
          assert ReadBackAll(ws)[0] == ws[0] && ReadBackAll(ws)[1..] == rest;
        }
      }
    }
  }

  lemma NegativeDoesNotSurvive(wc: int)
    requires wc < 0
    ensures !Survives(wc)
  {
  }

  /** Writing and reading back is the identity exactly on strings of surviving characters. */
  lemma WriteThenRead(ws: seq<int>)
    requires WideString(ws)
    ensures Decode(Encode(ws), 0) == Some(ws) <==> forall i :: 0 <= i < |ws| ==> Survives(ws[i])
  {
    hide Decode, Encode, Survives, ReadBackAll;
    DecodeEncodedAll([], ws);
    assert [] + Encode(ws) == Encode(ws);
    ReadBackAllIff(ws);
  }

  // ---------------------------------------------------------------- validation

  /** Unicode scalar values other than zero (section 3 of RFC 3629). */
  predicate Scalar(cp: int) { 0 < cp <= 0x10_ffff && !(0xd800 <= cp <= 0xdfff) }

  /** The lead byte's own bits. */
  function LeadBits(c: byte): nat
    requires LeadSize(c) > 0
  {
    c - Marker(LeadSize(c))
  }

  predicate Continues(s: seq<byte>, i: nat) { i < |s| && 0x80 <= s[i] < 0xc0 }

  /** The code point after `k` more continuation bytes, or `None` when one is missing. */
  function Gather(s: seq<byte>, i: nat, cp: nat, k: nat): Option<nat>
    decreases k
  {
    if k == 0 then Some(cp)
    else if !Continues(s, i) then None
    else Gather(s, i + 1, cp * 0x40 + Low6(s[i]), k - 1)
  }

  predicate Acceptable(cp: nat, num: nat)
  {
    !(|| cp > 0x10_ffff
      || 0xd800 <= cp <= 0xdfff
      || (cp <= 0x7f && num != 1)
      || (0x80 <= cp <= 0x7ff && num != 2)
      || (0x800 <= cp <= 0xffff && num != 3)
      || (0x1_0000 <= cp <= 0x1f_ffff && num != 4))
  }

  /** The validator on a string without zero bytes, from position `i`. */
  predicate ValidFrom(s: seq<byte>, i: nat)
    decreases |s| - i
  {
    i < |s| ==>
      var num := LeadSize(s[i]);
      && 1 <= num <= 4
      && var cp := Gather(s, i + 1, LeadBits(s[i]), num - 1);
         cp.Some? && Acceptable(cp.value, num) && ValidFrom(s, i + num)
  }

  /** What a C string holds: everything before the first zero byte. */
  function CString(s: seq<byte>): (r: seq<byte>)
    ensures 0 !in r && r <= s
  {
    if s == [] || s[0] == 0 then [] else [s[0]] + CString(s[1..])
  }

  /** The validator's loops, over the bytes up to the terminating zero. */
  method IsValidUtf8(s: seq<byte>) returns (b: bool)
    ensures b == ValidFrom(CString(s), 0)
  {
    hide CString, Low6, LeadBits, Acceptable;
    var text := CString(s);
    var i := 0;
    while At(text, i) != 0
      invariant i <= |text| && ValidFrom(text, i) == ValidFrom(text, 0)
      decreases |text| - i
    {
      var num := LeadSize(text[i]);
      if num == 0 || num > 4 { return false; }
      var cp: nat := LeadBits(text[i]);
      var lead := i;
      i := i + 1;
      var k := 1;
      while k < num
        invariant 1 <= k <= num && i == lead + k && i <= |text|
        invariant Gather(text, i, cp, num - k) == Gather(text, lead + 1, LeadBits(text[lead]), num - 1)
      {
        if !(0x80 <= At(text, i) < 0xc0) { return false; }
        cp := cp * 0x40 + Low6(text[i]);
        i := i + 1;
        k := k + 1;
      }
      if !Acceptable(cp, num) { return false; }
    }
    return true;
  }

  /** Gathering the trail of a number gives the number. */
  lemma {:induction false} GatherTrail(s: seq<byte>, i: nat, wc: nat, k: nat)
    requires i + k <= |s| && s[i..i + k] == Trail(wc, k)
    ensures Gather(s, i, Above(wc, k), k) == Some(wc)
    decreases k
  {
    hide Digit, Above, Low6;
    AboveNone(wc);
    if k == 0 {
    } else {
      AboveStep(wc, k - 1);
      assert s[i] == s[i..i + k][0] == 0x80 + Digit(wc, k - 1);
      Low6Of(Digit(wc, k - 1));
      assert s[i + 1..i + k] == s[i..i + k][1..] == Trail(wc, k - 1);
      GatherTrail(s, i + 1, wc, k - 1);
    }
  }

  /** And only its trail does. */
  lemma {:induction false} GatheredIsTrail(s: seq<byte>, i: nat, c: nat, k: nat)
    requires Gather(s, i, c, k).Some?
    ensures i + k <= |s| || k == 0
    ensures var cp := Gather(s, i, c, k).value;
            k > 0 ==> Above(cp, k) == c && s[i..i + k] == Trail(cp, k)
    ensures k == 0 ==> Above(Gather(s, i, c, k).value, 0) == c
    decreases k
  {
    hide Digit, Above, Low6;
    AboveNone(c);
    if k == 0 {
    } else {
      var cp := Gather(s, i, c, k).value;
      GatheredIsTrail(s, i + 1, c * 0x40 + Low6(s[i]), k - 1);
      AboveStep(cp, k - 1);
      SameDigit(Above(cp, k), Digit(cp, k - 1), c, Low6(s[i]));
      Low6Back(s[i]);
      assert s[i..i + k] == [s[i]] + s[i + 1..i + k];
    }
  }

  lemma SameDigit(a: nat, d: nat, b: nat, e: nat)
    requires d < 0x40 && e < 0x40 && a * 0x40 + d == b * 0x40 + e
    ensures a == b && d == e
  {
  }

  /** Gathering from the lead byte of an encoded character gives the character. */
  lemma EncodedGathers(before: seq<byte>, wc: nat, after: seq<byte>)
    requires wc <= 0x7fff_ffff
    ensures var s := before + EncodeOne(wc) + after;
            var num := Size(wc);
            && |before| < |s| && num == |EncodeOne(wc)| == LeadSize(s[|before|])
            && Gather(s, |before| + 1, LeadBits(s[|before|]), num - 1) == Some(wc)
  {
    hide Above, Trail, Gather;
    var e, n := EncodeOne(wc), Size(wc);
    var s := before + e + after;
    LeadFits(wc);
    assert s[|before|] == e[0];
    assert s[|before| + 1..|before| + 1 + (n - 1)] == Trail(wc, n - 1);
    GatherTrail(s, |before| + 1, wc, n - 1);
  }

  lemma LeadByte(c: byte)
    requires LeadSize(c) > 0
    ensures Marker(LeadSize(c)) + LeadBits(c) == c
  {
  }

  /** A character gathered in its shortest form is an encoded character. */
  lemma GatheredIsEncoded(s: seq<byte>, i: nat)
    requires i < |s| && LeadSize(s[i]) > 0
    requires var cp := Gather(s, i + 1, LeadBits(s[i]), LeadSize(s[i]) - 1);
             cp.Some? && cp.value <= 0x7fff_ffff && Size(cp.value) == LeadSize(s[i])
    ensures var cp := Gather(s, i + 1, LeadBits(s[i]), LeadSize(s[i]) - 1).value;
            && i + LeadSize(s[i]) <= |s| && |EncodeOne(cp)| == LeadSize(s[i])
            && s[i..i + LeadSize(s[i])] == EncodeOne(cp)
  {
    hide Above, Trail, Gather, LeadSize, LeadBits, Marker, Size, EncodeOne;
    var n := LeadSize(s[i]);
    var cp := Gather(s, i + 1, LeadBits(s[i]), n - 1).value;
    LeadByte(s[i]);
    GatheredIsTrail(s, i + 1, LeadBits(s[i]), n - 1);
    TrailNone(cp);
    EncodedParts(cp, s[i]);
    assert s[i..i + n] == [s[i]] + s[i + 1..i + n];
  }

  lemma EncodedParts(wc: nat, c: byte)
    requires wc <= 0x7fff_ffff && Size(wc) >= 1 && c == Marker(Size(wc)) + Above(wc, Size(wc) - 1)
    ensures EncodeOne(wc) == [c] + Trail(wc, Size(wc) - 1)
  {
    hide Above, Trail, Marker, Size;
  }

  /** A character the validator lets through is the encoding of a scalar value. */
  lemma AcceptedIsEncoded(s: seq<byte>, i: nat)
    requires i < |s| && s[i] != 0 && ValidFrom(s, i)
    ensures var cp := Gather(s, i + 1, LeadBits(s[i]), LeadSize(s[i]) - 1).value;
            && Scalar(cp) && |EncodeOne(cp)| == LeadSize(s[i]) && i + LeadSize(s[i]) <= |s|
            && s[i..i + LeadSize(s[i])] == EncodeOne(cp)
  {
    hide Gather, LeadSize, LeadBits, Acceptable, Size, EncodeOne;
    var n := LeadSize(s[i]);
    var cp := Gather(s, i + 1, LeadBits(s[i]), n - 1).value;
    AcceptableSize(cp, n);
    GatheredIsEncoded(s, i);
    SingleByte(s[i]);
    if n == 1 { NothingGathered(s, i + 1, LeadBits(s[i])); }
  }

  lemma NothingGathered(s: seq<byte>, i: nat, cp: nat)
    ensures Gather(s, i, cp, 0) == Some(cp)
  {
  }

  lemma SingleByte(c: byte)
    requires c != 0
    ensures LeadSize(c) == 1 ==> LeadBits(c) != 0
  {
  }

  lemma AcceptableSize(cp: nat, n: nat)
    requires Acceptable(cp, n) && 1 <= n <= 4
    ensures Size(cp) == n && cp <= 0x10_ffff && !(0xd800 <= cp <= 0xdfff) && (n > 1 ==> cp > 0)
  {
  }

  lemma TrailNone(wc: nat)
    ensures Trail(wc, 0) == []
  {
  }

  predicate AllScalar(ws: seq<int>) { forall k :: 0 <= k < |ws| ==> Scalar(ws[k]) }

  lemma ScalarsAreWide(ws: seq<int>)
    requires AllScalar(ws)
    ensures WideString(ws)
  {
  }

  /** The code points of a valid string. */
  lemma {:induction false} ValidIsEncoded(s: seq<byte>, i: nat) returns (ws: seq<int>)
    requires i <= |s| && 0 !in s && ValidFrom(s, i)
    ensures AllScalar(ws) && WideString(ws) && s[i..] == Encode(ws)
    decreases |s| - i
  {
    hide EncodeOne, LeadSize, LeadBits, Gather, Acceptable, Scalar;
    if i == |s| {
      ws := [];
    } else {
      AcceptedIsEncoded(s, i);
      var n := LeadSize(s[i]);
      var cp := Gather(s, i + 1, LeadBits(s[i]), n - 1).value;
      var rest := ValidIsEncoded(s, i + n);
      ws := [cp] + rest;
      ScalarsAreWide(ws);
      assert ws[1..] == rest;
      assert s[i..] == s[i..i + n] + s[i + n..];
    }
  }

  lemma ScalarIsAcceptable(cp: int)
    requires Scalar(cp)
    ensures 0 < cp <= 0x7fff_ffff && Acceptable(cp, Size(cp)) && 1 <= Size(cp) <= 4
  {
  }

  lemma {:induction false} EncodedIsValid(before: seq<byte>, ws: seq<int>)
    requires AllScalar(ws) && WideString(ws)
    ensures ValidFrom(before + Encode(ws), |before|)
    decreases |ws|
  {
    hide EncodeOne, LeadSize, LeadBits, Gather, Acceptable, Scalar, Size;
    if ws == [] {
      assert before + [] == before;
    } else {
      var e, rest := EncodeOne(ws[0]), Encode(ws[1..]);
      ScalarIsAcceptable(ws[0]);
      EncodedGathers(before, ws[0], rest);
      assert before + Encode(ws) == before + e + rest;
      EncodedIsValid(before + e, ws[1..]);
    }
  }

  lemma EncodedTextIsValid(ws: seq<int>)
    requires AllScalar(ws) && WideString(ws)
    ensures ValidFrom(Encode(ws), 0)
  {
    hide ValidFrom, Encode;
    EncodedIsValid([], ws);
    assert [] + Encode(ws) == Encode(ws);
  }

  /** The validator accepts exactly the encodings of scalar values (section 3 of RFC 3629). */
  lemma ValidatorIff(s: seq<byte>)
    ensures ValidFrom(CString(s), 0) <==>
            exists ws: seq<int> :: AllScalar(ws) && WideString(ws) && CString(s) == Encode(ws)
  {
    hide ValidFrom, Encode, Scalar;
    var text := CString(s);
    if ValidFrom(text, 0) {
      var ws := ValidIsEncoded(text, 0);
      assert text[0..] == text;
    } else if exists ws: seq<int> :: AllScalar(ws) && WideString(ws) && text == Encode(ws) {
      var ws: seq<int> :| AllScalar(ws) && WideString(ws) && text == Encode(ws);
      EncodedTextIsValid(ws);
      assert false;
    }
  }

  /** On a valid string the reading loop ends and writing gives the string back. */
  lemma ReadThenWrite(s: seq<byte>)
    requires ValidFrom(CString(s), 0)
    ensures var r := Decode(CString(s), 0);
            r.Some? && WideString(r.value) && Encode(r.value) == CString(s)
  {
    hide ValidFrom, Encode, Decode, CString;
    var text := CString(s);
    var ws := ValidIsEncoded(text, 0);
    assert text[0..] == text;
    WriteThenRead(ws);
  }

  lemma {:induction false} WholeCString(s: seq<byte>)
    requires 0 !in s
    ensures CString(s) == s
  {
    if s == [] {
    } else {
      WholeCString(s[1..]);
    }
  }

  /** Beyond an embedded zero nothing is validated, and there the reading loop may be stuck. */
  lemma NothingBeyondZero()
    ensures ValidFrom(CString([0, 0x80]), 0) && Decode([0, 0x80], 0) == None
  {
    assert DecodeOne([0, 0x80], 0) == Some(Read(0, 1));
    assert DecodeOne([0, 0x80], 1) == None;
    assert Decode([0, 0x80], 1) == None;
  }

  // ---------------------------------------------------------------- reading, then writing

  /** Reading the bytes ends with a wide string that is written as the same bytes. */
  predicate RoundTrips(s: seq<byte>)
  {
    var r := Decode(s, 0);
    r.Some? && WideString(r.value) && Encode(r.value) == s
  }

  /**
   * From position `i` on, every character has its announced continuation bytes, is written in its
   * shortest form, and survives; a zero byte is a character like any other.
   */
  predicate ShortestFrom(s: seq<byte>, i: nat)
    decreases |s| - i
  {
    i < |s| ==>
      var num := LeadSize(s[i]);
      && num > 0
      && var cp := Gather(s, i + 1, LeadBits(s[i]), num - 1);
         cp.Some? && Survives(cp.value) && Size(cp.value) == num && ShortestFrom(s, i + num)
  }

  predicate AllSurvive(ws: seq<int>) { forall i :: 0 <= i < |ws| ==> Survives(ws[i]) }

  lemma SurvivorsAreWide(ws: seq<int>)
    requires AllSurvive(ws)
    ensures WideString(ws)
  {
  }

  lemma SurvivorIsWide(wc: int)
    requires Survives(wc)
    ensures 0 <= wc <= 0x7fff_ffff
  {
  }

  lemma {:induction false} ShortestIsEncoded(s: seq<byte>, i: nat) returns (ws: seq<int>)
    requires i <= |s| && ShortestFrom(s, i)
    ensures AllSurvive(ws) && WideString(ws) && s[i..] == Encode(ws)
    decreases |s| - i
  {
    hide EncodeOne, LeadSize, LeadBits, Gather, Survives, Size;
    if i == |s| {
      ws := [];
    } else {
      var n := LeadSize(s[i]);
      var cp := Gather(s, i + 1, LeadBits(s[i]), n - 1).value;
      SurvivorIsWide(cp);
      GatheredIsEncoded(s, i);
      var rest := ShortestIsEncoded(s, i + n);
      ws := [cp] + rest;
      SurvivorsAreWide(ws);
      assert ws[1..] == rest;
      assert s[i..] == s[i..i + n] + s[i + n..];
    }
  }

  lemma {:induction false} EncodedIsShortest(before: seq<byte>, ws: seq<int>)
    requires AllSurvive(ws) && WideString(ws)
    ensures ShortestFrom(before + Encode(ws), |before|)
    decreases |ws|
  {
    hide EncodeOne, LeadSize, LeadBits, Gather, Survives, Size;
    if ws == [] {
      assert before + [] == before;
    } else {
      var e, rest := EncodeOne(ws[0]), Encode(ws[1..]);
      SurvivorIsWide(ws[0]);
      SizeRange(ws[0]);
      EncodedGathers(before, ws[0], rest);
      assert before + Encode(ws) == before + e + rest;
      EncodedIsShortest(before + e, ws[1..]);
    }
  }

  /** Reading and then writing is the identity exactly on strings of surviving shortest forms. */
  lemma ReadThenWriteIff(s: seq<byte>)
    ensures RoundTrips(s) <==> ShortestFrom(s, 0)
  {
    hide Decode, Encode, ShortestFrom, Survives;
    if ShortestFrom(s, 0) {
      var ws := ShortestIsEncoded(s, 0);
      assert s[0..] == s;
      WriteThenRead(ws);
    }
    if RoundTrips(s) {
      var ws := Decode(s, 0).value;
      WriteThenRead(ws);
      EncodedIsShortest([], ws);
      assert [] + Encode(ws) == Encode(ws);
    }
  }

  lemma {:induction false} GatherInPrefix(t: seq<byte>, s: seq<byte>, i: nat, cp: nat, k: nat)
    requires t <= s && Gather(t, i, cp, k).Some?
    ensures Gather(s, i, cp, k) == Gather(t, i, cp, k)
    decreases k
  {
    hide Low6;
    if k == 0 {
    } else {
      GatherInPrefix(t, s, i + 1, cp * 0x40 + Low6(t[i]), k - 1);
    }
  }

  lemma ScalarSurvives(cp: int)
    requires Scalar(cp)
    ensures Survives(cp)
  {
  }

  /** Behind a valid prefix, only the rest decides. */
  lemma {:induction false} ValidPrefix(t: seq<byte>, s: seq<byte>, i: nat)
    requires t <= s && 0 !in t && i <= |t| && ValidFrom(t, i)
    ensures ShortestFrom(s, i) <==> ShortestFrom(s, |t|)
    decreases |t| - i
  {
    hide EncodeOne, LeadSize, LeadBits, Gather, Acceptable, Scalar, Size, Survives;
    if i == |t| {
    } else {
      AcceptedIsEncoded(t, i);
      var n := LeadSize(t[i]);
      var cp := Gather(t, i + 1, LeadBits(t[i]), n - 1).value;
      GatherInPrefix(t, s, i + 1, LeadBits(t[i]), n - 1);
      ScalarSurvives(cp);
      AcceptableSize(cp, n);
      ValidPrefix(t, s, i + n);
    }
  }

  /** A string the validator accepts survives reading and writing exactly when what follows its first zero allows it. */
  lemma ValidRoundTripsIff(s: seq<byte>)
    requires ValidFrom(CString(s), 0)
    ensures RoundTrips(s) <==> ShortestFrom(s, |CString(s)|)
  {
    hide ValidFrom, ShortestFrom, RoundTrips;
    ReadThenWriteIff(s);
    ValidPrefix(CString(s), s, 0);
  }

  /** A string without zero bytes that the validator accepts is read and written back unchanged. */
  lemma ValidRoundTrips(s: seq<byte>)
    requires 0 !in s && ValidFrom(CString(s), 0)
    ensures RoundTrips(s)
  {
    hide ValidFrom, Decode, Encode, CString;
    WholeCString(s);
    ReadThenWrite(s);
  }
}
