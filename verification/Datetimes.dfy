/** Datetimes as text: what the serializers print, and the parser of
xmlrpc-c/src/parse_datetime.c with its two regular expressions as matchers. */
module Datetimes {
  import opened Text
  import opened Values

  /** A datetime as both serializers print it, without its microseconds. */
  function SecondsText(dt: Datetime): string {
    Decimal(dt.Y) + Pad2(dt.M) + Pad2(dt.D) + "T" + Pad2(dt.h) + ":" + Pad2(dt.m) + ":" + Pad2(dt.s)
  }

  /** `n` in exactly `width` digits. */
  function PadTo(n: nat, width: nat): (s: string)
    ensures |s| == width && AllDigits(s)
  {
    if width == 0 then "" else PadTo(n / 10, width - 1) + [DigitChar(n % 10)]
  }

  /** The content of a dateTime.iso8601 element. */
  function DatetimeText(dt: Datetime): string {
    SecondsText(dt) + if dt.u == 0 then "" else "." + PadTo(dt.u, 6)
  }

  // ---------------------------------------------------------------------
  // Matching

  function Skip(s: string, i: nat, c: char): nat { if i < |s| && s[i] == c then i + 1 else i }

  predicate DigitsAt(s: string, i: nat, n: nat) { i + n <= |s| && AllDigitsNow(s[i..i + n]) }

  /** Where the month, day, hour, minute and second start, and what follows them. */
  datatype Head = Head(M: nat, D: nat, h: nat, m: nat, s: nat, end: nat)

  predicate HeadOk(s: string, p: Head) {
    && 4 <= p.M && p.M + 2 <= p.D && p.D + 3 == p.h && p.h + 2 <= p.m && p.m + 2 <= p.s
    && p.s + 2 == p.end <= |s|
    && DigitsAt(s, 0, 4) && DigitsAt(s, p.M, 2) && DigitsAt(s, p.D, 2)
    && s[p.D + 2] in {'T', 't'}
    && DigitsAt(s, p.h, 2) && DigitsAt(s, p.m, 2) && DigitsAt(s, p.s, 2)
  }

  /** What both expressions start with: four digits and two for each other field, with
      optional dashes in the date and colons in the time, and T or t between them. */
  function MatchHead(s: string): (r: Option<Head>)
    ensures r.Some? ==> HeadOk(s, r.value)
  {
    hide DigitsAt;
    var M := Skip(s, 4, '-');
    var D := Skip(s, M + 2, '-');
    var h := D + 3;
    var m := Skip(s, h + 2, ':');
    var sec := Skip(s, m + 2, ':');
    var p := Head(M, D, h, m, sec, sec + 2);
    if HeadOk(s, p) then Some(p) else None
  }

  /** The end of the first expression: an optional point and fraction. */
  predicate StandardTail(s: string, end: nat)
    requires end <= |s|
  {
    AllDigitsNow(s[Skip(s, end, '.')..])
  }

  /** The end of the second: a zone, which is ignored. The backslash stands in the
      source's bracket expression and so counts as a member. */
  predicate ZoneTail(s: string, end: nat)
    requires end <= |s|
  {
    end < |s| && s[end] in {'Z', 'z', '\\', '+', '-'}
    && AllDigitsNow(s[end + 1..]) && |s| - (end + 1) in {0, 2, 3, 4}
  }

  /** The first six digits of a fraction, filled up with zeros. */
  function Millionths(digits: string): (u: nat)
    requires AllDigits(digits)
    ensures u < 1000000
  {
    SmallDecimal((digits + "000000")[..6]);
    DecimalValue((digits + "000000")[..6])
  }

  function Field(s: string, start: nat, end: nat): (n: nat)
    requires start <= end <= |s| && end <= start + 4 && AllDigits(s[start..end])
    ensures n < 10000
  {
    SmallDecimal(s[start..end]);
    DecimalValue(s[start..end])
  }

  lemma SmallDecimal(s: string)
    requires AllDigits(s) && |s| <= 6
    ensures DecimalValue(s) < 1000000 && (|s| <= 4 ==> DecimalValue(s) < 10000)
  {
    DecimalBelow(s);
    assert Pow10(4) == 10000 && Pow10(6) == 1000000;
    if |s| < 6 { Pow10Grows(|s|, 6); }
    if |s| < 4 { Pow10Grows(|s|, 4); }
  }

  lemma {:induction false} DecimalBelow(s: string)
    requires AllDigits(s)
    ensures DecimalValue(s) < Pow10(|s|)
  {
    if s != "" {
      DecimalBelow(s[..|s| - 1]);
    }
  }

  function Fields(s: string, p: Head, u: UInt32): Datetime
    requires HeadOk(s, p)
  {
    hide DecimalValue;
    Datetime(Field(s, 0, 4), Field(s, p.M, p.M + 2), Field(s, p.D, p.D + 2), Field(s, p.h, p.h + 2),
      Field(s, p.m, p.m + 2), Field(s, p.s, p.s + 2), u)
  }

  /** The datetime a text denotes; None if neither expression matches it. */
  function MatchDatetime(s: string): Option<Datetime> {
    hide HeadOk, DigitsAt, Field, DecimalValue;
    match MatchHead(s)
    case None => None
    case Some(p) =>
      if p.end <= |s| && StandardTail(s, p.end) then
        Some(Fields(s, p, Millionths(s[Skip(s, p.end, '.')..])))
      else if p.end <= |s| && ZoneTail(s, p.end) then Some(Fields(s, p, 0))
      else None
  }

  /** validateXmlrpcDatetimeSome(): every field in its range, though not every day
      need exist. */
  predicate InRange(dt: Datetime) {
    1 <= dt.M <= 12 && 1 <= dt.D <= 31 && dt.h <= 23 && dt.m <= 59 && dt.s <= 59 && dt.u <= 999999
  }

  /** xmlrpc_parseDatetime() */
  function ParseDatetime(s: string): Option<Datetime> {
    match MatchDatetime(s)
    case Some(dt) => if InRange(dt) then Some(dt) else None
    case None => None
  }

  // ---------------------------------------------------------------------
  // Printed datetimes read back

  lemma {:induction false} PadToValue(n: nat, width: nat)
    requires n < Pow10(width)
    ensures DecimalValue(PadTo(n, width)) == n
  {
    if width > 0 {
      PadToValue(n / 10, width - 1);
      assert PadTo(n, width)[..width - 1] == PadTo(n / 10, width - 1);
    }
  }

  lemma TwoDigits(n: nat)
    requires n < 100
    ensures |Pad2(n)| == 2 && AllDigits(Pad2(n)) && DecimalValue(Pad2(n)) == n
  {
    var s := Pad2(n);
    DecimalRoundTrip(n);
    if n < 10 {
      assert s == ['0', DigitChar(n)];
      assert s[..1] == "0" && s[..1][..0] == "";
    } else {
      assert Decimal(n / 10) == [DigitChar(n / 10)];
    }
  }

  lemma YearLength(Y: nat)
    ensures |Decimal(Y)| == 4 <==> 1000 <= Y <= 9999
    ensures Y < 1000 ==> |Decimal(Y)| < 4
    ensures Y >= 10000 ==> |Decimal(Y)| > 4
  {
    assert Y / 10 / 10 == Y / 100 && Y / 100 / 10 == Y / 1000;
    assert |Decimal(Y / 1000)| >= 1;
    if Y >= 10 { assert |Decimal(Y)| == |Decimal(Y / 10)| + 1; }
    if Y >= 100 { assert |Decimal(Y / 10)| == |Decimal(Y / 100)| + 1; }
    if Y >= 1000 { assert |Decimal(Y / 100)| == |Decimal(Y / 1000)| + 1; }
  }

  lemma Layout(Y: string, M: string, D: string, h: string, m: string, sec: string, tail: string)
    requires |Y| == 4 && |M| == |D| == |h| == |m| == |sec| == 2
    ensures var s := Y + M + D + "T" + h + ":" + m + ":" + sec + tail;
      && |s| == 17 + |tail| && s[0..4] == Y && s[4..6] == M && s[6..8] == D && s[8] == 'T' && s[9..11] == h
      && s[11] == ':' && s[12..14] == m && s[14] == ':' && s[15..17] == sec && s[17..] == tail
  {}

  lemma HeadAt(s: string)
    requires |s| >= 17 && s[8] == 'T' && s[11] == s[14] == ':'
    requires DigitsAt(s, 0, 4) && DigitsAt(s, 4, 2) && DigitsAt(s, 6, 2)
    requires DigitsAt(s, 9, 2) && DigitsAt(s, 12, 2) && DigitsAt(s, 15, 2)
    ensures MatchHead(s) == Some(Head(4, 6, 9, 12, 15, 17))
  {
    assert s[4] == s[4..6][0] && s[6] == s[6..8][0];
    hide DigitsAt;
    assert Skip(s, 4, '-') == 4 && Skip(s, 6, '-') == 6 && Skip(s, 11, ':') == 12 && Skip(s, 14, ':') == 15;
  }

  lemma FractionReadsBack(u: nat)
    requires 0 < u < 1000000
    ensures Millionths(PadTo(u, 6)) == u
  {
    assert Pow10(6) == 1000000;
    PadToValue(u, 6);
    assert (PadTo(u, 6) + "000000")[..6] == PadTo(u, 6);
  }

  lemma NoMillionths(s: string)
    requires s == ""
    ensures Millionths(s) == 0
  {
    ZerosValue((s + "000000")[..6]);
  }

  lemma {:induction false} ZerosValue(s: string)
    requires forall i :: 0 <= i < |s| ==> s[i] == '0'
    ensures AllDigits(s) && DecimalValue(s) == 0
  {
    if s != "" { ZerosValue(s[..|s| - 1]); }
  }

  lemma TailReadsBack(s: string, u: nat)
    requires |s| >= 17 && u < 1000000
    requires s[17..] == if u == 0 then "" else "." + PadTo(u, 6)
    ensures StandardTail(s, 17) && Millionths(s[Skip(s, 17, '.')..]) == u
  {
    if u == 0 {
      assert Skip(s, 17, '.') == 17;
      NoMillionths(s[17..]);
    } else {
      assert s[17] == s[17..][0];
      assert s[18..] == s[17..][1..] == PadTo(u, 6);
      FractionReadsBack(u);
    }
  }

  lemma GoodReadsBack(dt: Datetime)
    requires InRange(dt) && 1000 <= dt.Y <= 9999
    ensures ParseDatetime(DatetimeText(dt)) == Some(dt)
  {
    hide DecimalValue, Decimal, Pad2, PadTo, DigitsAt, StandardTail, ZoneTail, Millionths, MatchHead;
    var s, tail := DatetimeText(dt), if dt.u == 0 then "" else "." + PadTo(dt.u, 6);
    YearLength(dt.Y);
    DecimalRoundTrip(dt.Y);
    TwoDigits(dt.M); TwoDigits(dt.D); TwoDigits(dt.h); TwoDigits(dt.m); TwoDigits(dt.s);
    Layout(Decimal(dt.Y), Pad2(dt.M), Pad2(dt.D), Pad2(dt.h), Pad2(dt.m), Pad2(dt.s), tail);
    assert DigitsAt(s, 0, 4) && DigitsAt(s, 4, 2) && DigitsAt(s, 6, 2)
      && DigitsAt(s, 9, 2) && DigitsAt(s, 12, 2) && DigitsAt(s, 15, 2) by { DigitFields(s); }
    HeadAt(s);
    TailReadsBack(s, dt.u);
  }

  lemma DigitFields(s: string)
    requires |s| >= 17
    ensures AllDigits(s[0..4]) ==> DigitsAt(s, 0, 4)
    ensures AllDigits(s[4..6]) ==> DigitsAt(s, 4, 2)
    ensures AllDigits(s[6..8]) ==> DigitsAt(s, 6, 2)
    ensures AllDigits(s[9..11]) ==> DigitsAt(s, 9, 2)
    ensures AllDigits(s[12..14]) ==> DigitsAt(s, 12, 2)
    ensures AllDigits(s[15..17]) ==> DigitsAt(s, 15, 2)
  {}

  /** Where the T is, all else before it being digits, decides how a text is read. */
  lemma MisplacedT(s: string, t: nat)
    requires t < |s| && s[t] == 'T' && t >= 5 && t != 8 && forall i :: 0 <= i < t ==> IsDigit(s[i])
    ensures MatchHead(s).None?
  {
    assert Skip(s, 4, '-') == 4;
    if t >= 6 { assert Skip(s, 6, '-') == 6; }
    if t < 8 {
      if t == 5 && |s| >= 6 { assert s[4..6][1] == s[5]; }
      else if |s| >= 8 { assert s[6..8][t - 6] == s[t]; }
    }
  }

  /** Exactly the datetimes whose fields are in range and whose year has four digits
      survive printing and parsing. */
  lemma DatetimeRoundTrip(dt: Datetime)
    requires dt.u <= 999999
    ensures ParseDatetime(DatetimeText(dt)) == Some(dt) <==> InRange(dt) && 1000 <= dt.Y <= 9999
  {
    hide DecimalValue, Decimal, Pad2, PadTo, MatchDatetime;
    if InRange(dt) && 1000 <= dt.Y <= 9999 {
      GoodReadsBack(dt);
    } else if InRange(dt) {
      var s, year := DatetimeText(dt), Decimal(dt.Y);
      YearLength(dt.Y);
      TwoDigits(dt.M); TwoDigits(dt.D);
      var date := year + Pad2(dt.M) + Pad2(dt.D);
      assert AllDigits(date);
      assert date + "T" <= SecondsText(dt) <= s;
      assert s[|date|] == (date + "T")[|date|] == 'T';
      forall i | 0 <= i < |date| ensures IsDigit(s[i]) { assert s[i] == date[i]; }
      MisplacedT(s, |date|);
      NoHead(s);
    }
  }

  lemma NoHead(s: string)
    requires MatchHead(s).None?
    ensures ParseDatetime(s).None?
  {}

  // ---------------------------------------------------------------------
  // The parser

  /** digitStringValue() */
  method DigitStringValue(s: string, so: nat, eo: nat) returns (accum: nat)
    requires so <= eo <= |s| && AllDigits(s[so..eo])
    ensures accum == DecimalValue(s[so..eo])
    ensures eo <= so + 4 ==> accum == Field(s, so, eo) < 10000
  {
    var i := so;
    accum := 0;
    while i < eo
      invariant so <= i <= eo && AllDigits(s[so..i]) && accum == DecimalValue(s[so..i])
    {
      accum := accum * 10;
      assert IsDigit(s[i]) by { assert s[so..eo][i - so] == s[i]; }
      assert s[so..i + 1] == s[so..i] + [s[i]];
      accum := accum + DigitValue(s[i]);
      i := i + 1;
    }
  }

  lemma NextPlace(s: string, n: nat)
    requires AllDigits(s) && n < 6
    ensures AllDigits((s + "000000")[..n]) && AllDigits((s + "000000")[..n + 1])
    ensures DecimalValue((s + "000000")[..n + 1]) == DecimalValue((s + "000000")[..n]) * 10 + if n < |s| then DigitValue(s[n]) else 0
  {
    var t := s + "000000";
    assert t[..n + 1][..n] == t[..n];
    assert t[n] == if n < |s| then s[n] else '0';
  }

  /** digitStringMillionths(): digits after the sixth are ignored, missing ones count
      as zeros. */
  method DigitStringMillionths(s: string, so: nat, eo: nat) returns (accum: nat)
    requires so <= eo <= |s| && AllDigits(s[so..eo])
    ensures accum == Millionths(s[so..eo])
  {
    hide DecimalValue;
    ghost var digits := s[so..eo];
    var i := so;
    accum := 0;
    assert DecimalValue((digits + "000000")[..0]) == 0 by { NoDigitsValue((digits + "000000")[..0]); }
    while i < so + 6
      invariant so <= i <= so + 6 && AllDigits((digits + "000000")[..i - so])
      invariant accum == DecimalValue((digits + "000000")[..i - so])
    {
      NextPlace(digits, i - so);
      accum := accum * 10;
      if i < eo {
        assert s[i] == digits[i - so];
        accum := accum + DigitValue(s[i]);
      }
      i := i + 1;
    }
  }

  lemma NoDigitsValue(s: string)
    requires s == ""
    ensures DecimalValue(s) == 0
  {}

  /** subParseDtRegex_standard() and subParseDtRegex_standardtzd(): `fraction` is where
      the fraction starts, if the form has one. */
  method SubParse(s: string, p: Head, fraction: Option<nat>) returns (dt: Datetime)
    requires HeadOk(s, p)
    requires fraction.Some? ==> p.end <= fraction.value < |s| && AllDigits(s[fraction.value..])
    ensures dt == Fields(s, p, if fraction.Some? then Millionths(s[fraction.value..]) else 0)
  {
    hide DecimalValue, Millionths;
    var Y := DigitStringValue(s, 0, 4);
    var M := DigitStringValue(s, p.M, p.M + 2);
    var D := DigitStringValue(s, p.D, p.D + 2);
    var h := DigitStringValue(s, p.h, p.h + 2);
    var m := DigitStringValue(s, p.m, p.m + 2);
    var sec := DigitStringValue(s, p.s, p.s + 2);
    var u := 0;
    if fraction.Some? {
      assert s[fraction.value..|s|] == s[fraction.value..];
      u := DigitStringMillionths(s, fraction.value, |s|);
    }
    dt := Datetime(Y, M, D, h, m, sec, u);
  }

  /** xmlrpc_parseDatetime() */
  method ParseDatetimeString(s: string) returns (r: Option<Datetime>)
    ensures r == ParseDatetime(s)
  {
    hide HeadOk, Fields, Millionths, MatchHead;
    var head := MatchHead(s);
    if head.None? { return None; }
    var p := head.value;
    assert p.end <= |s| by { HeadEnd(s, p); }
    var dt;
    if StandardTail(s, p.end) {
      var so := Skip(s, p.end, '.');
      if so == |s| { NoMillionths(s[so..]); }
      dt := SubParse(s, p, if so < |s| then Some(so) else None);
    } else if ZoneTail(s, p.end) {
      dt := SubParse(s, p, None);
    } else {
      return None;
    }
    r := if InRange(dt) then Some(dt) else None;
  }

  lemma HeadEnd(s: string, p: Head)
    requires HeadOk(s, p)
    ensures p.end <= |s|
  {}
}
