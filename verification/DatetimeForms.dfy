/** The texts that count as datetimes, told by how they are written: the two regular
expressions of xmlrpc-c/src/parse_datetime.c as one form with its options. */
module DatetimeForms {
  import opened Text
  import opened Values
  import opened Datetimes

  /** What follows the seconds: a fraction, or a zone, which is ignored. */
  datatype Tail = Fraction(point: bool, digits: string) | Zone(mark: char, digits: string)

  datatype Written = Written(Y: string, dash1: bool, M: string, dash2: bool, D: string, t: char,
    h: string, colon1: bool, m: string, colon2: bool, s: string, tail: Tail)

  function Mark(there: bool, c: char): string { if there then [c] else "" }

  function TailText(t: Tail): string {
    if t.Fraction? then Mark(t.point, '.') + t.digits else [t.mark] + t.digits
  }

  function TimeText(w: Written): string {
    w.h + (Mark(w.colon1, ':') + (w.m + (Mark(w.colon2, ':') + (w.s + TailText(w.tail)))))
  }

  function WrittenText(w: Written): string {
    w.Y + (Mark(w.dash1, '-') + (w.M + (Mark(w.dash2, '-') + (w.D + ([w.t] + TimeText(w))))))
  }

  ghost predicate IsField(s: string, n: nat) { |s| == n && AllDigits(s) }

  ghost predicate TailOk(t: Tail) {
    AllDigits(t.digits) && (t.Zone? ==> t.mark in {'Z', 'z', '\\', '+', '-'} && |t.digits| in {0, 2, 3, 4})
  }

  ghost predicate FormOk(w: Written) {
    && IsField(w.Y, 4) && IsField(w.M, 2) && IsField(w.D, 2) && w.t in {'T', 't'}
    && IsField(w.h, 2) && IsField(w.m, 2) && IsField(w.s, 2) && TailOk(w.tail)
  }

  /** A fraction in millionths, rounded down. */
  ghost function InMillionths(digits: string): int
    requires AllDigits(digits)
  {
    Pow10Grows(0, |digits|);
    DecimalValue(digits) * 1000000 / Pow10(|digits|)
  }

  ghost predicate Says(w: Written, dt: Datetime)
    requires FormOk(w)
  {
    && dt.Y == DecimalValue(w.Y) && dt.M == DecimalValue(w.M) && dt.D == DecimalValue(w.D)
    && dt.h == DecimalValue(w.h) && dt.m == DecimalValue(w.m) && dt.s == DecimalValue(w.s)
    && dt.u == if w.tail.Fraction? then InMillionths(w.tail.digits) else 0
  }

  /** `s` is a datetime written in one of the forms. */
  ghost predicate IsDatetime(s: string, dt: Datetime) {
    exists w :: FormOk(w) && WrittenText(w) == s && Says(w, dt) && InRange(dt)
  }

  // ---------------------------------------------------------------------
  // Fractions

  lemma {:induction false} FilledUp(digits: string, n: nat)
    requires AllDigits(digits)
    ensures AllDigits(digits + Zeros(n)) && DecimalValue(digits + Zeros(n)) == DecimalValue(digits) * Pow10(n)
  {
    hide DecimalValue, AllDigits;
    if n == 0 {
      assert digits + "" == digits;
    } else {
      FilledUp(digits, n - 1);
      OneZero(digits + Zeros(n - 1));
      Assoc(digits, Zeros(n - 1), "0");
      TimesTen(DecimalValue(digits), Pow10(n - 1));
    }
  }

  lemma OneZero(digits: string)
    requires AllDigits(digits)
    ensures AllDigits(digits + "0") && DecimalValue(digits + "0") == DecimalValue(digits) * 10
  {
    assert (digits + "0")[..|digits|] == digits;
  }

  lemma TimesTen(v: nat, p: nat)
    ensures v * (10 * p) == (v * p) * 10
  {}

  function Zeros(n: nat): (s: string)
    ensures |s| == n && AllDigitsNow(s)
  {
    if n == 0 then "" else Zeros(n - 1) + "0"
  }

  lemma {:induction false} CutOff(digits: string, n: nat)
    requires AllDigits(digits) && n <= |digits|
    ensures Pow10(|digits| - n) >= 1 && DecimalValue(digits[..n]) == DecimalValue(digits) / Pow10(|digits| - n)
    decreases |digits|
  {
    var k := |digits| - n;
    Pow10Grows(0, k);
    if k == 0 {
      assert digits[..n] == digits;
    } else {
      var front := digits[..|digits| - 1];
      CutOff(front, n);
      assert front[..n] == digits[..n];
      Pow10Grows(0, k - 1);
      DropDigit(DecimalValue(front), DigitValue(digits[|digits| - 1]), Pow10(k - 1));
    }
  }

  lemma DropDigit(v: nat, d: nat, p: nat)
    requires d < 10 && p >= 1
    ensures (v * 10 + d) / (10 * p) == v / p
  {
    var q, r := v / p, v % p;
    assert v == p * q + r;
    assert (v * 10 + d) == (10 * p) * q + (10 * r + d);
    assert 10 * r + d < 10 * p;
    Quotient(10 * p, q, 10 * r + d);
  }

  lemma Quotient(p: nat, q: nat, r: nat)
    requires r < p
    ensures (p * q + r) / p == q
  {
    var x := (p * q + r) / p;
    assert p * q + r == p * x + (p * q + r) % p;
    if x < q { Times(p, x + 1, q); } else if x > q { Times(p, q + 1, x); }
  }

  lemma Times(p: nat, a: nat, b: nat)
    requires a <= b
    ensures p * a <= p * b && p * a == p * (a - 1) + p
  {}

  /** digitStringMillionths() computes the fraction in millionths, rounded down, whatever
      the number of digits. */
  lemma MillionthsExact(digits: string)
    requires AllDigits(digits)
    ensures Millionths(digits) == InMillionths(digits)
  {
    hide DecimalValue;
    var n := |digits|;
    assert "000000" == Zeros(6) by { SixZeros(); }
    FilledUp(digits, 6);
    var s := digits + Zeros(6);
    CutOff(s, 6);
    assert Pow10(6) == 1000000;
  }

  lemma SixZeros()
    ensures "000000" == Zeros(6)
  {
    assert Zeros(1) == "0" && Zeros(2) == "00" && Zeros(3) == "000" && Zeros(4) == "0000" && Zeros(5) == "00000";
  }

  // ---------------------------------------------------------------------
  // Reading what is written

  lemma PartAt(s: string, i: nat, part: string, rest: string)
    requires i <= |s| && s[i..] == part + rest
    ensures i + |part| <= |s| && s[i..i + |part|] == part && s[i + |part|..] == rest
  {
    assert s[i..][..|part|] == part && s[i..][|part|..] == rest;
  }

  lemma SkipAt(s: string, i: nat, there: bool, c: char, rest: string)
    requires i <= |s| && s[i..] == Mark(there, c) + rest && rest != "" && rest[0] != c
    ensures Skip(s, i, c) <= |s| && s[Skip(s, i, c)..] == rest
  {
    if there { PartAt(s, i, [c], rest); assert s[i] == s[i..][0] == c; }
    else { assert Mark(there, c) + rest == rest; assert s[i] == s[i..][0] == rest[0]; }
  }

  lemma FieldAt(s: string, i: nat, part: string, n: nat, rest: string)
    requires i <= |s| && s[i..] == part + rest && IsField(part, n)
    ensures DigitsAt(s, i, n) && i + n <= |s| && s[i..i + n] == part && s[i + n..] == rest
  {
    PartAt(s, i, part, rest);
  }

  /** A field does not start with a mark. */
  lemma FieldStarts(part: string, rest: string)
    requires IsField(part, 2)
    ensures part + rest != "" && (part + rest)[0] != '-' && (part + rest)[0] != ':'
  {
    assert (part + rest)[0] == part[0] && IsDigit(part[0]);
  }

  lemma DateIsRead(s: string, w: Written, rest: string) returns (M: nat, D: nat)
    requires FormOk(w) && s == w.Y + (Mark(w.dash1, '-') + (w.M + (Mark(w.dash2, '-') + (w.D + rest))))
    ensures M == Skip(s, 4, '-') && D == Skip(s, M + 2, '-') && 4 <= M && M + 2 <= D && D + 2 <= |s|
    ensures DigitsAt(s, 0, 4) && DigitsAt(s, M, 2) && DigitsAt(s, D, 2)
    ensures s[0..4] == w.Y && s[M..M + 2] == w.M && s[D..D + 2] == w.D && s[D + 2..] == rest
  {
    hide DigitsAt, Mark, Skip, TailOk, IsField;
    var r2 := w.D + rest;
    var r1 := w.M + (Mark(w.dash2, '-') + r2);
    assert s[0..] == s;
    FieldStarts(w.M, Mark(w.dash2, '-') + r2);
    FieldStarts(w.D, rest);
    MarkedField(s, 0, w.Y, 4, w.dash1, '-', r1);
    M := Skip(s, 4, '-');
    MarkedField(s, M, w.M, 2, w.dash2, '-', r2);
    D := Skip(s, M + 2, '-');
    FieldAt(s, D, w.D, 2, rest);
  }

  /** A field, perhaps a mark, and what follows. */
  lemma MarkedField(s: string, i: nat, part: string, n: nat, there: bool, c: char, rest: string)
    requires i <= |s| && s[i..] == part + (Mark(there, c) + rest) && IsField(part, n) && rest != "" && rest[0] != c
    ensures DigitsAt(s, i, n) && i + n <= Skip(s, i + n, c) <= |s| && s[i..i + n] == part && s[Skip(s, i + n, c)..] == rest
  {
    hide DigitsAt, Mark, Skip, IsField;
    FieldAt(s, i, part, n, Mark(there, c) + rest);
    SkipAt(s, i + n, there, c, rest);
    SkipForward(s, i + n, c);
  }

  lemma TimeIsRead(s: string, h: nat, w: Written) returns (m: nat, sec: nat)
    requires FormOk(w) && h <= |s| && s[h..] == TimeText(w)
    ensures m == Skip(s, h + 2, ':') && sec == Skip(s, m + 2, ':') && h + 2 <= m && m + 2 <= sec && sec + 2 <= |s|
    ensures DigitsAt(s, h, 2) && DigitsAt(s, m, 2) && DigitsAt(s, sec, 2)
    ensures s[h..h + 2] == w.h && s[m..m + 2] == w.m && s[sec..sec + 2] == w.s && s[sec + 2..] == TailText(w.tail)
  {
    hide DigitsAt, Mark, Skip, TailOk, TailText, IsField;
    var r5 := w.s + TailText(w.tail);
    var r4 := w.m + (Mark(w.colon2, ':') + r5);
    FieldStarts(w.m, Mark(w.colon2, ':') + r5);
    FieldStarts(w.s, TailText(w.tail));
    MarkedField(s, h, w.h, 2, w.colon1, ':', r4);
    m := Skip(s, h + 2, ':');
    MarkedField(s, m, w.m, 2, w.colon2, ':', r5);
    sec := Skip(s, m + 2, ':');
    FieldAt(s, sec, w.s, 2, TailText(w.tail));
  }

  lemma SkipForward(s: string, i: nat, c: char)
    ensures i <= Skip(s, i, c) <= i + 1
  {}

  lemma HeadIsRead(w: Written) returns (p: Head)
    requires FormOk(w)
    ensures var s := WrittenText(w);
      MatchHead(s) == Some(p) && HeadOk(s, p) && s[p.end..] == TailText(w.tail)
      && s[0..4] == w.Y && s[p.M..p.M + 2] == w.M && s[p.D..p.D + 2] == w.D
      && s[p.h..p.h + 2] == w.h && s[p.m..p.m + 2] == w.m && s[p.s..p.s + 2] == w.s
  {
    hide DigitsAt, TailText, TimeText, Mark, Skip, TailOk, IsField, MatchHead, HeadOk;
    var s := WrittenText(w);
    var M, D := DateIsRead(s, w, [w.t] + TimeText(w));
    MarkAt(s, D + 2, w);
    var m, sec := TimeIsRead(s, D + 3, w);
    p := Head(M, D, D + 3, m, sec, sec + 2);
    HeadMatched(s, p);
  }

  lemma MarkAt(s: string, i: nat, w: Written)
    requires i <= |s| && s[i..] == [w.t] + TimeText(w)
    ensures i < |s| && s[i] == w.t && s[i + 1..] == TimeText(w)
  {
    hide TimeText;
    PartAt(s, i, [w.t], TimeText(w));
    assert s[i] == s[i..][0] == w.t;
  }

  lemma HeadMatched(s: string, p: Head)
    requires p.M == Skip(s, 4, '-') && p.D == Skip(s, p.M + 2, '-') && p.h == p.D + 3
    requires p.m == Skip(s, p.h + 2, ':') && p.s == Skip(s, p.m + 2, ':') && p.end == p.s + 2 <= |s|
    requires DigitsAt(s, 0, 4) && DigitsAt(s, p.M, 2) && DigitsAt(s, p.D, 2) && s[p.D + 2] in {'T', 't'}
    requires DigitsAt(s, p.h, 2) && DigitsAt(s, p.m, 2) && DigitsAt(s, p.s, 2)
    ensures MatchHead(s) == Some(p) && HeadOk(s, p)
  {
    hide DigitsAt;
  }

  lemma TailIsRead(s: string, end: nat, t: Tail)
    requires end <= |s| && s[end..] == TailText(t) && TailOk(t)
    ensures t.Fraction? ==> StandardTail(s, end) && s[Skip(s, end, '.')..] == t.digits
    ensures t.Zone? ==> !StandardTail(s, end) && ZoneTail(s, end)
  {
    if t.Zone? {
      assert s[end] == s[end..][0] == t.mark;
      assert s[end + 1..] == s[end..][1..] == t.digits;
      assert Skip(s, end, '.') == end;
    } else if t.point {
      assert s[end] == s[end..][0];
      assert s[end + 1..] == s[end..][1..] == t.digits;
    } else if t.digits != "" {
      assert s[end] == s[end..][0];
    }
  }

  lemma FormIsRead(w: Written, dt: Datetime)
    requires FormOk(w) && Says(w, dt) && InRange(dt)
    ensures ParseDatetime(WrittenText(w)) == Some(dt)
  {
    hide DecimalValue, Millionths, InMillionths, MatchHead, HeadOk, WrittenText, StandardTail, ZoneTail, DigitsAt;
    var s := WrittenText(w);
    var p := HeadIsRead(w);
    assert p.end <= |s| by { HeadEnd(s, p); }
    TailIsRead(s, p.end, w.tail);
    MillionthsExact(w.tail.digits);
  }

  // ---------------------------------------------------------------------
  // What is read was written so

  lemma MarkRead(s: string, i: nat, c: char) returns (there: bool)
    requires i <= |s|
    ensures Skip(s, i, c) <= |s| && s[i..] == Mark(there, c) + s[Skip(s, i, c)..]
  {
    there := i < |s| && s[i] == c;
  }

  lemma PartRead(s: string, i: nat, n: nat)
    requires i + n <= |s|
    ensures s[i..] == s[i..i + n] + s[i + n..]
  {}

  lemma TailRead(s: string, end: nat) returns (t: Tail)
    requires end <= |s| && (StandardTail(s, end) || ZoneTail(s, end))
    ensures TailOk(t) && s[end..] == TailText(t) && (t.Fraction? <==> StandardTail(s, end))
    ensures t.Fraction? ==> t.digits == s[Skip(s, end, '.')..]
  {
    if StandardTail(s, end) {
      var point := MarkRead(s, end, '.');
      t := Fraction(point, s[Skip(s, end, '.')..]);
    } else {
      t := Zone(s[end], s[end + 1..]);
      assert s[end..] == [s[end]] + s[end + 1..];
    }
  }

  /** The form with the fields of `p` and the marks that are there. */
  lemma HeadMarks(s: string, p: Head, tail: Tail) returns (w: Written)
    requires MatchHead(s) == Some(p) && HeadOk(s, p)
    ensures w == Written(s[0..4], w.dash1, s[p.M..p.M + 2], w.dash2, s[p.D..p.D + 2], s[p.D + 2],
                   s[p.h..p.h + 2], w.colon1, s[p.m..p.m + 2], w.colon2, s[p.s..p.s + 2], tail)
    ensures s[4..] == Mark(w.dash1, '-') + s[p.M..] && s[p.M + 2..] == Mark(w.dash2, '-') + s[p.D..]
    ensures s[p.h + 2..] == Mark(w.colon1, ':') + s[p.m..] && s[p.m + 2..] == Mark(w.colon2, ':') + s[p.s..]
  {
    hide Mark, Skip, DigitsAt, MatchHead;
    HeadSkips(s, p);
    var dash1 := MarkRead(s, 4, '-');
    var dash2 := MarkRead(s, p.M + 2, '-');
    var colon1 := MarkRead(s, p.h + 2, ':');
    var colon2 := MarkRead(s, p.m + 2, ':');
    w := Written(s[0..4], dash1, s[p.M..p.M + 2], dash2, s[p.D..p.D + 2], s[p.D + 2],
      s[p.h..p.h + 2], colon1, s[p.m..p.m + 2], colon2, s[p.s..p.s + 2], tail);
  }

  lemma HeadWritten(s: string, p: Head, tail: Tail) returns (w: Written)
    requires MatchHead(s) == Some(p) && HeadOk(s, p) && s[p.end..] == TailText(tail) && TailOk(tail)
    ensures FormOk(w) && WrittenText(w) == s && w.tail == tail
    ensures w.Y == s[0..4] && w.M == s[p.M..p.M + 2] && w.D == s[p.D..p.D + 2]
    ensures w.h == s[p.h..p.h + 2] && w.m == s[p.m..p.m + 2] && w.s == s[p.s..p.s + 2]
  {
    hide TailText, TailOk, Mark, IsField, DigitsAt, MatchHead, WrittenText, TimeText;
    w := HeadMarks(s, p, tail);
    FieldsWritten(s, p);
    TimeWritten(s, p, w);
    PartRead(s, p.D + 2, 1);
    assert s[p.D + 2..p.D + 3] == [s[p.D + 2]];
    DateWritten(s, p, w);
  }

  lemma FieldsWritten(s: string, p: Head)
    requires HeadOk(s, p)
    ensures IsField(s[0..4], 4) && IsField(s[p.M..p.M + 2], 2) && IsField(s[p.D..p.D + 2], 2)
    ensures IsField(s[p.h..p.h + 2], 2) && IsField(s[p.m..p.m + 2], 2) && IsField(s[p.s..p.s + 2], 2)
  {
    hide AllDigits;
  }

  lemma HeadSkips(s: string, p: Head)
    requires MatchHead(s) == Some(p)
    ensures p.M == Skip(s, 4, '-') && p.D == Skip(s, p.M + 2, '-') && p.h == p.D + 3
    ensures p.m == Skip(s, p.h + 2, ':') && p.s == Skip(s, p.m + 2, ':') && p.end == p.s + 2
  {
    hide HeadOk, Skip;
  }

  lemma TimeWritten(s: string, p: Head, w: Written)
    requires HeadOk(s, p) && s[p.end..] == TailText(w.tail)
    requires w.h == s[p.h..p.h + 2] && w.m == s[p.m..p.m + 2] && w.s == s[p.s..p.s + 2]
    requires s[p.h + 2..] == Mark(w.colon1, ':') + s[p.m..] && s[p.m + 2..] == Mark(w.colon2, ':') + s[p.s..]
    ensures s[p.h..] == TimeText(w)
  {
    hide TailText, Mark, DigitsAt;
    PartRead(s, p.s, 2);
    var r2 := w.s + TailText(w.tail);
    assert s[p.s..] == r2;
    PartRead(s, p.m, 2);
    var r1 := w.m + (Mark(w.colon2, ':') + r2);
    assert s[p.m..] == r1;
    PartRead(s, p.h, 2);
  }

  lemma DateWritten(s: string, p: Head, w: Written)
    requires 4 <= p.M && p.M + 2 <= p.D && p.D + 2 < |s| && w.t == s[p.D + 2] && s[p.D + 2..] == [w.t] + TimeText(w)
    requires w.Y == s[0..4] && w.M == s[p.M..p.M + 2] && w.D == s[p.D..p.D + 2]
    requires s[4..] == Mark(w.dash1, '-') + s[p.M..] && s[p.M + 2..] == Mark(w.dash2, '-') + s[p.D..]
    ensures WrittenText(w) == s
  {
    hide TimeText, Mark;
    var r3 := w.D + ([w.t] + TimeText(w));
    PartRead(s, p.D, 2);
    assert s[p.D..] == r3;
    var r2 := w.M + (Mark(w.dash2, '-') + r3);
    PartRead(s, p.M, 2);
    assert s[p.M..] == r2;
    PartRead(s, 0, 4);
    assert s[0..] == s;
  }

  lemma Matched(s: string, dt: Datetime) returns (p: Head)
    requires MatchDatetime(s) == Some(dt)
    ensures MatchHead(s) == Some(p) && HeadOk(s, p) && p.end <= |s| && (StandardTail(s, p.end) || ZoneTail(s, p.end))
    ensures dt == Fields(s, p, if StandardTail(s, p.end) then Millionths(s[Skip(s, p.end, '.')..]) else 0)
  {
    hide DecimalValue, Millionths, HeadOk, StandardTail, ZoneTail, Fields;
    p := MatchHead(s).value;
    HeadEnd(s, p);
  }

  lemma ReadWasWritten(s: string, dt: Datetime) returns (w: Written)
    requires ParseDatetime(s) == Some(dt)
    ensures FormOk(w) && WrittenText(w) == s && Says(w, dt) && InRange(dt)
  {
    hide DecimalValue, Millionths, InMillionths, MatchHead, MatchDatetime, HeadOk, WrittenText, TailText, StandardTail, ZoneTail, DigitsAt;
    var p := Matched(s, dt);
    var tail := TailRead(s, p.end);
    w := HeadWritten(s, p, tail);
    MillionthsExact(tail.digits);
  }

  /** xmlrpc_parseDatetime() takes exactly the datetimes written in one of the forms with
      every field in its range, and each as what is written. */
  lemma DatetimeExact(s: string, dt: Datetime)
    ensures ParseDatetime(s) == Some(dt) <==> IsDatetime(s, dt)
  {
    hide ParseDatetime, FormOk, WrittenText, Says;
    if ParseDatetime(s) == Some(dt) { var w := ReadWasWritten(s, dt); }
    if IsDatetime(s, dt) {
      var w :| FormOk(w) && WrittenText(w) == s && Says(w, dt) && InRange(dt);
      FormIsRead(w, dt);
    }
  }

  /** `s` is the number `n` in two digits. */
  ghost predicate TellsTwo(s: string, n: nat) { IsField(s, 2) && DecimalValue(s) == n }

  /** How both serializers write a datetime whose fields have two digits at most: the year
      without zeros in front, no dashes, colons, and a fraction only if there is one. */
  lemma PrintedForm(dt: Datetime) returns (w: Written)
    requires dt.M < 100 && dt.D < 100 && dt.h < 100 && dt.m < 100 && dt.s < 100 && dt.u <= 999999
    ensures WrittenText(w) == DatetimeText(dt) && WrittenText(w.(tail := Fraction(false, ""))) == SecondsText(dt)
    ensures w.Y == Decimal(dt.Y) && TellsTwo(w.M, dt.M) && TellsTwo(w.D, dt.D)
    ensures TellsTwo(w.h, dt.h) && TellsTwo(w.m, dt.m) && TellsTwo(w.s, dt.s)
    ensures !w.dash1 && !w.dash2 && w.t == 'T' && w.colon1 && w.colon2 && w.tail.Fraction? && w.tail.point == (dt.u != 0)
    ensures if dt.u == 0 then w.tail.digits == "" else IsField(w.tail.digits, 6) && DecimalValue(w.tail.digits) == dt.u
  {
    hide Decimal, Pad2, PadTo, DecimalValue;
    TwoDigits(dt.M);
    TwoDigits(dt.D);
    TwoDigits(dt.h);
    TwoDigits(dt.m);
    TwoDigits(dt.s);
    if dt.u != 0 { PadToValue(dt.u, 6); }
    var tail := Fraction(dt.u != 0, if dt.u == 0 then "" else PadTo(dt.u, 6));
    w := Written(Decimal(dt.Y), false, Pad2(dt.M), false, Pad2(dt.D), 'T', Pad2(dt.h), true, Pad2(dt.m), true, Pad2(dt.s), tail);
    FormJoined(w);
    FormJoined(w.(tail := Fraction(false, "")));
    assert SecondsText(dt) + "" == SecondsText(dt);
  }

  lemma FormJoined(w: Written)
    requires !w.dash1 && !w.dash2 && w.t == 'T' && w.colon1 && w.colon2
    ensures WrittenText(w) == (w.Y + w.M + w.D + "T" + w.h + ":" + w.m + ":" + w.s) + TailText(w.tail)
  {
    hide TailText;
    var date := w.Y + w.M + w.D;
    assert WrittenText(w) == date + ("T" + TimeText(w));
    assert TimeText(w) == (w.h + ":" + w.m + ":" + w.s) + TailText(w.tail);
  }
}
