/** Numerals with a decimal point. */
module Numerals {
  import opened Text

  function Periods(w: string): nat {
    if w == "" then 0 else (if w[0] == '.' then 1 else 0) + Periods(w[1..])
  }

  /** Digits with at most one decimal point among them. */
  predicate IsFloatBody(w: string) {
    && (forall i :: 0 <= i < |w| ==> IsDigit(w[i]) || w[i] == '.')
    && (exists i :: 0 <= i < |w| && IsDigit(w[i]))
    && Periods(w) <= 1
  }

  lemma {:induction false} PeriodsSplit(a: string, b: string)
    ensures Periods(a + b) == Periods(a) + Periods(b)
  {
    if a == "" {
      assert a + b == b;
    } else {
      PeriodsSplit(a[1..], b);
      assert (a + b)[1..] == a[1..] + b;
    }
  }

  lemma PeriodsUpTo(m: string, n: nat)
    requires n < |m|
    ensures Periods(m[..n + 1]) == Periods(m[..n]) + if m[n] == '.' then 1 else 0
    ensures Periods(m[..n + 1]) <= Periods(m)
  {
    assert m[..n + 1] == m[..n] + [m[n]];
    PeriodsSplit(m[..n], [m[n]]);
    assert m == m[..n + 1] + m[n + 1..];
    PeriodsSplit(m[..n + 1], m[n + 1..]);
  }

  lemma NoPeriods(s: string)
    requires s == ""
    ensures Periods(s) == 0
  {}

  /** Where the decimal point is. */
  function PointAt(m: string): (n: nat)
    ensures n <= |m|
    ensures forall i :: 0 <= i < n ==> m[i] != '.'
    ensures n < |m| ==> m[n] == '.'
  {
    if m == "" || m[0] == '.' then 0 else 1 + PointAt(m[1..])
  }

  lemma {:induction false} OnePoint(m: string)
    requires IsFloatBody(m)
    ensures AllDigits(m[..PointAt(m)])
    ensures PointAt(m) < |m| ==> AllDigits(m[PointAt(m) + 1..])
  {
    var n := PointAt(m);
    if n < |m| {
      assert m == m[..n + 1] + m[n + 1..];
      PeriodsSplit(m[..n + 1], m[n + 1..]);
      PeriodsSplit(m[..n], ['.']);
      assert m[..n + 1] == m[..n] + ['.'];
      forall i | n + 1 <= i < |m| ensures m[i] != '.' {
        assert m[n + 1..] == m[n + 1..i] + m[i..];
        PeriodsSplit(m[n + 1..i], m[i..]);
      }
    }
  }

  /** The value of decimal digits after a decimal point. */
  function FractionValue(digits: string): real
    requires AllDigits(digits)
  {
    if digits == "" then 0.0
    else (DigitValue(digits[0]) as real + FractionValue(digits[1..])) / 10.0
  }

  /** The number such a numeral denotes. */
  function BodyValue(m: string): (x: real)
    requires IsFloatBody(m)
    ensures x >= 0.0
  {
    OnePoint(m);
    var n := PointAt(m);
    FractionRange(if n < |m| then m[n + 1..] else "");
    DecimalValue(m[..n]) as real + FractionValue(if n < |m| then m[n + 1..] else "")
  }

  lemma {:induction false} FractionRange(digits: string)
    requires AllDigits(digits)
    ensures 0.0 <= FractionValue(digits) < 1.0
  {
    if digits != "" {
      FractionRange(digits[1..]);
    }
  }
}
