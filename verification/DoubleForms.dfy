/** The shape of printed doubles: no digit too many. */
module DoubleForms {
  import opened Text
  import opened Doubles

  ghost predicate EndsPlain(s: string) { s != "" ==> s[|s| - 1] != '0' }

  lemma NextPrecision(n: nat)
    ensures Precision(n + 1) == 10.0 * Precision(n)
  {}

  /** The digits after the point stop at the last one that is not zero, and with the whole
      digits there are no more than sixteen. */
  lemma {:induction false} FractionShort(d: real, n: nat)
    requires -Precision(n) <= d < 1.0
    ensures EndsPlain(FractionDigits(d, n)) && (n <= 16 ==> |FractionDigits(d, n)| <= 16 - n) && (n > 16 ==> FractionDigits(d, n) == "")
    ensures FractionDigits(d, n) == "" <==> d <= Precision(n)
    decreases 16 - n
  {
    if d > Precision(n) {
      FewerDigits(d, n);
      NextPrecision(n);
      var digit := LeadDigit(d * 10.0, Precision(n));
      FractionShort(d * 10.0 - digit as real, n + 1);
    }
  }

  lemma {:induction false} SignificantShort(d: real, n: nat)
    requires -Precision(n) <= d < 10.0
    ensures EndsPlain(SignificantDigits(d, n)) && (n <= 17 ==> |SignificantDigits(d, n)| <= 17 - n) && (n > 17 ==> SignificantDigits(d, n) == "")
    ensures SignificantDigits(d, n) == "" <==> d <= Precision(n)
    decreases 17 - n
  {
    if d > Precision(n) {
      FewerDigits(d, n);
      NextPrecision(n);
      var digit := LeadDigit(d, Precision(n));
      SignificantShort((d - digit as real) * 10.0, n + 1);
    }
  }

  lemma {:induction false} FractionTextShort(v: real)
    requires 0.0 < v < 1.0
    ensures FractionText(v) != "" && EndsPlain(FractionText(v))
    decreases (1.0 / v).Floor
  {
    hide SignificantDigits, Precision;
    ZerosEnd(v);
    if v * 10.0 < 1.0 {
      FractionTextShort(v * 10.0);
      ZeroInFront(FractionText(v * 10.0));
    } else {
      FirstShort(v * 10.0);
    }
  }

  lemma ZeroInFront(s: string)
    requires s != "" && EndsPlain(s)
    ensures EndsPlain("0" + s)
  {
    assert ("0" + s)[|s|] == s[|s| - 1];
  }

  lemma FirstShort(d: real)
    requires 1.0 <= d < 10.0 && -Precision(0) <= d
    ensures SignificantDigits(d, 0) != "" && EndsPlain(SignificantDigits(d, 0))
  {
    hide SignificantDigits;
    SignificantShort(d, 0);
    assert Precision(0) < 1.0;
  }

  /** A printed double with a point ends in a digit other than zero. */
  lemma NoDigitTooMany(v: real)
    requires Printable(v)
    ensures var t := FloatText(v); '.' in t ==> t[|t| - 1] in {'1', '2', '3', '4', '5', '6', '7', '8', '9'}
  {
    hide MagnitudeText, WholeDigits, WholeAmount, Precision;
    var a := Abs(v);
    MagnitudeEnds(a);
    var t, m := FloatText(v), MagnitudeText(a);
    assert m != "" && t[|t| - 1] == m[|m| - 1];
    if '.' in t { assert '.' in m; }
  }

  lemma MagnitudeEnds(a: real)
    requires a >= 0.0 && Printable(a)
    ensures var m := MagnitudeText(a);
      m != "" && ('.' in m ==> m[|m| - 1] in {'1', '2', '3', '4', '5', '6', '7', '8', '9'})
  {
    hide Precision, WholeAmount, WholeDigits, FractionDigits, FractionText;
    var m := MagnitudeText(a);
    if a < 1.0 {
      if a > 0.0 {
        FractionTextShort(a);
        LastDigit(FractionText(a));
      }
    } else {
      var rest := a - WholeAmount(a) as real;
      if rest > Precision(WholeDigits(a)) {
        FractionFits(a);
        FractionShort(rest, WholeDigits(a));
        LastDigit(FractionDigits(rest, WholeDigits(a)));
      } else {
        DigitsOnly(Decimal(WholeAmount(a)));
      }
    }
  }

  lemma LastDigit(s: string)
    requires AllDigits(s) && s != "" && EndsPlain(s)
    ensures s[|s| - 1] in {'1', '2', '3', '4', '5', '6', '7', '8', '9'}
  {
    assert IsDigit(s[|s| - 1]);
  }

  lemma DigitsOnly(s: string)
    requires AllDigits(s)
    ensures '.' !in s
  {}
}
