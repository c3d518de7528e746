/** The decimal printer for doubles of xmlrpc-c/src/double.c and the strict parser of
xmlrpc-c/src/parse_value.c, over exact real numbers. */
module Doubles {
  import opened Text
  import opened Numerals

  const EPSILON := 1.0 / 4503599627370496.0  // DBL_EPSILON

  /** The precision left after `n` digits. */
  function Precision(n: nat): (p: real)
    ensures p > 0.0
  {
    if n == 0 then EPSILON else Precision(n - 1) * 10.0
  }

  lemma PrecisionBounds()
    ensures Precision(14) <= 0.1 < Precision(15) < 1.0 < 2.0 < Precision(16) < 3.0 < 10.0 < Precision(17)
  {
    assert Precision(5) == EPSILON * 100000.0;
    assert Precision(10) == EPSILON * 10000000000.0;
    assert Precision(14) == EPSILON * 100000000000000.0;
  }

  lemma {:induction false} PrecisionGrows(n: nat, m: nat)
    requires n <= m
    ensures Precision(n) <= Precision(m)
  {
    if n < m {
      PrecisionGrows(n, m - 1);
    }
  }

  function Abs(x: real): real { if x < 0.0 then -x else x }

  /** The source's leadDigit(): biased up, so that a digit a hair below the next
      one prints as the next one. */
  function LeadDigit(arg: real, precision: real): (d: nat)
    requires arg + precision >= 0.0
    ensures d < 10
    ensures arg - d as real >= -precision
    ensures arg < 10.0 && precision > 0.0 ==> arg - d as real < 1.0
  {
    var d := (arg + precision).Floor;
    if d < 9 then d else 9
  }

  // ---------------------------------------------------------------------
  // The whole part

  lemma TenthIsSmaller(v: real)
    requires v >= 1.0
    ensures 0 <= (v / 10.0).Floor < v.Floor
  {}

  /** How many digits a number has before the decimal point. */
  function WholeDigits(v: real): nat
    requires v >= 0.0
    decreases v.Floor
  {
    if v < 1.0 then 0 else TenthIsSmaller(v); 1 + WholeDigits(v / 10.0)
  }

  lemma AmountBelow(v: real, amount: nat)
    requires v >= 1.0
    requires v / 10.0 - amount as real >= -Precision(WholeDigits(v / 10.0))
    ensures v - (amount * 10) as real + Precision(WholeDigits(v / 10.0)) * 10.0 >= 0.0
    ensures WholeDigits(v) == 1 + WholeDigits(v / 10.0)
    ensures Precision(WholeDigits(v)) == Precision(WholeDigits(v / 10.0)) * 10.0
  {
    TenthIsSmaller(v);
  }

  /** The whole number printed before the decimal point. From the 16th digit on the
      digits are zeros: they are below the precision of a double. */
  function WholeAmount(v: real): (amount: nat)
    requires v >= 0.0
    ensures v - amount as real >= -Precision(WholeDigits(v))
    decreases v.Floor
  {
    if v < 1.0 then 0
    else
      TenthIsSmaller(v);
      var amount := WholeAmount(v / 10.0);
      var p := Precision(WholeDigits(v / 10.0));
      AmountBelow(v, amount);
      amount * 10 + if p > 0.1 then 0 else LeadDigit(v - (amount * 10) as real, p * 10.0)
  }

  /** With at most 15 whole digits, less than one is left for the fraction. */
  lemma {:induction false} WholeIsClose(v: real)
    requires v >= 0.0 && WholeDigits(v) <= 15
    ensures v - WholeAmount(v) as real < 1.0
    decreases v.Floor
  {
    if v >= 1.0 {
      TenthIsSmaller(v);
      WholeIsClose(v / 10.0);
      AmountBelow(v, WholeAmount(v / 10.0));
      PrecisionBounds();
      PrecisionGrows(WholeDigits(v / 10.0), 14);
    }
  }

  lemma {:induction false} DigitsBound(v: real, n: nat)
    requires v >= 0.0
    ensures WholeDigits(v) <= n <==> v < Pow10(n) as real
    decreases v.Floor
  {
    Pow10Grows(n, n);
    if v >= 1.0 {
      TenthIsSmaller(v);
      if n > 0 {
        DigitsBound(v / 10.0, n - 1);
      }
    }
  }

  // ---------------------------------------------------------------------
  // The fraction

  /** The digits after the decimal point of a number with a whole part, from the
      rest `d`, when `n` digits of the precision are used up. */
  function FractionDigits(d: real, n: nat): (s: string)
    requires -Precision(n) <= d < 1.0
    ensures AllDigits(s)
    decreases 16 - n
  {
    if d <= Precision(n) then ""
    else
      FewerDigits(d, n);
      var digit := LeadDigit(d * 10.0, Precision(n));
      [DigitChar(digit)] + FractionDigits(d * 10.0 - digit as real, n + 1)
  }

  lemma FewerDigits(d: real, n: nat)
    requires Precision(n) < d
    ensures d < 1.0 ==> n < 16
    ensures d < 10.0 ==> n < 17
  {
    PrecisionBounds();
    if n >= 16 { PrecisionGrows(16, n); }
    if n >= 17 { PrecisionGrows(17, n); }
  }

  lemma {:induction false} FractionDigitsAccurate(d: real, n: nat)
    requires -Precision(n) <= d < 1.0
    ensures Abs(d - FractionValue(FractionDigits(d, n))) <= Precision(n)
    decreases 16 - n
  {
    if d > Precision(n) {
      FewerDigits(d, n);
      var digit := LeadDigit(d * 10.0, Precision(n));
      var rest := FractionDigits(d * 10.0 - digit as real, n + 1);
      FractionDigitsAccurate(d * 10.0 - digit as real, n + 1);
      assert ([DigitChar(digit)] + rest)[1..] == rest;
    }
  }

  /** The digits that follow the leading zeros of a fraction; the first is before
      the decimal point of `d`. */
  function SignificantDigits(d: real, n: nat): (s: string)
    requires -Precision(n) <= d < 10.0
    ensures AllDigits(s)
    decreases 17 - n
  {
    if d <= Precision(n) then ""
    else
      FewerDigits(d, n);
      var digit := LeadDigit(d, Precision(n));
      [DigitChar(digit)] + SignificantDigits((d - digit as real) * 10.0, n + 1)
  }

  lemma {:induction false} SignificantDigitsAccurate(d: real, n: nat)
    requires -Precision(n) <= d < 10.0
    ensures Abs(d / 10.0 - FractionValue(SignificantDigits(d, n))) <= Precision(n) / 10.0
    decreases 17 - n
  {
    if d > Precision(n) {
      FewerDigits(d, n);
      var digit := LeadDigit(d, Precision(n));
      var rest := SignificantDigits((d - digit as real) * 10.0, n + 1);
      SignificantDigitsAccurate((d - digit as real) * 10.0, n + 1);
      assert ([DigitChar(digit)] + rest)[1..] == rest;
    }
  }

  lemma ZerosEnd(d: real)
    requires 0.0 < d < 1.0
    ensures 0 <= (1.0 / (d * 10.0)).Floor < (1.0 / d).Floor
  {
    assert 1.0 / d > 1.0;
    assert 1.0 / (d * 10.0) == (1.0 / d) / 10.0;
    TenthIsSmaller(1.0 / d);
  }

  /** The digits after the decimal point of a number below one. */
  function FractionText(v: real): (s: string)
    requires 0.0 < v < 1.0
    ensures AllDigits(s)
    decreases (1.0 / v).Floor
  {
    ZerosEnd(v);
    if v * 10.0 < 1.0 then "0" + FractionText(v * 10.0) else SignificantDigits(v * 10.0, 0)
  }

  lemma TenthAsAccurate(v: real, t: real)
    requires Abs(v * 10.0 - t) <= EPSILON * (v * 10.0)
    ensures Abs(v - t / 10.0) <= EPSILON * v
  {
    assert EPSILON * (v * 10.0) == EPSILON * v * 10.0;
  }

  lemma {:induction false} FractionTextAccurate(v: real)
    requires 0.0 < v < 1.0
    ensures Abs(v - FractionValue(FractionText(v))) <= EPSILON * v
    decreases (1.0 / v).Floor
  {
    hide SignificantDigits, Abs;
    ZerosEnd(v);
    if v * 10.0 < 1.0 {
      FractionTextAccurate(v * 10.0);
      assert FractionText(v)[1..] == FractionText(v * 10.0);
      TenthAsAccurate(v, FractionValue(FractionText(v * 10.0)));
    } else {
      FirstDigitAccurate(v);
    }
  }

  lemma FirstDigitAccurate(v: real)
    requires 1.0 <= v * 10.0 < 10.0
    ensures Abs(v - FractionValue(SignificantDigits(v * 10.0, 0))) <= EPSILON * v
  {
    hide SignificantDigits, FractionValue;
    SignificantDigitsAccurate(v * 10.0, 0);
    assert EPSILON * (v * 10.0) >= EPSILON;
  }

  // ---------------------------------------------------------------------
  // The whole text

  /** The assertion in floatFractionPart() holds: the zeros in place of digits below
      the precision have not left one or more for the fraction. */
  predicate Printable(v: real) {
    var a := Abs(v);
    WholeDigits(a) <= 15 || a - WholeAmount(a) as real <= Precision(WholeDigits(a))
  }

  lemma FractionFits(a: real)
    requires a >= 0.0 && a - WholeAmount(a) as real > Precision(WholeDigits(a))
    ensures Printable(a) <==> a - WholeAmount(a) as real < 1.0
  {
    if WholeDigits(a) <= 15 {
      WholeIsClose(a);
    } else {
      PrecisionBounds();
      PrecisionGrows(16, WholeDigits(a));
    }
  }

  function MagnitudeText(a: real): string
    requires a >= 0.0 && Printable(a)
  {
    if a < 1.0 then
      if a > 0.0 then "0." + FractionText(a) else "0"
    else
      var rest := a - WholeAmount(a) as real;
      if rest > Precision(WholeDigits(a)) then
        FractionFits(a);
        Decimal(WholeAmount(a)) + "." + FractionDigits(rest, WholeDigits(a))
      else
        Decimal(WholeAmount(a))
  }

  function FloatText(v: real): string
    requires Printable(v)
  {
    if v < 0.0 then "-" + MagnitudeText(-v) else MagnitudeText(v)
  }

  function Pow2(n: nat): nat { if n == 0 then 1 else 2 * Pow2(n - 1) }

  /** DBL_MAX */
  function MaxDouble(): real { (0x1f_ffff_ffff_ffff * Pow2(971)) as real }

  /** parseDoubleString(): a decimal numeral with an optional sign, no exponent and no
      blanks. */
  function StrictDouble(s: string): Option<real> {
    var m := Unsigned(s);
    if !IsFloatBody(m) || BodyValue(m) > MaxDouble() then None
    else Some(if s[0] == '-' then -BodyValue(m) else BodyValue(m))
  }

  lemma DigitsHaveNoPeriod(s: string)
    requires AllDigits(s)
    ensures Periods(s) == 0
  {}

  lemma {:induction false} PointAfter(whole: string, rest: string)
    requires AllDigits(whole) && (rest == "" || rest[0] == '.')
    ensures PointAt(whole + rest) == |whole|
  {
    if whole == "" {
      assert whole + rest == rest;
    } else {
      PointAfter(whole[1..], rest);
      assert (whole + rest)[1..] == whole[1..] + rest;
    }
  }

  lemma WholeNumeral(whole: string)
    requires AllDigits(whole) && whole != ""
    ensures IsFloatBody(whole) && BodyValue(whole) == DecimalValue(whole) as real
  {
    DigitsHaveNoPeriod(whole);
    assert IsDigit(whole[0]);
    PointAfter(whole, "");
    assert whole + "" == whole && whole[..|whole|] == whole;
  }

  lemma PointNumeral(whole: string, fraction: string)
    requires AllDigits(whole) && whole != "" && AllDigits(fraction)
    ensures var m := whole + "." + fraction;
      IsFloatBody(m) && BodyValue(m) == DecimalValue(whole) as real + FractionValue(fraction)
  {
    var m := whole + "." + fraction;
    DigitsHaveNoPeriod(whole);
    DigitsHaveNoPeriod(fraction);
    PeriodsSplit(whole + ".", fraction);
    PeriodsSplit(whole, ".");
    assert IsDigit(m[0]);
    PointAfter(whole, "." + fraction);
    assert m == whole + ("." + fraction);
    assert m[..|whole|] == whole && m[|whole| + 1..] == fraction;
  }

  /** The precision the printed text is good for: relative below one, and otherwise one
      unit of the double's precision for each whole digit. */
  function Tolerance(a: real): real
    requires a >= 0.0
  {
    if a < 1.0 then EPSILON * a else Precision(WholeDigits(a))
  }

  lemma MagnitudeAccurate(a: real)
    requires a >= 0.0 && Printable(a)
    ensures IsFloatBody(MagnitudeText(a)) && IsDigit(MagnitudeText(a)[0])
    ensures Abs(BodyValue(MagnitudeText(a)) - a) <= Tolerance(a)
  {
    hide IsFloatBody, BodyValue, FractionText, FractionDigits, WholeAmount, Decimal;
    if a < 1.0 {
      WholeNumeral("0");
      assert DecimalValue("0") == 0;
      if a > 0.0 {
        FractionTextAccurate(a);
        PointNumeral("0", FractionText(a));
        assert "0" + "." + FractionText(a) == "0." + FractionText(a);
      }
    } else {
      DecimalRoundTrip(WholeAmount(a));
      var whole := Decimal(WholeAmount(a));
      var rest := a - WholeAmount(a) as real;
      WholeNumeral(whole);
      if rest > Precision(WholeDigits(a)) {
        FractionFits(a);
        FractionDigitsAccurate(rest, WholeDigits(a));
        PointNumeral(whole, FractionDigits(rest, WholeDigits(a)));
      }
    }
  }

  /** Every text printed is a numeral of the strict form, and the number it denotes is
      as near to the one printed as the precision of a double allows. */
  lemma FloatTextAccurate(v: real)
    requires Printable(v)
    ensures var m := Unsigned(FloatText(v));
      && IsFloatBody(m)
      && Abs((if FloatText(v)[0] == '-' then -BodyValue(m) else BodyValue(m)) - v) <= Tolerance(Abs(v))
  {
    hide IsFloatBody, BodyValue, MagnitudeText, Tolerance;
    MagnitudeAccurate(Abs(v));
    assert ("-" + MagnitudeText(Abs(v)))[1..] == MagnitudeText(Abs(v));
  }

  lemma {:induction false} PowerOfTwoPositive(n: nat)
    ensures Pow2(n) >= 1
  {
    if n > 0 { PowerOfTwoPositive(n - 1); }
  }

  const TEN_TO_15: real := 1000000000000000.0

  lemma FifteenDigits(a: real)
    requires 0.0 <= a < TEN_TO_15
    ensures WholeDigits(a) <= 15 && Tolerance(a) < 1.0 && a + Tolerance(a) < MaxDouble()
  {
    assert Pow10(5) == 100000;
    assert Pow10(10) == 10000000000;
    assert Pow10(15) == 1000000000000000;
    DigitsBound(a, 15);
    PrecisionBounds();
    PrecisionGrows(WholeDigits(a), 15);
    PowerOfTwoPositive(971);
    assert a < 1.0 ==> EPSILON * a <= EPSILON;
    hide Pow2;
    assert MaxDouble() >= 0x1f_ffff_ffff_ffff as real;
  }

  /** Every number below 10^15 is printed, and what the strict parser reads back
      differs from it by at most EPSILON for each power of ten before the decimal
      point, or by at most EPSILON of itself if it is below one. */
  lemma PrintedReadsBack(v: real)
    requires Abs(v) < TEN_TO_15
    ensures Printable(v) && StrictDouble(FloatText(v)).Some?
    ensures Abs(StrictDouble(FloatText(v)).value - v) <= Tolerance(Abs(v))
  {
    hide IsFloatBody, BodyValue, FloatText, Tolerance, MaxDouble, WholeDigits;
    FifteenDigits(Abs(v));
    FloatTextAccurate(v);
  }

  // ---------------------------------------------------------------------
  // Which numbers print

  /** Up to 15 digits, the whole part that is printed is the number itself, biased up by
      the precision and cut, but never more digits than the number has. */
  lemma {:induction false} WholeIsFloor(v: real)
    requires v >= 0.0 && WholeDigits(v) <= 15
    ensures var n := WholeDigits(v);
      WholeAmount(v) == Lesser(Pow10(n) - 1, (v + Precision(n)).Floor)
    decreases v.Floor
  {
    hide WholeAmount, WholeDigits, Precision, Pow10, LeadDigit, Lesser;
    if v < 1.0 {
      NoWholeDigits(v);
    } else {
      TenthIsSmaller(v);
      var w := v / 10.0;
      var m := WholeDigits(w);
      NextDigits(v);
      WholeIsFloor(w);
      AmountStep(v);
      PrecisionBounds();
      PrecisionGrows(m, 14);
      NextPrecision(m);
      NextPower(m);
      LastDigit(v, Precision(m), WholeAmount(w), Pow10(m));
    }
  }

  lemma NoWholeDigits(v: real)
    requires 0.0 <= v < 1.0
    ensures WholeDigits(v) == 0 && WholeAmount(v) == Lesser(Pow10(0) - 1, (v + Precision(0)).Floor)
  {}

  lemma NextPower(n: nat)
    ensures Pow10(n + 1) == 10 * Pow10(n)
  {}

  function Lesser(a: int, b: int): int { if a < b then a else b }

  lemma LastDigit(v: real, p: real, amount: nat, power: nat)
    requires v >= 1.0 && p > 0.0 && amount == Lesser(power - 1, (v / 10.0 + p).Floor)
    requires v - (amount * 10) as real + p * 10.0 >= 0.0
    ensures amount * 10 + LeadDigit(v - (amount * 10) as real, p * 10.0) == Lesser(10 * power - 1, (v + p * 10.0).Floor)
  {
    var f, g := (v / 10.0 + p).Floor, (v + p * 10.0).Floor;
    assert v + p * 10.0 == (v / 10.0 + p) * 10.0;
    assert 10 * f <= g <= 10 * f + 9;
    assert v - (amount * 10) as real + p * 10.0 == (v + p * 10.0) - (amount * 10) as real;
    assert (v - (amount * 10) as real + p * 10.0).Floor == g - amount * 10;
  }

  lemma NextDigits(v: real)
    requires v >= 1.0
    ensures WholeDigits(v) == WholeDigits(v / 10.0) + 1
  {
    TenthIsSmaller(v);
  }

  /** A number `a` of `n` whole digits is as near as its precision to the 15-digit number
      `k` with zeros after it. */
  predicate Near(a: real, k: nat, n: nat)
    requires n >= 15
  {
    k < Pow10(15) && Abs(a - (k * Pow10(n - 15)) as real) <= Precision(n)
  }

  lemma {:induction false} RestIffNear(v: real)
    requires v >= 0.0 && WholeDigits(v) >= 15
    ensures v - WholeAmount(v) as real <= Precision(WholeDigits(v)) <==> exists k: nat :: Near(v, k, WholeDigits(v))
    decreases v.Floor
  {
    hide WholeAmount, WholeDigits, Precision, Pow10;
    var n := WholeDigits(v);
    if n == 15 {
      FifteenNear(v);
    } else {
      assert v >= 1.0 by { Below(v); }
      NextDigits(v);
      TenthIsSmaller(v);
      var w, m := v / 10.0, n - 1;
      RestIffNear(w);
      NoDigit(v);
      NextPrecision(m);
      forall k: nat ensures Near(v, k, n) <==> Near(w, k, m) { NearTenth(v, k, n); }
      if k: nat :| Near(w, k, m) { assert Near(v, k, n); }
      if k: nat :| Near(v, k, n) { assert Near(w, k, m); }
    }
  }

  lemma NearTenth(v: real, k: nat, n: nat)
    requires n >= 16
    ensures Near(v, k, n) <==> Near(v / 10.0, k, n - 1)
  {
    hide Precision;
    NextPrecision(n - 1);
    var unit := Pow10(n - 16);
    assert Pow10(n - 15) == 10 * unit;
    assert (k * (10 * unit)) == 10 * (k * unit);
    hide Pow10;
    assert v - (k * Pow10(n - 15)) as real == 10.0 * (v / 10.0 - (k * unit) as real);
  }

  lemma FifteenNear(v: real)
    requires v >= 0.0 && WholeDigits(v) == 15
    ensures v - WholeAmount(v) as real <= Precision(15) <==> exists k: nat :: Near(v, k, 15)
  {
    hide WholeDigits, Precision, WholeAmount;
    WholeIsFloor(v);
    assert Pow10(0) == 1;
    Pow10Grows(15, 15);
    hide Pow10;
    var amount := WholeAmount(v);
    if v - amount as real <= Precision(15) {
      assert amount * Pow10(0) == amount;
      assert Near(v, amount, 15);
    }
    if k: nat :| Near(v, k, 15) {
      assert k * Pow10(0) == k;
      assert k <= (v + Precision(15)).Floor;
    }
  }

  lemma Below(v: real)
    ensures 0.0 <= v < 1.0 ==> WholeDigits(v) == 0 && WholeAmount(v) == 0
  {}

  /** From the 16th digit on there are only zeros. */
  lemma NoDigit(v: real)
    requires v >= 1.0 && WholeDigits(v) >= 16
    ensures WholeAmount(v) == WholeAmount(v / 10.0) * 10
  {
    hide WholeAmount, Precision;
    AmountStep(v);
    NextDigits(v);
    PrecisionBounds();
    PrecisionGrows(15, WholeDigits(v / 10.0));
  }

  /** A number prints, with all assertions of the source holding, if and only if it has at
      most 15 whole digits or is as near as its precision to a number whose digits after
      the 15th are zeros. */
  lemma PrintableIffNear(v: real)
    ensures var n := WholeDigits(Abs(v));
      Printable(v) <==> n <= 15 || exists k: nat :: Near(Abs(v), k, n)
  {
    hide WholeDigits, WholeAmount, Precision, Near;
    if WholeDigits(Abs(v)) > 15 { RestIffNear(Abs(v)); }
  }

  /** Of the whole numbers of 16 digits, those print whose last digit is within two of a
      multiple of ten, as long as that multiple has 16 digits too. */
  lemma SixteenDigits(m: nat)
    requires 1000000000000000 <= m < 10000000000000000
    ensures Printable(m as real) <==> m % 10 <= 2 || (m % 10 >= 8 && m / 10 < 999999999999999)
  {
    var v := m as real;
    SixteenPowers();
    DigitsBound(v, 15);
    DigitsBound(v, 16);
    hide WholeDigits, Precision, Printable;
    assert WholeDigits(v) == 16 && Abs(v) == v;
    PrintableIffNear(v);
    PrecisionBounds();
    hide Pow10;
    forall k: nat ensures Near(v, k, 16) <==> k < 1000000000000000 && -2 <= m - 10 * k <= 2 { NearWhole(m, k); }
    var q := m / 10;
    if m % 10 <= 2 { assert Near(v, q, 16); }
    if m % 10 >= 8 && q < 999999999999999 { assert Near(v, q + 1, 16); }
    if k: nat :| Near(v, k, 16) { assert k == q || k == q + 1; }
  }

  lemma SixteenPowers()
    ensures Pow10(1) == 10 && Pow10(15) == 1000000000000000 && Pow10(16) == 10000000000000000
  {
    assert Pow10(5) == 100000;
    assert Pow10(10) == 10000000000;
  }

  lemma NearWhole(m: nat, k: nat)
    ensures Near(m as real, k, 16) <==> k < 1000000000000000 && -2 <= m - 10 * k <= 2
  {
    SixteenPowers();
    PrecisionBounds();
    hide Pow10, Precision;
    assert m as real - (k * Pow10(1)) as real == (m - 10 * k) as real;
  }

  /** The bound of 15 digits is a real one: this number of 16 digits fails the source's
      assertion, because five is left over and counts as a fraction. */
  lemma SixteenDigitsFail()
    ensures !Printable(1000000000000005.0)
  {
    hide Printable;
    SixteenDigits(1000000000000005);
  }

  // ---------------------------------------------------------------------
  // The printer

  /** A buffer that grows by 64 bytes when it is full. */
  class Buffer {
    var bytes: array<char>
    var next: nat

    ghost predicate Valid()
      reads this
    {
      next <= bytes.Length
    }

    ghost function Contents(): string
      requires Valid()
      reads this, bytes
    {
      bytes[..next]
    }

    constructor ()
      ensures Valid() && fresh(bytes) && Contents() == ""
    {
      bytes := new char[64];
      next := 0;
    }

    /** bufferConcat() */
    method Concat(c: char)
      requires Valid()
      modifies this, bytes
      ensures Valid() && (bytes == old(bytes) || fresh(bytes))
      ensures Contents() == old(Contents()) + [c]
    {
      if next >= bytes.Length {
        var bigger := new char[bytes.Length + 64];
        forall i | 0 <= i < bytes.Length { bigger[i] := bytes[i]; }
        bytes := bigger;
        assert bytes[..next] == old(Contents());
      }
      bytes[next] := c;
      next := next + 1;
    }
  }

  /** floatWhole(): the digits of the whole part. The first digit is never zero. */
  method FloatWhole(value: real, out: Buffer) returns (amount: nat, precision: real)
    requires value >= 0.0 && out.Valid()
    modifies out, out.bytes
    ensures out.Valid() && (out.bytes == old(out.bytes) || fresh(out.bytes))
    ensures amount == WholeAmount(value) && precision == Precision(WholeDigits(value))
    ensures out.Contents() == old(out.Contents()) + if value < 1.0 then "" else Decimal(amount)
    ensures amount == 0 <==> value < 1.0
    decreases value.Floor
  {
    if value < 1.0 {
      amount, precision := 0, EPSILON;
      assert out.Contents() + "" == out.Contents();
    } else {
      TenthIsSmaller(value);
      hide WholeDigits, Precision, Decimal, Abs, WholeAmount, LeadDigit, DigitChar, DigitValue;
      var nonLeastAmount, nonLeastPrecision := FloatWhole(value / 10.0, out);
      AmountBelow(value, nonLeastAmount);
      AmountStep(value);
      var leastValue: nat;
      if nonLeastPrecision > 0.1 {
        leastValue := 0;
      } else {
        leastValue := LeadDigit(value - (nonLeastAmount * 10) as real, nonLeastPrecision * 10.0);
      }
      amount := nonLeastAmount * 10 + leastValue;
      precision := nonLeastPrecision * 10.0;
      assert amount > 0 by { FirstDigit(value); }
      AppendDigit(nonLeastAmount, leastValue, old(out.Contents()), out);
    }
  }

  method AppendDigit(n: nat, d: nat, ghost start: string, out: Buffer)
    requires d < 10 && n * 10 + d > 0 && out.Valid()
    requires out.Contents() == start + if n == 0 then "" else Decimal(n)
    modifies out, out.bytes
    ensures out.Valid() && (out.bytes == old(out.bytes) || fresh(out.bytes))
    ensures out.Contents() == start + Decimal(n * 10 + d)
  {
    hide Decimal;
    DecimalDigit(n, d);
    Assoc(start, if n == 0 then "" else Decimal(n), [DigitChar(d)]);
    out.Concat(DigitChar(d));
  }

  lemma AmountStep(v: real)
    requires v >= 1.0
    ensures v - (WholeAmount(v / 10.0) * 10) as real + Precision(WholeDigits(v / 10.0)) * 10.0 >= 0.0
    ensures WholeAmount(v) == WholeAmount(v / 10.0) * 10 +
              if Precision(WholeDigits(v / 10.0)) > 0.1 then 0
              else LeadDigit(v - (WholeAmount(v / 10.0) * 10) as real, Precision(WholeDigits(v / 10.0)) * 10.0)
  {
    TenthIsSmaller(v);
    AmountBelow(v, WholeAmount(v / 10.0));
  }

  lemma DecimalDigit(n: nat, d: nat)
    requires d < 10
    ensures n * 10 + d > 0 ==> Decimal(n * 10 + d) == (if n == 0 then "" else Decimal(n)) + [DigitChar(d)]
  {
    assert (n * 10 + d) / 10 == n && (n * 10 + d) % 10 == d;
  }

  lemma FirstDigit(v: real)
    requires v >= 1.0
    ensures WholeAmount(v) > 0
    decreases v.Floor
  {
    TenthIsSmaller(v);
    AmountBelow(v, WholeAmount(v / 10.0));
    if v >= 10.0 { FirstDigit(v / 10.0); }
  }

  /** floatFractionPart() */
  method FloatFractionPart(value: real, ghost n: nat, wholePrecision: real, out: Buffer)
    requires wholePrecision == Precision(n) && -wholePrecision <= value < 1.0 && out.Valid()
    modifies out, out.bytes
    ensures out.Valid() && (out.bytes == old(out.bytes) || fresh(out.bytes))
    ensures out.Contents() == old(out.Contents()) + FractionDigits(value, n)
  {
    hide Precision;
    var d, precision := value, wholePrecision;
    ghost var k := n;
    while d > precision
      invariant out.Valid() && (out.bytes == old(out.bytes) || fresh(out.bytes))
      invariant precision == Precision(k) && -precision <= d < 1.0
      invariant out.Contents() + FractionDigits(d, k) == old(out.Contents()) + FractionDigits(value, n)
      decreases 16 - k as int
    {
      FewerDigits(d, k);
      NextPrecision(k);
      ghost var before := out.Contents();
      d := d * 10.0;
      var digitValue := LeadDigit(d, precision);
      d := d - digitValue as real;
      assert d < 1.0;
      out.Concat(DigitChar(digitValue));
      precision := precision * 10.0;
      k := k + 1;
      Assoc(before, [DigitChar(digitValue)], FractionDigits(d, k));
    }
    assert out.Contents() + "" == out.Contents();
  }

  lemma NextPrecision(n: nat)
    ensures Precision(n + 1) == Precision(n) * 10.0
  {}

  /** floatFraction() */
  method FloatFraction(value: real, out: Buffer)
    requires 0.0 < value < 1.0 && out.Valid()
    modifies out, out.bytes
    ensures out.Valid() && (out.bytes == old(out.bytes) || fresh(out.bytes))
    ensures out.Contents() == old(out.Contents()) + FractionText(value)
  {
    hide Precision, SignificantDigits;
    ghost var start := out.Contents();
    var d := value * 10.0;
    ghost var v := value;
    while d < 1.0
      invariant out.Valid() && (out.bytes == old(out.bytes) || fresh(out.bytes))
      invariant 0.0 < v < 1.0 && d == v * 10.0
      invariant out.Contents() + FractionText(v) == start + FractionText(value)
      decreases (1.0 / v).Floor
    {
      ZerosEnd(v);
      Assoc(out.Contents(), ['0'], FractionText(d));
      v := d;
      d := d * 10.0;
      out.Concat('0');
    }
    PrecisionStarts();
    var precision := EPSILON;
    FloatSignificant(d, precision, out);
  }

  lemma PrecisionStarts()
    ensures Precision(0) == EPSILON
  {}

  /** The second loop of floatFraction(). */
  method FloatSignificant(value: real, precision0: real, out: Buffer)
    requires precision0 == Precision(0) && 1.0 <= value < 10.0 && out.Valid()
    modifies out, out.bytes
    ensures out.Valid() && (out.bytes == old(out.bytes) || fresh(out.bytes))
    ensures out.Contents() == old(out.Contents()) + SignificantDigits(value, 0)
  {
    hide Precision;
    var d, precision := value, precision0;
    ghost var k := 0;
    while d > precision
      invariant out.Valid() && (out.bytes == old(out.bytes) || fresh(out.bytes))
      invariant precision == Precision(k) && -precision <= d < 10.0
      invariant out.Contents() + SignificantDigits(d, k) == old(out.Contents()) + SignificantDigits(value, 0)
      decreases 17 - k
    {
      FewerDigits(d, k);
      NextPrecision(k);
      ghost var before := out.Contents();
      var digitValue := LeadDigit(d, precision);
      out.Concat(DigitChar(digitValue));
      d := d - digitValue as real;
      assert d < 1.0;
      d := d * 10.0;
      precision := precision * 10.0;
      k := k + 1;
      Assoc(before, [DigitChar(digitValue)], SignificantDigits(d, k));
    }
    assert out.Contents() + "" == out.Contents();
  }

  /** The part of xmlrpc_formatFloat() that follows the sign; not `ok` stands for a
      failed assertion. */
  method FormatMagnitude(absvalue: real, out: Buffer) returns (ok: bool)
    requires absvalue >= 0.0 && out.Valid()
    modifies out, out.bytes
    ensures out.Valid() && (ok <==> Printable(absvalue))
    ensures ok ==> out.Contents() == old(out.Contents()) + MagnitudeText(absvalue)
  {
    hide Precision, WholeDigits, WholeAmount, FractionText, FractionDigits, Decimal, Printable, MagnitudeText;
    TextParts(absvalue);
    if absvalue >= 1.0 {
      ok := FormatWhole(absvalue, out);
    } else {
      FormatBelowOne(absvalue, out);
      ok := true;
    }
  }

  method FormatWhole(absvalue: real, out: Buffer) returns (ok: bool)
    requires absvalue >= 1.0 && out.Valid()
    modifies out, out.bytes
    ensures out.Valid() && (ok <==> Printable(absvalue))
    ensures ok ==> out.Contents() == old(out.Contents()) + MagnitudeText(absvalue)
  {
    hide Precision, WholeDigits, WholeAmount, FractionText, FractionDigits, Decimal, Printable, MagnitudeText;
    ghost var start := out.Contents();
    TextParts(absvalue);
    var wholePart, wholePrecision := FloatWhole(absvalue, out);
    var fractionPart := absvalue - wholePart as real;
    if fractionPart > wholePrecision {
      FractionFits(absvalue);
      if !(fractionPart < 1.0) {
        return false;
      }
      Assoc(start, Decimal(wholePart), ['.']);
      out.Concat('.');
      FloatFractionPart(fractionPart, WholeDigits(absvalue), wholePrecision, out);
      Assoc(start, Decimal(wholePart) + ".", FractionDigits(fractionPart, WholeDigits(absvalue)));
    }
    ok := true;
  }

  method FormatBelowOne(absvalue: real, out: Buffer)
    requires 0.0 <= absvalue < 1.0 && out.Valid()
    modifies out, out.bytes
    ensures out.Valid()
    ensures out.Contents() == old(out.Contents()) + if absvalue > 0.0 then "0." + FractionText(absvalue) else "0"
  {
    hide FractionText;
    ghost var start := out.Contents();
    out.Concat('0');
    if absvalue > 0.0 {
      Assoc(start, "0", ['.']);
      assert "0" + "." == "0.";
      out.Concat('.');
      FloatFraction(absvalue, out);
      Assoc(start, "0.", FractionText(absvalue));
    }
  }

  lemma TextParts(a: real)
    requires a >= 0.0
    ensures a < 1.0 ==> Printable(a) && MagnitudeText(a) == if a > 0.0 then "0." + FractionText(a) else "0"
    ensures a >= 1.0 && a - WholeAmount(a) as real <= Precision(WholeDigits(a)) ==>
              Printable(a) && MagnitudeText(a) == Decimal(WholeAmount(a))
    ensures a >= 1.0 && a - WholeAmount(a) as real > Precision(WholeDigits(a)) && Printable(a) ==>
              a - WholeAmount(a) as real < 1.0
              && MagnitudeText(a) == Decimal(WholeAmount(a)) + "." + FractionDigits(a - WholeAmount(a) as real, WholeDigits(a))
  {
    hide Precision, WholeAmount, FractionText, FractionDigits, Decimal;
    if a >= 1.0 && a - WholeAmount(a) as real > Precision(WholeDigits(a)) && Printable(a) {
      FractionFits(a);
    }
  }

  /** xmlrpc_formatFloat(); no result stands for a failed assertion. */
  method FormatFloat(value: real) returns (text: Option<string>)
    ensures text == if Printable(value) then Some(FloatText(value)) else None
  {
    hide MagnitudeText, WholeDigits, WholeAmount, Precision;
    var formatted := new Buffer();
    var absvalue;
    if value < 0.0 {
      formatted.Concat('-');
      absvalue := -value;
    } else {
      absvalue := value;
    }
    var ok := FormatMagnitude(absvalue, formatted);
    assert Abs(value) == absvalue == Abs(absvalue);
    if !ok { return None; }
    assert "" + "-" == "-" && "" + MagnitudeText(absvalue) == MagnitudeText(absvalue);
    text := Some(formatted.bytes[..formatted.next]);
  }

  // ---------------------------------------------------------------------
  // The parser

  /** Where the parts of a numeral are: the digits before and after the point. */
  datatype Parts = Parts(mantissa: nat, mantissaEnd: nat, fraction: nat, fractionEnd: nat)

  ghost predicate DigitsAndOnePoint(m: string) {
    (forall i :: 0 <= i < |m| ==> IsDigit(m[i]) || m[i] == '.') && Periods(m) <= 1
  }

  /** scanAndValidateDoubleString() */
  method ScanAndValidateDoubleString(s: string) returns (r: Option<Parts>)
    ensures r.Some? <==> DigitsAndOnePoint(Unsigned(s))
    ensures r.Some? ==>
              var (m, start, p) := (Unsigned(s), |s| - |Unsigned(s)|, PointAt(Unsigned(s)));
              r.value == Parts(start, start + p, if p < |m| then start + p + 1 else |s|, |s|)
  {
    hide Periods;
    var mantissa := if s != "" && (s[0] == '-' || s[0] == '+') then 1 else 0;
    ghost var m := Unsigned(s);
    assert m == s[mantissa..];
    var p, dp: Option<nat> := mantissa, None;
    assert Periods(m[..0]) == 0 by { NoPeriods(m[..0]); }
    while p < |s|
      invariant mantissa <= p <= |s|
      invariant forall i :: 0 <= i < p - mantissa ==> IsDigit(m[i]) || m[i] == '.'
      invariant Periods(m[..p - mantissa]) == if dp.Some? then 1 else 0
      invariant dp.Some? ==> mantissa <= dp.value < p && s[dp.value] == '.'
      invariant forall i :: 0 <= i < (if dp.Some? then dp.value else p) - mantissa ==> m[i] != '.'
    {
      var c := s[p];
      PeriodsUpTo(m, p - mantissa);
      assert m[p - mantissa] == c;
      if c == '.' {
        if dp.Some? {
          return None;
        } else {
          dp := Some(p);
        }
      } else if c < '0' || c > '9' {
        return None;
      }
      p := p + 1;
    }
    assert m[..p - mantissa] == m;
    if dp.Some? {
      assert m[dp.value - mantissa] == '.';
      r := Some(Parts(mantissa, dp.value, dp.value + 1, p));
    } else {
      r := Some(Parts(mantissa, p, p, p));
    }
  }

  function TenthPower(n: nat): real { if n == 0 then 1.0 else TenthPower(n - 1) * 0.1 }

  lemma {:induction false} FractionAppend(s: string, c: char)
    requires AllDigits(s) && IsDigit(c)
    ensures FractionValue(s + [c]) == FractionValue(s) + DigitValue(c) as real * TenthPower(|s| + 1)
  {
    if s == "" {
      assert [c][1..] == "" && s + [c] == [c] && TenthPower(1) == 0.1;
    } else {
      FractionAppend(s[1..], c);
      assert (s + [c])[1..] == s[1..] + [c];
      Scale(DigitValue(c) as real, TenthPower(|s|));
    }
  }

  lemma Scale(d: real, t: real)
    ensures d * t / 10.0 == d * (t * 0.1)
  {}

  /** "No digits" is the one fault left when the scan succeeds. */
  lemma NoDigits(m: string)
    requires DigitsAndOnePoint(m)
    ensures IsFloatBody(m) <==> !(PointAt(m) == 0 && (|m| <= 1))
  {
    hide Periods;
    if PointAt(m) > 0 {
      assert IsDigit(m[0]);
    } else if |m| > 1 {
      PeriodsUpTo(m, 0);
      assert m[..1] == ['.'] && m[..0] == "";
      NoPeriods(m[..0]);
      if m[1] == '.' {
        PeriodsUpTo(m, 1);
      }
      assert IsDigit(m[1]);
    }
  }

  /** parseDoubleString() */
  method ParseDoubleString(s: string) returns (r: Option<real>)
    ensures r == StrictDouble(s)
  {
    hide IsFloatBody, Periods, MaxDouble, DecimalValue, FractionValue, PointAt;
    var scan := ScanAndValidateDoubleString(s);
    ghost var m := Unsigned(s);
    if scan.None? {
      NotFloatBody(m);
      return None;
    }
    NoDigits(m);
    var Parts(mantissa, mantissaEnd, fraction, fractionEnd) := scan.value;
    var accum := 0.0;
    if mantissa == mantissaEnd && fraction == fractionEnd {
      return None;
    }
    BodyParts(s);
    accum := WholePart(s, mantissa, mantissaEnd);
    accum := FractionPart(s, fraction, fractionEnd, accum);
    if accum > MaxDouble() {
      r := None;
    } else {
      r := Some(if s[0] == '-' then -accum else accum);
    }
  }

  lemma NotFloatBody(m: string)
    requires !DigitsAndOnePoint(m)
    ensures !IsFloatBody(m)
  {}

  lemma BodyParts(s: string)
    requires IsFloatBody(Unsigned(s))
    ensures var (m, start, p) := (Unsigned(s), |s| - |Unsigned(s)|, PointAt(Unsigned(s)));
      var fraction := if p < |m| then start + p + 1 else |s|;
      && s != "" && AllDigits(s[start..start + p]) && AllDigits(s[fraction..])
      && BodyValue(m) == DecimalValue(s[start..start + p]) as real + FractionValue(s[fraction..])
  {
    hide Periods, DecimalValue, FractionValue, PointAt;
    var m := Unsigned(s);
    var start, p := |s| - |m|, PointAt(m);
    assert m == s[start..];
    OnePoint(m);
    assert s[start..start + p] == m[..p];
    if p < |m| {
      assert s[start + p + 1..] == m[p + 1..];
    } else {
      assert s[|s|..] == "";
    }
  }

  /** The loop over the whole part. */
  method WholePart(s: string, mantissa: nat, mantissaEnd: nat) returns (accum: real)
    requires mantissa <= mantissaEnd <= |s| && AllDigits(s[mantissa..mantissaEnd])
    ensures accum == DecimalValue(s[mantissa..mantissaEnd]) as real
  {
    accum := 0.0;
    var p := mantissa;
    while p < mantissaEnd
      invariant mantissa <= p <= mantissaEnd && AllDigits(s[mantissa..p])
      invariant accum == DecimalValue(s[mantissa..p]) as real
    {
      assert IsDigit(s[p]) by { assert s[mantissa..mantissaEnd][p - mantissa] == s[p]; }
      assert s[mantissa..p + 1] == s[mantissa..p] + [s[p]];
      accum := accum * 10.0;
      accum := accum + DigitValue(s[p]) as real;
      p := p + 1;
    }
  }

  /** The loop over the fraction. */
  method FractionPart(s: string, fraction: nat, fractionEnd: nat, whole: real) returns (accum: real)
    requires fraction <= fractionEnd == |s| && AllDigits(s[fraction..])
    ensures accum == whole + FractionValue(s[fraction..])
  {
    hide FractionValue;
    accum := whole;
    var significance, p := 0.1, fraction;
    EmptyFraction(s[fraction..p]);
    while p < fractionEnd
      invariant fraction <= p <= fractionEnd && AllDigits(s[fraction..p])
      invariant accum == whole + FractionValue(s[fraction..p])
      invariant significance == TenthPower(p - fraction + 1)
    {
      assert IsDigit(s[p]) by { assert s[fraction..][p - fraction] == s[p]; }
      FractionAppend(s[fraction..p], s[p]);
      assert s[fraction..p + 1] == s[fraction..p] + [s[p]];
      accum := accum + DigitValue(s[p]) as real * significance;
      p := p + 1;
      significance := significance * 0.1;
    }
    assert s[fraction..p] == s[fraction..];
  }

  lemma EmptyFraction(s: string)
    requires s == ""
    ensures FractionValue(s) == 0.0 && TenthPower(1) == 0.1
  {}
}
