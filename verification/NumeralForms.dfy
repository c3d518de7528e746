/** What numerals look like and what numbers they are, told by how they are written rather
than by how they are read; and that the readers take exactly these. */
module NumeralForms {
  import opened Text
  import opened Numerals
  import opened Doubles

  /** A whole number: digits, with or without a sign. */
  ghost predicate IsNumeral(s: string, n: int) { exists digits :: NumeralOf(s, n, digits) }

  ghost predicate NumeralOf(s: string, n: int, digits: string) {
    && digits != "" && AllDigits(digits)
    && (((s == digits || s == "+" + digits) && n == DecimalValue(digits)) || (s == "-" + digits && n == 0 - DecimalValue(digits)))
  }

  lemma NumeralIsRead(s: string, n: int)
    ensures IsNumeral(s, n) <==>
              var digits := Unsigned(s);
              digits != "" && AllDigits(digits) && n == if s[0] == '-' then 0 - DecimalValue(digits) else DecimalValue(digits)
  {
    hide DecimalValue;
    var digits := Unsigned(s);
    if digits != "" && AllDigits(digits) {
      assert s == digits || s == "+" + digits || s == "-" + digits;
      if s[0] == '-' { assert s == "-" + digits; }
      if n == (if s[0] == '-' then 0 - DecimalValue(digits) else DecimalValue(digits)) { assert NumeralOf(s, n, digits); }
    }
    if IsNumeral(s, n) {
      var ds :| NumeralOf(s, n, ds);
      assert ("+" + ds)[1..] == ds && ("-" + ds)[1..] == ds;
      assert IsDigit(ds[0]);
      assert digits == ds;
    }
  }

  /** xmlrpc_parse_int64() takes the numerals of 64 bits and nothing else, where its
      callers keep white space in front and empty texts from it. */
  lemma Int64Exact(s: string, n: int)
    requires s != "" && !IsSpace(s[0])
    ensures ParseInt64(s) == Some(n) <==> IsNumeral(s, n) && INT64_MIN <= n <= INT64_MAX
  {
    hide DecimalValue;
    NumeralIsRead(s, n);
  }

  /** A number with a decimal point or none: digits, and perhaps a point and more digits. */
  ghost predicate IsDecimal(m: string, x: real) { exists whole, fraction :: DecimalOf(m, x, whole, fraction) }

  ghost predicate DecimalOf(m: string, x: real, whole: string, fraction: string) {
    && AllDigits(whole) && AllDigits(fraction) && (whole != "" || fraction != "")
    && (m == whole + "." + fraction || (m == whole && fraction == ""))
    && x == DecimalValue(whole) as real + Tenths(fraction)
  }

  /** Digits after a point, as the whole number they make over a power of ten. */
  ghost function Tenths(digits: string): real
    requires AllDigits(digits)
  {
    Pow10Grows(0, |digits|);
    DecimalValue(digits) as real / Pow10(|digits|) as real
  }

  lemma {:induction false} DecimalCons(c: char, digits: string)
    requires IsDigit(c) && AllDigits(digits)
    ensures AllDigits([c] + digits) && DecimalValue([c] + digits) == DigitValue(c) * Pow10(|digits|) + DecimalValue(digits)
  {
    var s := [c] + digits;
    if digits == "" {
      assert s[..0] == "" && s[0] == c;
    } else {
      var n := |digits| - 1;
      DecimalCons(c, digits[..n]);
      assert s[..n + 1] == [c] + digits[..n];
    }
  }

  lemma {:induction false} FractionIsTenths(digits: string)
    requires AllDigits(digits)
    ensures FractionValue(digits) == Tenths(digits)
  {
    if digits != "" {
      var rest := digits[1..];
      FractionIsTenths(rest);
      DecimalCons(digits[0], rest);
      assert digits == [digits[0]] + rest;
      Pow10Grows(0, |rest|);
      ShiftRight(DigitValue(digits[0]), DecimalValue(rest), Pow10(|rest|));
    }
  }

  lemma ShiftRight(d: nat, v: nat, p: nat)
    requires p >= 1
    ensures (d as real + v as real / p as real) / 10.0 == (d * p + v) as real / (10 * p) as real
  {
    var q := v as real / p as real;
    assert v as real == q * p as real;
    assert (d * p + v) as real == d as real * p as real + v as real == (d as real + q) * p as real;
    assert (10 * p) as real == 10.0 * p as real;
    Cancel(d as real + q, p as real);
  }

  lemma Cancel(a: real, p: real)
    requires p > 0.0
    ensures (a * p) / (10.0 * p) == a / 10.0
  {
    var y := a / 10.0;
    assert a == 10.0 * y;
    assert a * p == y * (10.0 * p);
  }

  /** The number a numeral of digits and at most one point denotes. */
  lemma BodyIsDecimal(m: string, x: real)
    ensures IsDecimal(m, x) <==> IsFloatBody(m) && BodyValue(m) == x
  {
    hide DecimalValue, FractionValue, Tenths;
    if IsFloatBody(m) {
      var n := PointAt(m);
      OnePoint(m);
      var whole, fraction := m[..n], if n < |m| then m[n + 1..] else "";
      FractionIsTenths(fraction);
      SomeDigit(m, n);
      if n < |m| { assert m == whole + "." + fraction; } else { assert m == whole; }
      if BodyValue(m) == x { assert DecimalOf(m, x, whole, fraction); }
    }
    if IsDecimal(m, x) {
      var whole, fraction :| DecimalOf(m, x, whole, fraction);
      FractionIsTenths(fraction);
      WrittenBody(whole, fraction);
      if m == whole && fraction == "" { NoFraction(); }
    }
  }

  lemma SomeDigit(m: string, n: nat)
    requires IsFloatBody(m) && n == PointAt(m)
    ensures m[..n] != "" || (n < |m| && m[n + 1..] != "")
  {
    var i :| 0 <= i < |m| && IsDigit(m[i]);
  }

  lemma NoFraction()
    ensures FractionValue("") == 0.0
  {}

  lemma WrittenBody(whole: string, fraction: string)
    requires AllDigits(whole) && AllDigits(fraction) && (whole != "" || fraction != "")
    ensures var m := whole + "." + fraction;
      IsFloatBody(m) && BodyValue(m) == DecimalValue(whole) as real + FractionValue(fraction)
    ensures fraction == "" ==> IsFloatBody(whole) && BodyValue(whole) == DecimalValue(whole) as real
  {
    hide DecimalValue;
    var m := whole + "." + fraction;
    DigitsHaveNoPeriod(whole);
    DigitsHaveNoPeriod(fraction);
    PeriodsSplit(whole + ".", fraction);
    PeriodsSplit(whole, ".");
    assert if whole != "" then IsDigit(m[0]) else IsDigit(m[1]);
    PointAfter(whole, "." + fraction);
    assert m == whole + ("." + fraction);
    assert m[..|whole|] == whole && m[|whole| + 1..] == fraction;
    if fraction == "" { WholeNumeral(whole); }
  }

  /** A decimal with or without a sign. */
  ghost predicate IsSignedDecimal(s: string, x: real) {
    || IsDecimal(s, x)
    || (s != "" && s[0] == '+' && IsDecimal(s[1..], x))
    || (s != "" && s[0] == '-' && IsDecimal(s[1..], -x))
  }

  lemma DecimalStarts(m: string, x: real)
    requires IsDecimal(m, x)
    ensures m != "" && (IsDigit(m[0]) || m[0] == '.') && x >= 0.0
  {
    hide DecimalValue, FractionValue;
    BodyIsDecimal(m, x);
  }

  /** parseDoubleString() takes exactly these, up to the greatest double. */
  lemma StrictDoubleExact(s: string, x: real)
    ensures StrictDouble(s) == Some(x) <==> IsSignedDecimal(s, x) && -MaxDouble() <= x <= MaxDouble()
  {
    hide BodyValue, MaxDouble, IsFloatBody;
    BodyIsDecimal(s, x);
    if s != "" {
      BodyIsDecimal(s[1..], x);
      BodyIsDecimal(s[1..], -x);
    }
    if IsDecimal(s, x) { DecimalStarts(s, x); }
    if s != "" && IsDecimal(s[1..], x) { DecimalStarts(s[1..], x); }
    if s != "" && IsDecimal(s[1..], -x) { DecimalStarts(s[1..], -x); }
    NoBody();
    MaxDoublePositive();
  }

  lemma NoBody()
    ensures !IsFloatBody("")
  {}

  lemma MaxDoublePositive()
    ensures MaxDouble() >= 0.0
  {}
}
