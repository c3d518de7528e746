/** Characters, decimal and hexadecimal numerals.

A `string` here is a C byte string: each `char` is one byte. */
module Text {

  datatype Option<+T> = None | Some(value: T)

  predicate IsDigit(c: char) { '0' <= c <= '9' }

  predicate IsHexDigit(c: char) { IsDigit(c) || 'a' <= c <= 'f' || 'A' <= c <= 'F' }

  predicate IsAlpha(c: char) { 'a' <= c <= 'z' || 'A' <= c <= 'Z' }

  /** C's isspace() in the "C" locale: HT, LF, VT, FF, CR and blank. */
  predicate IsSpace(c: char) { c == ' ' || 9 <= c as int <= 13 }

  ghost predicate AllDigits(s: string) { forall i :: 0 <= i < |s| ==> IsDigit(s[i]) }

  function DigitChar(d: nat): (c: char)
    requires d < 10
    ensures IsDigit(c) && DigitValue(c) == d
  {
    (d + 48) as char
  }

  function DigitValue(c: char): (d: nat)
    requires IsDigit(c)
    ensures d < 10
  {
    c as int - 48
  }

  /** printf's %u. */
  function Decimal(n: nat): (s: string)
    ensures |s| > 0 && AllDigits(s)
  {
    if n < 10 then [DigitChar(n)] else Decimal(n / 10) + [DigitChar(n % 10)]
  }

  function DecimalValue(s: string): nat
    requires AllDigits(s)
  {
    if s == "" then 0 else DecimalValue(s[..|s| - 1]) * 10 + DigitValue(s[|s| - 1])
  }

  lemma {:induction false} DecimalRoundTrip(n: nat)
    ensures DecimalValue(Decimal(n)) == n
  {
    if n >= 10 {
      DecimalRoundTrip(n / 10);
      assert Decimal(n)[..|Decimal(n)| - 1] == Decimal(n / 10);
    }
  }

  function Pow10(n: nat): nat { if n == 0 then 1 else 10 * Pow10(n - 1) }

  lemma {:induction false} Pow10Grows(n: nat, m: nat)
    requires n <= m
    ensures 1 <= Pow10(n) <= Pow10(m)
  {
    if n < m { Pow10Grows(n, m - 1); }
    else if n > 0 { Pow10Grows(n - 1, n - 1); }
  }

  /** printf's %d. */
  function Signed(n: int): (s: string)
    ensures |s| > 0
  {
    if n < 0 then "-" + Decimal(-n) else Decimal(n)
  }

  const INT64_MIN := -0x8000_0000_0000_0000
  const INT64_MAX := 0x7fff_ffff_ffff_ffff

  /** The digits of a numeral with an optional minus sign. */
  function Magnitude(s: string): string {
    if s != "" && s[0] == '-' then s[1..] else s
  }

  /** The text without a sign. */
  function Unsigned(s: string): string {
    if s != "" && (s[0] == '-' || s[0] == '+') then s[1..] else s
  }

  /** What is left after the white space in front. */
  function AfterSpace(s: string): string { if s != "" && IsSpace(s[0]) then AfterSpace(s[1..]) else s }

  /** xmlrpc_parse_int64(): the number that strtoll() reads to the end of the text, if it
      fits in 64 bits. White space and a sign may stand in front, and no text at all
      counts as zero. */
  function ParseInt64(s: string): (r: Option<int>)
    ensures r.Some? ==> INT64_MIN <= r.value <= INT64_MAX
  {
    var t := AfterSpace(s);
    var digits := Unsigned(t);
    if s == "" then Some(0)
    else if digits == "" || !AllDigitsNow(digits) then None
    else
      var n := if t[0] == '-' then 0 - DecimalValue(digits) else DecimalValue(digits);
      if INT64_MIN <= n <= INT64_MAX then Some(n) else None
  }

  predicate AllDigitsNow(s: string)
    ensures AllDigitsNow(s) <==> AllDigits(s)
  {
    forall i :: 0 <= i < |s| ==> IsDigit(s[i])
  }

  lemma SignedRoundTrip(n: int)
    requires INT64_MIN <= n <= INT64_MAX
    ensures ParseInt64(Signed(n)) == Some(n)
  {
    DecimalRoundTrip(if n < 0 then -n else n);
    if n < 0 {
      assert Signed(n)[1..] == Decimal(-n);
    }
  }

  /** printf's %02u. */
  function Pad2(n: nat): string {
    if n < 10 then "0" + Decimal(n) else Decimal(n)
  }

  function HexChar(d: nat): (c: char)
    requires d < 16
    ensures IsHexDigit(c) && HexValue(c) == d
  {
    if d < 10 then (d + 48) as char else (d + 87) as char
  }

  function HexValue(c: char): (d: nat)
    requires IsHexDigit(c)
    ensures d < 16
  {
    if IsDigit(c) then c as int - 48
    else if 'a' <= c then c as int - 87
    else c as int - 55
  }

  /** What strtol(s, NULL, 16) makes of four hexadecimal digits. */
  function Hex4Value(s: string): (n: nat)
    requires |s| >= 4 && forall i :: 0 <= i < 4 ==> IsHexDigit(s[i])
    ensures n < 0x10000
  {
    HexValue(s[0]) * 4096 + HexValue(s[1]) * 256 + HexValue(s[2]) * 16 + HexValue(s[3])
  }

  /** `n` blanks. */
  function Spaces(n: nat): (s: string)
    ensures |s| == n && forall i :: 0 <= i < n ==> s[i] == ' '
  {
    if n == 0 then "" else " " + Spaces(n - 1)
  }

  lemma AppendOne<T>(a: seq<T>, x: T, b: seq<T>)
    ensures a + ([x] + b) == (a + [x]) + b
  {}

  lemma SliceOfSlice<T>(s: seq<T>, a: nat, b: nat, i: nat, j: nat)
    requires a <= b <= |s| && i <= j <= b - a
    ensures s[a..b][i..j] == s[a + i..a + j]
  {
    var l, r := s[a..b][i..j], s[a + i..a + j];
    forall k | 0 <= k < j - i ensures l[k] == r[k] {
      assert l[k] == s[a..b][i + k] == s[a + (i + k)];
      assert r[k] == s[a + i + k];
    }
  }

  lemma HeadAndTail<T>(s: seq<T>)
    requires s != []
    ensures s[0] in s && forall x :: x in s[1..] ==> x in s
  {}

  lemma Assoc<T>(a: seq<T>, b: seq<T>, c: seq<T>)
    ensures a + (b + c) == (a + b) + c && a + [] == a && [] + c == c
  {}
}
