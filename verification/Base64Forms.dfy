/** What a base64 text stands for, told by numbers: its characters, read in base 64, and its
octets, read in base 256, are the same number. */
module Base64Forms {
  import opened Text
  import opened Utf8Text
  import opened Base64Text

  /** The decoder takes the high bit off each character, and then looks only at letters,
      digits, plus, slash and the padding character. */
  predicate Counts(c: char) {
    var d := (c as int % 128) as char;
    IsAlpha(d) || IsDigit(d) || d in {'+', '/', '='}
  }

  lemma CountsExact(c: char)
    ensures Counts(c) <==> !Skipped(c as int % 128)
  {}

  /** The six bits for each character that counts; padding counts as zeros. */
  function Sextets(s: string): (k: seq<nat>)
    ensures |k| <= |s| && forall i :: 0 <= i < |k| ==> k[i] < 64
  {
    if s == "" then []
    else if !Counts(s[0]) then Sextets(s[1..])
    else CountsExact(s[0]); [SextetValue(s[0] as int % 128).value] + Sextets(s[1..])
  }

  function Pads(s: string): nat {
    if s == "" then 0 else (if s[0] as int % 128 == PAD as int then 1 else 0) + Pads(s[1..])
  }

  function Two(n: nat): (p: nat)
    ensures p >= 1
  {
    if n == 0 then 1 else 2 * Two(n - 1)
  }

  lemma {:induction false} TwoSum(a: nat, b: nat)
    ensures Two(a + b) == Two(a) * Two(b)
  {
    if a > 0 {
      TwoSum(a - 1, b);
      var x, y := Two(a - 1), Two(b);
      assert 2 * (x * y) == (2 * x) * y;
    }
  }

  /** Sextets as a number in base 64. */
  ghost function Number64(k: seq<nat>): nat { if k == [] then 0 else k[0] * Two(6 * (|k| - 1)) + Number64(k[1..]) }

  /** Octets as a number in base 256. */
  ghost function Number256(b: string): nat { if b == "" then 0 else b[0] as int * Two(8 * (|b| - 1)) + Number256(b[1..]) }

  lemma SpanIsTwo(bits: nat)
    requires bits in {0, 2, 4, 6}
    ensures Span(bits) == Two(bits)
  {
    assert Two(1) == 2 && Two(2) == 4 && Two(3) == 8 && Two(4) == 16 && Two(5) == 32 && Two(6) == 64;
  }

  /** The bits that came in, in front of those still to come, are the bits that go out, in
      front of those left over. */
  lemma {:induction false} BitsKept(s: string, left: nat, held: nat) returns (over: nat)
    requires Pending(left, held)
    ensures var d, k := DecodeFrom(s, left, held), Sextets(s);
      && d.left in {0, 2, 4, 6} && over < Two(d.left) && d.pads == Pads(s) && AreOctets(d.octets)
      && left + 6 * |k| == 8 * |d.octets| + d.left
      && held * Two(6 * |k|) + Number64(k) == Number256(d.octets) * Two(d.left) + over
    decreases |s|
  {
    hide Span, SextetValue, Two, Shifted, Number64, Number256;
    if s == "" {
      over := held;
      SpanIsTwo(left);
      Nothing(held);
    } else {
      CountsExact(s[0]);
      var c := s[0] as int % 128;
      if !Counts(s[0]) {
        over := BitsKept(s[1..], left, held);
        PadCounts(c);
      } else {
        var x := SextetValue(c).value;
        var (out, left', held') := Shifted(left, held, x);
        over := BitsKept(s[1..], left', held');
        var d, k := DecodeFrom(s[1..], left', held'), Sextets(s[1..]);
        assert Sextets(s) == [x] + k;
        OneShifted(left, held, x, k, d, over);
      }
    }
  }

  lemma PadCounts(c: nat)
    requires Skipped(c)
    ensures c != PAD as int
  {}

  lemma Nothing(held: nat)
    ensures held * Two(6 * 0) + Number64([]) == held && Number256("") == 0
  {}

  /** Six more bits, and perhaps one octet. */
  lemma OneShifted(left: nat, held: nat, x: nat, k: seq<nat>, d: Bits, over: nat)
    requires Pending(left, held) && x < 64
    requires var (_, left', held') := Shifted(left, held, x);
      && left' + 6 * |k| == 8 * |d.octets| + d.left
      && held' * Two(6 * |k|) + Number64(k) == Number256(d.octets) * Two(d.left) + over
    requires AreOctets(d.octets)
    ensures var out := Shifted(left, held, x).0;
      && AreOctets(out + d.octets) && left + 6 * (|k| + 1) == 8 * |out + d.octets| + d.left
      && held * Two(6 * |[x] + k|) + Number64([x] + k) == Number256(out + d.octets) * Two(d.left) + over
  {
    hide Span, Two, Number64, Number256;
    var m := |k|;
    var all := held * 64 + x;
    TwoSum(6, 6 * m);
    SpanIsTwo(6);
    SpanSix();
    NumberCons(x, k);
    Gathered(held, x, Two(6 * m), Number64(k));
    assert held * Two(6 * (m + 1)) + Number64([x] + k) == all * Two(6 * m) + Number64(k);
    if left == 0 {
      assert "" + d.octets == d.octets;
    } else {
      var out := Shifted(left, held, x).0;
      SpanIsTwo(left - 2);
      AllBelow(left, held, x);
      var octet := all / Span(left - 2);
      assert out == [Byte(octet)];
      NumberOctet(octet, d.octets);
      TwoSum(left - 2, 6 * m);
      TwoSum(8 * |d.octets|, d.left);
      assert left - 2 + 6 * m == 8 * |d.octets| + d.left;
      SplitOff(all, Span(left - 2), Two(6 * m), octet, Number64(k));
      Distributed(octet, Two(8 * |d.octets|), Number256(d.octets), Two(d.left));
    }
  }

  lemma SpanSix()
    ensures Span(6) == 64
  {}

  lemma NumberCons(x: nat, k: seq<nat>)
    ensures Number64([x] + k) == x * Two(6 * |k|) + Number64(k)
  {
    assert ([x] + k)[1..] == k;
  }

  lemma NumberOctet(octet: nat, b: string)
    requires octet < 256
    ensures Number256([Byte(octet)] + b) == octet * Two(8 * |b|) + Number256(b)
  {
    assert ([Byte(octet)] + b)[1..] == b;
  }

  lemma Gathered(held: nat, x: nat, p: nat, n: nat)
    ensures held * (64 * p) + (x * p + n) == (held * 64 + x) * p + n
  {
    assert held * (64 * p) == (held * 64) * p;
  }

  /** An octet is less than 256. */
  lemma AllBelow(left: nat, held: nat, x: nat)
    requires Pending(left, held) && x < 64 && left > 0
    ensures (held * 64 + x) / Span(left - 2) < 256
  {}

  lemma SplitOff(all: nat, span: nat, p: nat, octet: nat, n: nat)
    requires span >= 1 && octet == all / span
    ensures all * p + n == octet * (span * p) + ((all % span) * p + n)
  {
    var r := all % span;
    assert all == octet * span + r;
    assert all * p == (octet * span) * p + r * p;
    assert (octet * span) * p == octet * (span * p);
  }

  lemma Distributed(octet: nat, a: nat, n: nat, b: nat)
    ensures (octet * a + n) * b == octet * (a * b) + n * b
  {
    assert (octet * a) * b == octet * (a * b);
  }

  // ---------------------------------------------------------------------
  // The octets are told by the number

  lemma {:induction false} NumberBelow(b: string)
    requires AreOctets(b)
    ensures Number256(b) < Two(8 * |b|)
    decreases |b|
  {
    if b != "" {
      hide Two;
      NumberBelow(b[1..]);
      var n := |b| - 1;
      TwoSum(8, 8 * n);
      EightBits();
      Below(b[0] as int, Two(8 * n), Number256(b[1..]));
    }
  }

  lemma EightBits()
    ensures Two(8) == 256
  {
    assert Two(1) == 2 && Two(2) == 4 && Two(3) == 8 && Two(4) == 16 && Two(5) == 32 && Two(6) == 64 && Two(7) == 128;
  }

  lemma Below(x: nat, p: nat, n: nat)
    requires x < 256 && n < p
    ensures x * p + n < 256 * p
  {
    assert (x + 1) * p <= 256 * p;
  }

  lemma {:induction false} SameNumber(a: string, b: string)
    requires AreOctets(a) && AreOctets(b) && |a| == |b| && Number256(a) == Number256(b)
    ensures a == b
    decreases |a|
  {
    if a != "" {
      hide Two;
      NumberBelow(a[1..]);
      NumberBelow(b[1..]);
      var p := Two(8 * (|a| - 1));
      SameDigits(a[0] as int, Number256(a[1..]), b[0] as int, Number256(b[1..]), p);
      SameNumber(a[1..], b[1..]);
      assert a == [a[0]] + a[1..] && b == [b[0]] + b[1..];
    }
  }

  lemma SameDigits(x: nat, n: nat, y: nat, m: nat, p: nat)
    requires n < p && m < p && x * p + n == y * p + m
    ensures x == y && n == m
  {
    if x < y { Larger(x + 1, y, p); } else if y < x { Larger(y + 1, x, p); }
  }

  lemma Larger(x: nat, y: nat, p: nat)
    requires x <= y
    ensures x * p <= y * p && x * p == (x - 1) * p + p
  {}

  /** `b` is what `s` stands for: whole groups of four characters, at most two of them
      padding, and `b` the octets of their number but for one at the end for each padding
      character. */
  ghost predicate StandsFor(s: string, b: string) {
    && |Sextets(s)| % 4 == 0 && Pads(s) <= 2 && 4 * (|b| + Pads(s)) == 3 * |Sextets(s)|
    && AreOctets(b) && exists tail :: |tail| == Pads(s) && AreOctets(tail) && Number256(b + tail) == Number64(Sextets(s))
  }

  lemma DecodedNumber(s: string)
    ensures var d, k := DecodeFrom(s, 0, 0), Sextets(s);
      && d.pads == Pads(s) && AreOctets(d.octets) && (d.left == 0 <==> |k| % 4 == 0)
      && (d.left == 0 ==> Number256(d.octets) == Number64(k) && 8 * |d.octets| == 6 * |k|)
  {
    hide Number64, Number256, DecodeFrom;
    var over := BitsKept(s, 0, 0);
    var d := DecodeFrom(s, 0, 0);
    if d.left == 0 { assert Two(0) == 1; }
  }

  /** Decoding gives exactly what a text stands for. */
  lemma Decode64Exact(s: string, b: string)
    ensures Decode64(s) == Some(b) <==> StandsFor(s, b)
  {
    hide DecodeFrom, Number64, Number256, Sextets, Pads;
    DecodedNumber(s);
    var d := DecodeFrom(s, 0, 0);
    var n := |d.octets|;
    if Decode64(s) == Some(b) {
      var tail := d.octets[n - d.pads..];
      assert b + tail == d.octets;
    }
    if StandsFor(s, b) {
      var tail :| |tail| == Pads(s) && AreOctets(tail) && Number256(b + tail) == Number64(Sextets(s));
      SameNumber(d.octets, b + tail);
      assert (b + tail)[..|b|] == b;
    }
  }
}
