/** The base64 encoder and decoder of xmlrpc-c/lib/libutil/base64.c. */
module Base64Text {
  import opened Text
  import opened Lines
  import opened Utf8Text

  const PAD := '='
  const MAXBIN := 57  // octets on a line

  // ---------------------------------------------------------------------
  // The alphabet

  /** The character for six bits. */
  function Sextet(n: nat): (c: char)
    requires n < 64
    ensures c as int < 0x80 && SextetValue(c as int) == Some(n)
    ensures IsAlpha(c) || IsDigit(c) || c == '+' || c == '/'
  {
    if n < 26 then (n + 65) as char
    else if n < 52 then (n + 71) as char
    else if n < 62 then (n - 4) as char
    else if n == 62 then '+' else '/'
  }

  /** The decoder's table, by octets without their high bit; the padding character
      counts as zero bits. */
  function SextetValue(c: nat): (n: Option<nat>)
    ensures n.Some? ==> n.value < 64
  {
    if 'A' as int <= c <= 'Z' as int then Some(c - 65)
    else if 'a' as int <= c <= 'z' as int then Some(c - 71)
    else if '0' as int <= c <= '9' as int then Some(c + 4)
    else if c == '+' as int then Some(62)
    else if c == '/' as int then Some(63)
    else if c == PAD as int then Some(0)
    else None
  }

  predicate AreOctets(s: string) { forall i :: 0 <= i < |s| ==> s[i] as int < 256 }

  function Octet(c: char): (n: nat)
    ensures n < 256
  {
    c as int % 256
  }

  /** Two to the power `bits`, for the numbers of bits there can be. */
  function Span(bits: nat): (n: nat)
    ensures n >= 1
  {
    if bits == 0 then 1 else if bits == 2 then 4 else if bits == 4 then 16 else if bits == 6 then 64
    else if bits == 8 then 256 else if bits == 10 then 1024 else 4096
  }

  // ---------------------------------------------------------------------
  // What is encoded

  /** The characters for the octets `b` of a line when `n` octets of a group of three
      have been taken, of which the bits `p` are still to be written. */
  function Emit(n: nat, p: nat, b: string): string
    requires n < 3 && p < (if n == 0 then 1 else if n == 1 then 4 else 16)
    decreases |b|
  {
    if b == "" then
      if n == 0 then "" else if n == 1 then [Sextet(p * 16), PAD, PAD] else [Sextet(p * 4), PAD]
    else
      var x, rest := Octet(b[0]), b[1..];
      if n == 0 then [Sextet(x / 4)] + Emit(1, x % 4, rest)
      else if n == 1 then [Sextet(p * 16 + x / 16)] + Emit(2, x % 16, rest)
      else [Sextet(p * 4 + x / 64), Sextet(x % 64)] + Emit(0, 0, rest)
  }

  function LineLen(b: string): nat { if |b| > MAXBIN then MAXBIN else |b| }

  /** The lines of the encoding, each ended by `nl`. */
  function EncodedLines(b: string, nl: string): string
    decreases |b|
  {
    if b == "" then ""
    else Emit(0, 0, b[..LineLen(b)]) + (nl + EncodedLines(b[LineLen(b)..], nl))
  }

  /** xmlrpc_base64_encode(); no octets at all make one empty line. */
  function Encode64(b: string): string {
    if b == "" then [CR, LF] else EncodedLines(b, [CR, LF])
  }

  // ---------------------------------------------------------------------
  // What is decoded

  /** The octets of a text, what bits are left over, and how many padding characters
      there were. */
  datatype Bits = Bits(octets: string, left: nat, pads: nat)

  /** Between two characters there are bits for less than an octet. */
  predicate Pending(left: nat, held: nat) { left in {0, 2, 4, 6} && held < Span(left) }

  /** Decoding `s` with the `left` low bits of `held` still to come. */
  function DecodeFrom(s: string, left: nat, held: nat): (d: Bits)
    requires Pending(left, held)
    decreases |s|
  {
    if s == "" then Bits("", left, 0)
    else
      var c := s[0] as int % 128;
      if Skipped(c) then DecodeFrom(s[1..], left, held)
      else
        var (octets, left', held') := Shifted(left, held, SextetValue(c).value);
        var d := DecodeFrom(s[1..], left', held');
        Bits(octets + d.octets, d.left, d.pads + if c == PAD as int then 1 else 0)
  }

  /** Blanks, line delimiters and characters outside the alphabet. */
  predicate Skipped(c: nat) { c in {13, 10, 32} || SextetValue(c).None? }

  /** Six more bits: the octet they complete, if any, and the bits that remain. */
  function Shifted(left: nat, held: nat, sextet: nat): (r: (string, nat, nat))
    requires Pending(left, held) && sextet < 64
    ensures Pending(r.1, r.2)
  {
    var all := held * 64 + sextet;
    if left == 0 then ("", 6, all) else ([Byte(all / Span(left - 2))], left - 2, all % Span(left - 2))
  }

  /** xmlrpc_base64_decode() */
  function Decode64(s: string): Option<string> {
    var d := DecodeFrom(s, 0, 0);
    var n := |d.octets|;
    if d.left != 0 || d.pads > n || d.pads > 2 then None else Some(d.octets[..n - d.pads])
  }

  // ---------------------------------------------------------------------
  // Decoding undoes encoding

  /** How many padding characters a line of `m` octets gets. */
  function PadLen(m: nat): (n: nat)
    ensures n <= 2
  {
    (3 - m % 3) % 3
  }

  function Zeros(n: nat): (s: string)
    ensures |s| == n
  {
    seq(n, _ => '\0')
  }

  lemma Taken(c: char, r: string, left: nat, held: nat)
    requires Pending(left, held) && c as int < 0x80 && !Skipped(c as int)
    ensures var (octets, left', held') := Shifted(left, held, SextetValue(c as int).value);
      var d := DecodeFrom(r, left', held');
      DecodeFrom([c] + r, left, held) == Bits(octets + d.octets, d.left, d.pads + if c == PAD then 1 else 0)
  {
    hide SextetValue, Shifted, Skipped;
    var s := [c] + r;
    assert s[1..] == r && s[0] as int % 128 == c as int;
  }

  lemma SextetTaken(n: nat, r: string, left: nat, held: nat)
    requires Pending(left, held) && n < 64
    ensures var (octets, left', held') := Shifted(left, held, n);
      var d := DecodeFrom(r, left', held');
      DecodeFrom([Sextet(n)] + r, left, held) == Bits(octets + d.octets, d.left, d.pads)
  {
    Taken(Sextet(n), r, left, held);
    hide DecodeFrom, Shifted;
  }

  lemma PadTaken(r: string, left: nat, held: nat)
    requires Pending(left, held)
    ensures var (octets, left', held') := Shifted(left, held, 0);
      var d := DecodeFrom(r, left', held');
      DecodeFrom([PAD] + r, left, held) == Bits(octets + d.octets, d.left, d.pads + 1)
  {
    Taken(PAD, r, left, held);
  }

  /** The octets of `d` after some more. */
  function After(octets: string, pads: nat, d: Bits): Bits { Bits(octets + d.octets, d.left, d.pads + pads) }

  lemma AfterTwice(a: string, m: nat, b: string, n: nat, d: Bits)
    ensures After(a, m, After(b, n, d)) == After(a + b, m + n, d)
  {
    Assoc(a, b, d.octets);
  }

  /** The encoder has taken `n` octets of a group and has the bits `p` still to write;
      what it has written leaves the decoder with the bits `h`. */
  predicate State(n: nat, p: nat, h: nat) {
    if n == 0 then p == h == 0 else if n == 1 then p < 4 && h < 64 else n == 2 && p < 16 && h < 16
  }

  /** What the decoder holds when the encoder has written all but the last bits of the
      `n` octets of a group: the octet they complete. */
  function Split(n: nat, p: nat, h: nat): (s: string)
    requires State(n, p, h)
  {
    if n == 0 then "" else if n == 1 then [Byte(h * 4 + p)] else [Byte(h * 16 + p)]
  }

  function LeftAt(n: nat): nat { if n == 0 then 0 else if n == 1 then 6 else 4 }

  lemma OneEndDecodes(p: nat, h: nat, k: string)
    requires State(1, p, h)
    ensures DecodeFrom([Sextet(p * 16), PAD, PAD] + k, 6, h) == After([Byte(h * 4 + p), '\0', '\0'], 2, DecodeFrom(k, 0, 0))
  {
    hide DecodeFrom, Sextet, SextetValue;
    assert (h * 64 + p * 16) / 16 == h * 4 + p && (h * 64 + p * 16) % 16 == 0 && Byte(0) == '\0';
    SextetTaken(p * 16, [PAD] + ([PAD] + k), 6, h);
    PadTaken([PAD] + k, 4, 0);
    PadTaken(k, 2, 0);
    assert [Sextet(p * 16), PAD, PAD] + k == [Sextet(p * 16)] + ([PAD] + ([PAD] + k));
  }

  lemma TwoEndDecodes(p: nat, h: nat, k: string)
    requires State(2, p, h)
    ensures DecodeFrom([Sextet(p * 4), PAD] + k, 4, h) == After([Byte(h * 16 + p), '\0'], 1, DecodeFrom(k, 0, 0))
  {
    hide DecodeFrom, Sextet, SextetValue;
    assert (h * 64 + p * 4) / 4 == h * 16 + p && (h * 64 + p * 4) % 4 == 0 && Byte(0) == '\0';
    SextetTaken(p * 4, [PAD] + k, 4, h);
    PadTaken(k, 2, 0);
    assert [Sextet(p * 4), PAD] + k == [Sextet(p * 4)] + ([PAD] + k);
  }

  lemma EndDecodes(n: nat, p: nat, h: nat, k: string)
    requires State(n, p, h)
    ensures DecodeFrom(Emit(n, p, "") + k, LeftAt(n), h)
              == After(Split(n, p, h) + Zeros(PadLen(n)), PadLen(n), DecodeFrom(k, 0, 0))
  {
    hide DecodeFrom, Sextet;
    if n == 0 {
      assert "" + k == k && "" + Zeros(0) == "";
    } else if n == 1 {
      OneEndDecodes(p, h, k);
      assert Split(1, p, h) + Zeros(2) == [Byte(h * 4 + p), '\0', '\0'];
    } else {
      TwoEndDecodes(p, h, k);
      assert Split(2, p, h) + Zeros(1) == [Byte(h * 16 + p), '\0'];
    }
  }

  lemma FirstDecodes(x: nat, k: string)
    requires x < 256
    ensures DecodeFrom([Sextet(x / 4)] + k, 0, 0) == DecodeFrom(k, 6, x / 4)
  {
    hide DecodeFrom, Sextet;
    SextetTaken(x / 4, k, 0, 0);
  }

  lemma SecondDecodes(p: nat, h: nat, x: nat, k: string)
    requires State(1, p, h) && x < 256
    ensures DecodeFrom([Sextet(p * 16 + x / 16)] + k, 6, h) == After(Split(1, p, h), 0, DecodeFrom(k, 4, x / 16))
  {
    hide DecodeFrom, Sextet;
    var all := h * 64 + (p * 16 + x / 16);
    assert all / 16 == h * 4 + p && all % 16 == x / 16;
    SextetTaken(p * 16 + x / 16, k, 6, h);
  }

  lemma ThirdDecodes(p: nat, h: nat, x: nat, k: string)
    requires State(2, p, h) && x < 256
    ensures DecodeFrom([Sextet(p * 4 + x / 64), Sextet(x % 64)] + k, 4, h)
              == After(Split(2, p, h) + [Byte(x)], 0, DecodeFrom(k, 0, 0))
  {
    hide DecodeFrom, Sextet;
    var all := h * 64 + (p * 4 + x / 64);
    assert all / 4 == h * 16 + p && all % 4 == x / 64;
    SextetTaken(p * 4 + x / 64, [Sextet(x % 64)] + k, 4, h);
    SextetTaken(x % 64, k, 2, x / 64);
    assert [Sextet(p * 4 + x / 64), Sextet(x % 64)] + k == [Sextet(p * 4 + x / 64)] + ([Sextet(x % 64)] + k);
  }

  lemma EmitStep(n: nat, p: nat, x: nat, rest: string)
    requires n < 3 && p < (if n == 0 then 1 else if n == 1 then 4 else 16) && x < 256
    ensures var b := [Byte(x)] + rest;
      && (n == 0 ==> Emit(n, p, b) == [Sextet(x / 4)] + Emit(1, x % 4, rest))
      && (n == 1 ==> Emit(n, p, b) == [Sextet(p * 16 + x / 16)] + Emit(2, x % 16, rest))
      && (n == 2 ==> Emit(n, p, b) == [Sextet(p * 4 + x / 64), Sextet(x % 64)] + Emit(0, 0, rest))
  {
    hide Sextet;
    var b := [Byte(x)] + rest;
    assert b[1..] == rest && Octet(b[0]) == x;
  }

  lemma SplitOctet(x: nat)
    requires x < 256
    ensures Split(1, x % 4, x / 4) == [Byte(x)] && Split(2, x % 16, x / 16) == [Byte(x)]
  {}

  lemma NoSplit(b: string)
    ensures Split(0, 0, 0) + b == b
  {}

  /** Decoding the rest of a line gives the octet at hand, the octets of the rest and a
      zero for each padding character. */
  ghost predicate LineOk(n: nat, p: nat, h: nat, b: string, k: string)
    requires State(n, p, h)
  {
    var pads := PadLen(n + |b|);
    DecodeFrom(Emit(n, p, b) + k, LeftAt(n), h) == After(Split(n, p, h) + b + Zeros(pads), pads, DecodeFrom(k, 0, 0))
  }

  lemma FirstOk(x: nat, rest: string, k: string)
    requires x < 256 && LineOk(1, x % 4, x / 4, rest, k)
    ensures LineOk(0, 0, 0, [Byte(x)] + rest, k)
  {
    hide DecodeFrom, Sextet, Emit, Split, Zeros, After, PadLen, Pending;
    var b, more := [Byte(x)] + rest, Emit(1, x % 4, rest);
    assert Emit(0, 0, b) == [Sextet(x / 4)] + more by { EmitStep(0, 0, x, rest); }
    FirstDecodes(x, more + k);
    Assoc([Sextet(x / 4)], more, k);
    SplitOctet(x);
    NoSplit(b);
  }

  lemma SecondOk(p: nat, h: nat, x: nat, rest: string, k: string)
    requires State(1, p, h) && x < 256 && LineOk(2, x % 16, x / 16, rest, k)
    ensures LineOk(1, p, h, [Byte(x)] + rest, k)
  {
    hide DecodeFrom, Sextet, Emit, Split, Zeros, After, PadLen;
    var b, more := [Byte(x)] + rest, Emit(2, x % 16, rest);
    assert Emit(1, p, b) == [Sextet(p * 16 + x / 16)] + more by { EmitStep(1, p, x, rest); }
    SecondDecodes(p, h, x, more + k);
    Assoc([Sextet(p * 16 + x / 16)], more, k);
    SplitOctet(x);
    var pads := PadLen(1 + |b|);
    AfterTwice(Split(1, p, h), 0, b + Zeros(pads), pads, DecodeFrom(k, 0, 0));
    Assoc(Split(1, p, h), b, Zeros(pads));
  }

  lemma ThirdOk(p: nat, h: nat, x: nat, rest: string, k: string)
    requires State(2, p, h) && x < 256 && LineOk(0, 0, 0, rest, k)
    ensures LineOk(2, p, h, [Byte(x)] + rest, k)
  {
    hide DecodeFrom, Sextet, Emit, Split, Zeros, After, PadLen;
    var b, more := [Byte(x)] + rest, Emit(0, 0, rest);
    assert Emit(2, p, b) == [Sextet(p * 4 + x / 64), Sextet(x % 64)] + more by { EmitStep(2, p, x, rest); }
    ThirdDecodes(p, h, x, more + k);
    Assoc([Sextet(p * 4 + x / 64), Sextet(x % 64)], more, k);
    NoSplit(rest);
    var pads := PadLen(2 + |b|);
    assert PadLen(0 + |rest|) == pads by { SamePads(|rest|); }
    AfterTwice(Split(2, p, h) + [Byte(x)], 0, rest + Zeros(pads), pads, DecodeFrom(k, 0, 0));
    Assoc(Split(2, p, h) + [Byte(x)], rest, Zeros(pads));
    Assoc(Split(2, p, h), [Byte(x)], rest);
  }

  lemma SamePads(m: nat)
    ensures PadLen(m) == PadLen(m + 3)
  {}

  lemma {:induction false} LineDecodes(n: nat, p: nat, h: nat, b: string, k: string)
    requires State(n, p, h) && AreOctets(b)
    ensures LineOk(n, p, h, b, k)
    decreases |b|
  {
    hide LineOk;
    if b == "" {
      assert LineOk(n, p, h, b, k) by { EndOk(n, p, h, k); }
    } else {
      var x, rest := Octet(b[0]), b[1..];
      assert b == [Byte(x)] + rest;
      if n == 0 {
        LineDecodes(1, x % 4, x / 4, rest, k);
        FirstOk(x, rest, k);
      } else if n == 1 {
        LineDecodes(2, x % 16, x / 16, rest, k);
        SecondOk(p, h, x, rest, k);
      } else {
        LineDecodes(0, 0, 0, rest, k);
        ThirdOk(p, h, x, rest, k);
      }
    }
  }

  lemma EndOk(n: nat, p: nat, h: nat, k: string)
    requires State(n, p, h)
    ensures LineOk(n, p, h, "", k)
  {
    hide DecodeFrom, Sextet, Emit, Split, Zeros;
    EndDecodes(n, p, h, k);
    assert Split(n, p, h) + "" == Split(n, p, h);
  }

  // ---------------------------------------------------------------------
  // Whole texts

  lemma OneSkipped(c: char, k: string)
    requires c == CR || c == LF
    ensures DecodeFrom([c] + k, 0, 0) == DecodeFrom(k, 0, 0)
  {
    hide SextetValue, Shifted;
    assert ([c] + k)[1..] == k && ([c] + k)[0] == c;
  }

  lemma DelimiterSkipped(nl: string, k: string)
    requires nl == [LF] || nl == [CR, LF]
    ensures DecodeFrom(nl + k, 0, 0) == DecodeFrom(k, 0, 0)
  {
    hide DecodeFrom;
    OneSkipped(LF, k);
    if nl == [CR, LF] {
      OneSkipped(CR, [LF] + k);
      assert [CR, LF] + k == [CR] + ([LF] + k);
    }
  }

  lemma {:induction false} LinesDecode(b: string, nl: string)
    requires AreOctets(b) && (nl == [LF] || nl == [CR, LF])
    ensures DecodeFrom(EncodedLines(b, nl), 0, 0) == Bits(b + Zeros(PadLen(|b|)), 0, PadLen(|b|))
    decreases |b|
  {
    hide Emit, DecodeFrom, Zeros;
    if b == "" {
      NothingDecoded();
      assert "" + Zeros(0) == "";
    } else {
      var n := LineLen(b);
      LinesDecode(b[n..], nl);
      OneLineDecodes(b[..n], nl + EncodedLines(b[n..], nl));
      DelimiterSkipped(nl, EncodedLines(b[n..], nl));
      LinesJoined(b, n);
    }
  }

  lemma OneLineDecodes(line: string, k: string)
    requires AreOctets(line)
    ensures DecodeFrom(Emit(0, 0, line) + k, 0, 0) == After(line + Zeros(PadLen(|line|)), PadLen(|line|), DecodeFrom(k, 0, 0))
  {
    hide Emit, DecodeFrom, Zeros;
    LineDecodes(0, 0, 0, line, k);
    NoSplit(line);
  }

  lemma LinesJoined(b: string, n: nat)
    requires n == LineLen(b)
    ensures After(b[..n] + Zeros(PadLen(n)), PadLen(n), Bits(b[n..] + Zeros(PadLen(|b| - n)), 0, PadLen(|b| - n)))
              == Bits(b + Zeros(PadLen(|b|)), 0, PadLen(|b|))
  {
    hide Zeros;
    if n < |b| {
      assert PadLen(|b| - n) == PadLen(|b|) && PadLen(n) == 0;
      assert (b[..n] + Zeros(0)) + (b[n..] + Zeros(PadLen(|b|))) == b + Zeros(PadLen(|b|));
    } else {
      assert (b[..n] + Zeros(PadLen(n))) + (b[n..] + Zeros(0)) == b + Zeros(PadLen(|b|));
    }
  }

  lemma NothingDecoded()
    ensures DecodeFrom("", 0, 0) == Bits("", 0, 0)
  {}

  /** What the characters of the encoding are. */
  lemma {:induction false} EmittedChars(n: nat, p: nat, b: string, c: char)
    requires n < 3 && p < (if n == 0 then 1 else if n == 1 then 4 else 16) && c in Emit(n, p, b)
    ensures IsAlpha(c) || IsDigit(c) || c in {'+', '/', PAD}
    decreases |b|
  {
    if b != "" {
      var x := Octet(b[0]);
      var n', p' := if n == 2 then 0 else n + 1, if n == 0 then x % 4 else if n == 1 then x % 16 else 0;
      if c in Emit(n', p', b[1..]) { EmittedChars(n', p', b[1..], c); }
    }
  }

  lemma {:induction false} LineChars(b: string, nl: string, c: char)
    requires c in EncodedLines(b, nl)
    ensures IsAlpha(c) || IsDigit(c) || c in {'+', '/', PAD} || c in nl
    decreases |b|
  {
    hide Emit;
    if b != "" {
      var n := LineLen(b);
      if c in Emit(0, 0, b[..n]) { EmittedChars(0, 0, b[..n], c); }
      else if c !in nl { LineChars(b[n..], nl, c); }
    }
  }

  /** The encoding is plain ASCII in whole lines. */
  lemma EncodedChars(b: string, c: char)
    requires c in Encode64(b)
    ensures IsAlpha(c) || IsDigit(c) || c in {'+', '/', PAD, CR, LF}
  {
    if b != "" { LineChars(b, [CR, LF], c); }
  }

  lemma {:induction false} LinesEnd(b: string, nl: string)
    requires nl != ""
    ensures b != "" ==> var s := EncodedLines(b, nl); s != "" && s[|s| - 1] == nl[|nl| - 1]
    decreases |b|
  {
    hide Emit;
    if b != "" { LinesEnd(b[LineLen(b)..], nl); }
  }

  lemma {:induction false} NormaliseLines(b: string)
    ensures Normalise(EncodedLines(b, [CR, LF])) == EncodedLines(b, [LF])
    decreases |b|
  {
    hide Emit, Normalise;
    if b == "" {
      CrFreeStays("");
    } else {
      var n := LineLen(b);
      var line, more := Emit(0, 0, b[..n]), EncodedLines(b[n..], [CR, LF]);
      var s := line + ([CR, LF] + more);
      if CR in line { EmittedChars(0, 0, b[..n], CR); }
      assert s[..|line|] == line && s[|line|] == CR && s[|line| + 1] == LF && s[|line| + 2..] == more;
      CrStep(s, |line|);
      NormaliseLines(b[n..]);
      Assoc(line, [LF], Normalise(more));
    }
  }

  lemma EmptyDecodes()
    ensures Decode64([CR, LF]) == Some("") && Normalise([CR, LF]) == [LF] && Decode64([LF] + [LF]) == Some("")
  {
    hide DecodeFrom;
    var crlf, lf := [CR, LF], [LF];
    assert crlf[2..] == "";
    NothingDecoded();
    DelimiterSkipped(crlf, "");
    DelimiterSkipped(lf, lf);
    DelimiterSkipped(lf, "");
    assert crlf + "" == crlf && lf + "" == lf;
  }

  /** Octets come back from their encoding, also when its line delimiters were
      normalised and after an empty line. */
  lemma Base64RoundTrip(b: string)
    requires AreOctets(b)
    ensures Decode64(Encode64(b)) == Some(b) && Decode64([LF] + Normalise(Encode64(b))) == Some(b)
  {
    hide EncodedLines, Normalise, DecodeFrom;
    if b == "" {
      EmptyDecodes();
    } else {
      NormaliseLines(b);
      LinesDecode(b, [CR, LF]);
      LinesDecode(b, [LF]);
      DelimiterSkipped([LF], EncodedLines(b, [LF]));
      assert (b + Zeros(PadLen(|b|)))[..|b|] == b;
    }
  }

  // ---------------------------------------------------------------------
  // The loops

  lemma NextDecoded(ascii: string, i: nat, left: nat, held: nat)
    requires i < |ascii| && Pending(left, held)
    ensures var c, rest := ascii[i] as int % 128, ascii[i + 1..];
      DecodeFrom(ascii[i..], left, held) ==
        if Skipped(c) then DecodeFrom(rest, left, held)
        else
          var (octets, left', held') := Shifted(left, held, SextetValue(c).value);
          After(octets, if c == PAD as int then 1 else 0, DecodeFrom(rest, left', held'))
  {
    hide Skipped, Shifted, SextetValue;
    assert ascii[i..][0] == ascii[i] && ascii[i..][1..] == ascii[i + 1..];
  }

  /** xmlrpc_base64_decode(): the buffer, whose size is set aside beforehand, is never
      overrun. */
  method Base64Decode(ascii: string) returns (r: Option<string>)
    ensures r == Decode64(ascii)
  {
    hide DecodeFrom, SextetValue, Shifted, After;
    var bufferSize := (|ascii| + 3) / 4 * 3;
    var buffer := new char[bufferSize](_ => '\0');
    var binLen: nat, leftbits: nat, leftchar: nat, npad: nat, i: nat := 0, 0, 0, 0, 0;
    ghost var total := DecodeFrom(ascii, 0, 0);
    assert ascii[0..] == ascii && After("", 0, total) == total by { AfterNothing(total); }
    while i < |ascii|
      invariant i <= |ascii| && Pending(leftbits, leftchar)
      invariant 8 * binLen + leftbits <= 6 * i && binLen <= bufferSize
      invariant total == After(buffer[..binLen], npad, DecodeFrom(ascii[i..], leftbits, leftchar))
    {
      NextDecoded(ascii, i, leftbits, leftchar);
      var thisCh := ascii[i] as int % 128;
      if !(thisCh in {13, 10, 32} || SextetValue(thisCh).None?) {
        var v := SextetValue(thisCh).value;
        ghost var (octets, left', held') := Shifted(leftbits, leftchar, v);
        ghost var before := buffer[..binLen];
        AfterTwice(before, npad, octets, if thisCh == PAD as int then 1 else 0, DecodeFrom(ascii[i + 1..], left', held'));
        ShiftedIs(leftbits, leftchar, v);
        if thisCh == PAD as int { npad := npad + 1; }
        leftchar := leftchar * 64 + v;
        leftbits := leftbits + 6;
        if leftbits >= 8 {
          leftbits := leftbits - 8;
          assert binLen < bufferSize;
          buffer[binLen] := Byte(leftchar / Span(leftbits) % 256);
          leftchar := leftchar % Span(leftbits);
          binLen := binLen + 1;
        }
        assert buffer[..binLen] == before + octets;
      }
      i := i + 1;
    }
    NothingHeld(ascii, i, leftbits, leftchar, buffer[..binLen], npad);
    if leftbits != 0 { return None; }
    if npad > binLen || npad > 2 { return None; }
    assert buffer[..binLen][..binLen - npad] == buffer[..binLen - npad];
    r := Some(buffer[..binLen - npad]);
  }

  lemma AfterNothing(d: Bits)
    ensures After("", 0, d) == d
  {}

  lemma ShiftedIs(left: nat, held: nat, v: nat)
    requires Pending(left, held) && v < 64
    ensures var all := held * 64 + v;
      Shifted(left, held, v) ==
        if left + 6 >= 8 then ([Byte(all / Span(left - 2) % 256)], left - 2, all % Span(left - 2)) else ("", left + 6, all)
  {}

  lemma NothingHeld(ascii: string, i: nat, left: nat, held: nat, octets: string, pads: nat)
    requires i == |ascii| && Pending(left, held)
    ensures After(octets, pads, DecodeFrom(ascii[i..], left, held)) == Bits(octets, left, pads)
  {
    assert octets + "" == octets;
  }

  /** The characters still to be written for the low `bits` bits `m`, and then for `b`. */
  ghost function Flush(bits: nat, m: nat, b: string): string
    requires bits in {0, 2, 4, 6, 8, 10, 12} && m < Span(bits)
  {
    if bits < 6 then Emit(bits / 2, m, b)
    else [Sextet(m / Span(bits - 6))] + Flush(bits - 6, m % Span(bits - 6), b)
  }

  lemma ShiftIn(bits: nat, leftchar: nat, x: nat, rest: string)
    requires bits in {0, 2, 4} && x < 256
    ensures var shifted := (leftchar * 256 + x) % 0x1_0000_0000;
      Flush(bits, leftchar % Span(bits), [Byte(x)] + rest) == Flush(bits + 8, shifted % Span(bits + 8), rest)
  {
    hide Emit, Sextet;
    var m, p := (leftchar * 256 + x) % 0x1_0000_0000 % Span(bits + 8), leftchar % Span(bits);
    LowBits(bits, leftchar, x);
    EmitStep(bits / 2, p, x, rest);
    if bits == 0 {
      assert m == x && m / 4 == x / 4 && m % 4 == x % 4;
    } else if bits == 2 {
      assert m / 16 == p * 16 + x / 16 && m % 16 == x % 16;
    } else {
      assert m / 64 == p * 4 + x / 64 && m % 64 == x % 64;
      assert Flush(6, x % 64, rest) == [Sextet(x % 64)] + Flush(0, 0, rest);
      assert [Sextet(p * 4 + x / 64), Sextet(x % 64)] + Emit(0, 0, rest) == [Sextet(p * 4 + x / 64)] + ([Sextet(x % 64)] + Emit(0, 0, rest));
    }
  }

  lemma HeadOctet(bits: nat, m: nat, b: string)
    requires bits in {0, 2, 4} && m < Span(bits) && b != ""
    ensures Flush(bits, m, b) == Flush(bits, m, [Byte(Octet(b[0]))] + b[1..])
  {
    hide Sextet;
    var t := [Byte(Octet(b[0]))] + b[1..];
    assert t[1..] == b[1..] && Octet(t[0]) == Octet(b[0]);
  }

  lemma LowBits(bits: nat, leftchar: nat, x: nat)
    requires bits in {0, 2, 4} && x < 256
    ensures (leftchar * 256 + x) % 0x1_0000_0000 % Span(bits + 8) == leftchar % Span(bits) * 256 + x
  {
    var all, k := leftchar * 256 + x, Span(bits);
    if bits == 0 { LowSpan(all, 256, 0x100_0000); }
    else if bits == 2 { LowSpan(all, 1024, 0x40_0000); }
    else { LowSpan(all, 4096, 0x10_0000); }
    DivModIs(all, 256 * k, leftchar / k, leftchar % k * 256 + x);
  }

  lemma MulStep(a: nat, b: nat, k: nat)
    requires a < b
    ensures a * k + k <= b * k
  {
    var d := b - a - 1;
    assert b * k == (a + 1 + d) * k == a * k + k + d * k;
  }

  lemma SameDivision(q: nat, r: nat, q': nat, r': nat, k: nat)
    requires q * k + r == q' * k + r' && r < k && r' < k
    ensures q == q' && r == r'
  {
    if q < q' { MulStep(q, q', k); }
    if q' < q { MulStep(q', q, k); }
  }

  lemma Division(n: nat, k: nat) returns (q: nat, r: nat)
    requires k > 0
    ensures q == n / k && r == n % k && n == q * k + r && r < k
  {
    q, r := n / k, n % k;
  }

  lemma DivModIs(n: nat, k: nat, q: nat, r: nat)
    requires n == q * k + r && r < k
    ensures n / k == q && n % k == r
  {
    var q', r' := Division(n, k);
    SameDivision(q, r, q', r', k);
  }

  lemma LowSpan(n: nat, k: nat, m: nat)
    requires k > 0 && m > 0
    ensures k * m > 0 && n % (k * m) % k == n % k
  {
    MulStep(0, k, m);
    var q, r := Division(n, k * m);
    var t, u := Division(r, k);
    Regroup(q, k, m, t);
    DivModIs(n, k, q * m + t, u);
  }

  lemma Regroup(q: nat, k: nat, m: nat, t: nat)
    ensures q * (k * m) + t * k == (q * m + t) * k
  {}

  lemma WriteSextet(bits: nat, leftchar: nat, b: string)
    requires bits in {6, 8, 10, 12}
    ensures Flush(bits, leftchar % Span(bits), b)
              == [Sextet(leftchar / Span(bits - 6) % 64)] + Flush(bits - 6, leftchar % Span(bits - 6), b)
  {
    hide Emit, Sextet;
    MiddleBits(leftchar, Span(bits - 6));
  }

  lemma MiddleBits(n: nat, k: nat)
    requires k > 0
    ensures n / k % 64 == n % (64 * k) / k && n % (64 * k) % k == n % k
  {
    var q, r := Division(n, 64 * k);
    var t, u := Division(r, k);
    Regroup(q, k, 64, t);
    DivModIs(n, k, q * 64 + t, u);
    if t >= 64 { MulStep(63, t, k); }
    DivModIs(q * 64 + t, 64, q, t);
  }

  /** The characters of one line, in a buffer that is never overrun. */
  method EncodeLine(line: string) returns (s: string)
    requires |line| <= MAXBIN
    ensures s == Emit(0, 0, line)
  {
    hide Emit, Flush;
    var lineBuffer := new char[128](_ => '\0');
    var ascii: nat, leftbits: nat, leftchar: nat, i: nat := 0, 0, 0, 0;
    assert line[0..] == line && Flush(0, 0, line) == Emit(0, 0, line) by { FlushLast(0, 0, line); }
    assert lineBuffer[..0] + Emit(0, 0, line) == Emit(0, 0, line);
    while i < |line|
      invariant i <= |line| && leftbits in {0, 2, 4} && ascii * 6 + leftbits == 8 * i
      invariant lineBuffer[..ascii] + Flush(leftbits, leftchar % Span(leftbits), line[i..]) == Emit(0, 0, line)
    {
      var x := Octet(line[i]);
      assert line[i..][0] == line[i] && line[i..][1..] == line[i + 1..];
      HeadOctet(leftbits, leftchar % Span(leftbits), line[i..]);
      ShiftIn(leftbits, leftchar, x, line[i + 1..]);
      leftchar := (leftchar * 256 + x) % 0x1_0000_0000;
      leftbits := leftbits + 8;
      while leftbits >= 6
        invariant leftbits in {0, 2, 4, 6, 8, 10, 12} && ascii * 6 + leftbits == 8 * (i + 1)
        invariant lineBuffer[..ascii] + Flush(leftbits, leftchar % Span(leftbits), line[i + 1..]) == Emit(0, 0, line)
      {
        WriteSextet(leftbits, leftchar, line[i + 1..]);
        ghost var before := lineBuffer[..ascii];
        lineBuffer[ascii] := Sextet(leftchar / Span(leftbits - 6) % 64);
        Assoc(before, [lineBuffer[ascii]], Flush(leftbits - 6, leftchar % Span(leftbits - 6), line[i + 1..]));
        leftbits := leftbits - 6;
        ascii := ascii + 1;
        assert lineBuffer[..ascii] == before + [lineBuffer[ascii - 1]];
      }
      i := i + 1;
    }
    assert line[i..] == "";
    FlushLast(leftbits, leftchar % Span(leftbits), "");
    EmitNothing(leftbits / 2, leftchar % Span(leftbits));
    s := lineBuffer[..ascii];
    assert s + "" == s;
    if leftbits == 2 {
      s := s + [Sextet(leftchar % 4 * 16), PAD, PAD];
    } else if leftbits == 4 {
      s := s + [Sextet(leftchar % 16 * 4), PAD];
    }
  }

  lemma FlushLast(bits: nat, m: nat, b: string)
    requires bits in {0, 2, 4} && m < Span(bits)
    ensures Flush(bits, m, b) == Emit(bits / 2, m, b)
  {}

  lemma EmitNothing(n: nat, p: nat)
    requires n < 3 && p < (if n == 0 then 1 else if n == 1 then 4 else 16)
    ensures Emit(n, p, "") == if n == 0 then "" else if n == 1 then [Sextet(p * 16), PAD, PAD] else [Sextet(p * 4), PAD]
  {}

  /** base64Encode() */
  method Base64Encode(binData: string, wantNewlines: bool) returns (out: string)
    ensures out == if wantNewlines then Encode64(binData) else EncodedLines(binData, "")
  {
    hide Emit, EncodedLines;
    var nl := if wantNewlines then [CR, LF] else "";
    if binData == "" {
      NoLines(nl);
      return nl;
    }
    out := "";
    var chunkStart: nat := 0;
    assert Rest(binData, 0, |binData|) == binData && "" + EncodedLines(binData, nl) == EncodedLines(binData, nl);
    while chunkStart < |binData|
      invariant out + EncodedLines(Rest(binData, chunkStart, |binData|), nl) == EncodedLines(binData, nl)
    {
      var rest := binData[chunkStart..];
      assert Rest(binData, chunkStart, |binData|) == rest;
      var chunk := if |rest| > MAXBIN then MAXBIN else |rest|;
      var line := EncodeLine(rest[..chunk]);
      OneLine(rest, nl);
      assert Rest(binData, chunkStart + MAXBIN, |binData|) == rest[LineLen(rest)..];
      Assoc(line, nl, EncodedLines(rest[LineLen(rest)..], nl));
      Assoc(out, line + nl, EncodedLines(rest[LineLen(rest)..], nl));
      out := out + (line + nl);
      chunkStart := chunkStart + MAXBIN;
    }
    NoLines(nl);
    assert out + "" == out;
  }

  lemma NoLines(nl: string)
    ensures EncodedLines("", nl) == ""
  {}

  lemma OneLine(b: string, nl: string)
    requires b != ""
    ensures EncodedLines(b, nl) == Emit(0, 0, b[..LineLen(b)]) + (nl + EncodedLines(b[LineLen(b)..], nl))
  {}
}
