/** The tokens of JSON documents, told by how they are written: gaps of blanks and comments,
string bodies of characters and escapes, and words that are numbers or keywords. */
module JsonTokens {
  import opened Text
  import opened Utf8Text
  import opened Values
  import opened Numerals
  import opened NumeralForms
  import opened JsonLexer
  import opened JsonStrings
  import opened JsonGrammar
  import opened JsonRoundTrip

  // ---------------------------------------------------------------------
  // Gaps

  /** One white space character, or a comment with its line end. */
  datatype Blank = Space(c: char) | Comment(line: string)

  ghost predicate BlankOk(b: Blank) {
    match b
    case Space(c) => IsSpace(c)
    case Comment(line) => LineOk(line)
  }

  ghost predicate LineOk(line: string) { forall i :: 0 <= i < |line| ==> line[i] != '\n' && line[i] != '\0' }

  ghost predicate GapOk(g: seq<Blank>) { forall b :: b in g ==> BlankOk(b) }

  function BlankK(b: Blank, k: string): string {
    match b
    case Space(c) => [c] + k
    case Comment(line) => "//" + (line + ("\n" + k))
  }

  /** The gap and then `k`. */
  function GapK(g: seq<Blank>, k: string): string { if g == [] then k else BlankK(g[0], GapK(g[1..], k)) }

  lemma {:induction false} LineMeasured(line: string, k: string)
    requires LineOk(line) && (k == "" || k[0] in {'\n', '\0'})
    ensures JsonLexer.LineLen(line + k) == |line|
  {
    if line == "" {
      assert line + k == k;
    } else {
      LineMeasured(line[1..], k);
      assert (line + k)[1..] == line[1..] + k;
    }
  }

  lemma CommentMeasured(line: string, k: string)
    requires LineOk(line) && (k == "" || k[0] in {'\n', '\0'})
    ensures var r := "//" + (line + k);
      AtComment(r) && JsonLexer.LineLen(r) == |line| + 2 && r[|line| + 2..] == k
  {
    var r := "//" + (line + k);
    LineMeasured(line, k);
    assert r[1..] == "/" + (line + k) && r[1..][1..] == line + k;
    assert (line + k)[|line|..] == k;
  }

  lemma BlankPassed(b: Blank, k: string)
    requires BlankOk(b)
    ensures var n := |BlankK(b, k)| - |k|;
      n >= 0 && BlankLen(BlankK(b, k)) == n + BlankLen(k) && BlankK(b, k)[n..] == k
  {
    var r := BlankK(b, k);
    match b
    case Space(c) => assert r[1..] == k;
    case Comment(line) =>
      CommentMeasured(line, "\n" + k);
      assert r[|line| + 2..] == "\n" + k && ("\n" + k)[1..] == k;
      assert r[|line| + 3..] == r[|line| + 2..][1..];
  }

  /** A gap does not change the token that comes next. */
  lemma {:induction false} GapSkipped(g: seq<Blank>, k: string)
    requires GapOk(g)
    ensures Next(GapK(g, k)) == Next(k)
  {
    hide Next, BlankK, BlankOk;
    if g != [] {
      assert g[0] in g && forall b :: b in g[1..] ==> b in g;
      GapSkipped(g[1..], k);
      OneBlankSkipped(g[0], GapK(g[1..], k));
    }
  }

  lemma OneBlankSkipped(b: Blank, k: string)
    requires BlankOk(b)
    ensures Next(BlankK(b, k)) == Next(k)
  {
    hide Next, BlankLen, BlankK, BlankOk;
    BlankPassed(b, k);
    NextShift(BlankK(b, k), |BlankK(b, k)| - |k|, k);
  }

  lemma NextShift(r: string, m: nat, k: string)
    requires m <= |r| && r[m..] == k && BlankLen(r) == m + BlankLen(k)
    ensures Next(r) == Next(k)
  {
    hide TokenAt, BlankLen;
    var n := BlankLen(k);
    assert r[m + n..] == k[n..];
    if TokenAt(k[n..]).Some? {
      var len := TokenAt(k[n..]).value.1;
      SliceOfSlice(r, m, |r|, n, n + len);
      assert r[m..|r|] == k;
      assert r[m + n + len..] == k[n + len..];
    }
  }

  /** What a gap leaves does not extend a word. */
  lemma GapDelimits(g: seq<Blank>, k: string)
    requires GapOk(g) && Delimits(k)
    ensures Delimits(GapK(g, k))
  {
    if g != [] { assert BlankOk(g[0]); }
  }

  /** White space and comments in front of a token were written as a gap. */
  lemma {:induction false} GapRead(r: string) returns (g: seq<Blank>)
    requires BlankLen(r) < |r| && r[BlankLen(r)] != '\0'
    ensures GapOk(g) && r == GapK(g, r[BlankLen(r)..])
    decreases |r|
  {
    hide BlankLen, AtComment;
    if BlankLen(r) == 0 {
      g := [];
      assert r[0..] == r;
    } else {
      var b, rest := BlankRead(r);
      var h := GapRead(rest);
      g := [b] + h;
      assert g[1..] == h;
    }
  }

  /** The first blank, and what follows it. */
  lemma BlankRead(r: string) returns (b: Blank, rest: string)
    requires 0 < BlankLen(r) < |r| && r[BlankLen(r)] != '\0'
    ensures BlankOk(b) && r == BlankK(b, rest) && |rest| < |r|
    ensures BlankLen(rest) < |rest| && rest[BlankLen(rest)] == r[BlankLen(r)] && rest[BlankLen(rest)..] == r[BlankLen(r)..]
  {
    hide LineOk, BlankLen, BlankOk, BlankK, JsonLexer.LineLen, AtComment;
    if IsSpace(r[0]) {
      b, rest := Space(r[0]), r[1..];
      SpacePassed(r);
    } else {
      CommentStarts(r);
      b, rest := CommentRead(r);
    }
    TailsAgree(r, |r| - |rest|, BlankLen(rest));
  }

  lemma CommentRead(r: string) returns (b: Blank, rest: string)
    requires AtComment(r) && r[..2] == "//" && !IsSpace(r[0]) && BlankLen(r) < |r| && r[BlankLen(r)] != '\0'
    ensures BlankOk(b) && r == BlankK(b, rest) && |rest| < |r| && rest == r[|r| - |rest|..]
    ensures BlankLen(r) == |r| - |rest| + BlankLen(rest)
  {
    hide LineOk, BlankLen, JsonLexer.LineLen;
    var n := JsonLexer.LineLen(r);
    LineRead(r);
    CommentStops(r);
    b, rest := Comment(r[2..n]), r[n + 1..];
    CommentParts(r, n);
  }

  lemma SpacePassed(r: string)
    requires r != "" && IsSpace(r[0])
    ensures BlankLen(r) == 1 + BlankLen(r[1..]) && r == BlankK(Space(r[0]), r[1..]) && BlankOk(Space(r[0]))
  {}

  lemma TailsAgree(r: string, m: nat, n: nat)
    requires m + n < |r|
    ensures r[m..][n..] == r[m + n..] && r[m..][n] == r[m + n]
  {}

  lemma CommentParts(r: string, n: nat)
    requires 2 <= n < |r| && r[..2] == "//" && r[n] == '\n'
    ensures r == "//" + (r[2..n] + ("\n" + r[n + 1..]))
  {}

  lemma CommentStarts(r: string)
    requires BlankLen(r) > 0 && !IsSpace(r[0])
    ensures AtComment(r) && r[..2] == "//"
  {}

  lemma {:induction false} LineRead(r: string)
    ensures var n := JsonLexer.LineLen(r);
      LineOk(r[..n]) && (n < |r| ==> r[n] in {'\n', '\0'}) && (AtComment(r) ==> n >= 2 && LineOk(r[2..n]))
  {
    if Peek(r) != '\0' && r[0] != '\n' {
      LineRead(r[1..]);
      var n := JsonLexer.LineLen(r);
      assert r[..n] == [r[0]] + r[1..][..n - 1];
      assert n >= 2 ==> r[2..n] == r[..n][2..];
    }
  }

  /** A comment before a token is ended by a line end. */
  lemma CommentStops(r: string)
    requires AtComment(r) && !IsSpace(r[0]) && BlankLen(r) < |r| && r[BlankLen(r)] != '\0'
    ensures var n := JsonLexer.LineLen(r);
      n < |r| && r[n] == '\n' && BlankLen(r) == n + 1 + BlankLen(r[n + 1..])
  {
    hide LineOk, BlankLen, JsonLexer.LineLen;
    var n := JsonLexer.LineLen(r);
    LineRead(r);
    BlankIsComment(r);
    LineEndPassed(r, n);
  }

  lemma BlankIsComment(r: string)
    requires AtComment(r) && !IsSpace(r[0])
    ensures BlankLen(r) == JsonLexer.LineLen(r) + BlankLen(r[JsonLexer.LineLen(r)..])
  {
    hide JsonLexer.LineLen;
  }

  lemma LineEndPassed(r: string, n: nat)
    requires n <= |r|
    ensures n == |r| || r[n] == '\0' ==> BlankLen(r[n..]) == 0
    ensures n < |r| && r[n] == '\n' ==> BlankLen(r[n..]) == 1 + BlankLen(r[n + 1..])
  {
    if n < |r| { assert r[n..][1..] == r[n + 1..]; }
  }

  // ---------------------------------------------------------------------
  // The end of a document

  /** What may stand at the end of a document: a gap, a comment that no line end follows,
      and what is behind the first NUL. */
  datatype End = End(gap: seq<Blank>, comment: Option<string>, ignored: string)

  ghost predicate EndOk(e: End) {
    GapOk(e.gap) && (e.comment.Some? ==> LineOk(e.comment.value)) && (e.ignored == "" || e.ignored[0] == '\0')
  }

  function EndText(e: End): string { GapK(e.gap, EndTail(e)) }

  function EndTail(e: End): string { if e.comment.Some? then "//" + (e.comment.value + e.ignored) else e.ignored }

  lemma EndIsEof(e: End)
    requires EndOk(e)
    ensures Next(EndText(e)).Step? && Next(EndText(e)).typ == Eof && Delimits(EndText(e))
  {
    hide Next, GapK, GapOk, LineOk;
    TailIsEof(e);
    GapSkipped(e.gap, EndTail(e));
    GapDelimits(e.gap, EndTail(e));
  }

  lemma TailIsEof(e: End)
    requires EndOk(e)
    ensures Next(EndTail(e)).Step? && Next(EndTail(e)).typ == Eof && Delimits(EndTail(e))
  {
    hide GapK, GapOk, LineOk;
    var tail := EndTail(e);
    var m := |tail| - |e.ignored|;
    if e.comment.Some? { CommentMeasured(e.comment.value, e.ignored); } else { assert tail[0..] == tail; }
    hide JsonLexer.LineLen;
    assert BlankLen(e.ignored) == 0 && BlankLen(tail) == m;
  }

  lemma {:induction false} EndRead(r: string) returns (e: End)
    requires Next(r).Step? && Next(r).typ == Eof
    ensures EndOk(e) && EndText(e) == r
    decreases |r|
  {
    EofThere(r);
    hide Next, LineOk, AtComment;
    if Peek(r) == '\0' {
      e := End([], None, r);
    } else if IsSpace(r[0]) {
      e := EndAfter(r, Space(r[0]), r[1..]);
    } else {
      var n := JsonLexer.LineLen(r);
      LineRead(r);
      assert r[..2] == "//";
      if n < |r| && r[n] == '\n' {
        CommentParts(r, n);
        e := EndAfter(r, Comment(r[2..n]), r[n + 1..]);
      } else {
        e := End([], Some(r[2..n]), r[n..]);
        assert r == "//" + (r[2..n] + r[n..]);
      }
    }
  }

  lemma {:induction false} EndAfter(r: string, b: Blank, rest: string) returns (e: End)
    requires Next(r).Step? && Next(r).typ == Eof && BlankOk(b) && r == BlankK(b, rest) && |rest| < |r|
    ensures EndOk(e) && EndText(e) == r
    decreases |r|, 0
  {
    hide Next, LineOk;
    OneBlankSkipped(b, rest);
    var f := EndRead(rest);
    e := f.(gap := [b] + f.gap);
    assert e.gap[1..] == f.gap;
  }

  lemma EofThere(r: string)
    requires Next(r).Step? && Next(r).typ == Eof
    ensures Peek(r) == '\0' || IsSpace(r[0]) || (AtComment(r) && r[..2] == "//")
  {
    hide BodyLen, WordType, WordLen;
    if Peek(r) != '\0' && !IsSpace(r[0]) {
      if !AtComment(r) { TokenThere(r); }
    }
  }

  lemma TokenThere(r: string)
    requires r != "" && Peek(r) != '\0' && BlankLen(r) == 0
    ensures Next(r).Step? ==> Next(r).typ != Eof
  {
    hide BodyLen, WordType, WordLen, BlankLen;
    assert r[0..] == r;
  }

  // ---------------------------------------------------------------------
  // String bodies

  datatype Piece = Itself(c: char) | Slash(letter: char) | Unicode(digits: string)

  ghost predicate PieceOk(p: Piece) {
    match p
    case Itself(c) => c !in {'"', '\\', '\0'}
    case Slash(letter) => letter in {'"', '\\', '/', 'b', 'f', 'n', 'r', 't'}
    case Unicode(digits) => |digits| == 4 && forall i :: 0 <= i < 4 ==> IsHexDigit(digits[i])
  }

  ghost predicate BodyOk(ps: seq<Piece>) { forall p :: p in ps ==> PieceOk(p) }

  function PieceText(p: Piece): string {
    match p
    case Itself(c) => [c]
    case Slash(letter) => ['\\', letter]
    case Unicode(digits) => "\\u" + digits
  }

  function BodyText(ps: seq<Piece>): string { if ps == [] then "" else PieceText(ps[0]) + BodyText(ps[1..]) }

  /** The number four hexadecimal digits make. */
  ghost function HexNumber(digits: string): nat
    requires forall i :: 0 <= i < |digits| ==> IsHexDigit(digits[i])
  {
    if digits == "" then 0 else 16 * HexNumber(digits[..|digits| - 1]) + HexValue(digits[|digits| - 1])
  }

  /** The octets a piece stands for: itself, a control or a mark, or the UTF-8 form of the
      character with this number. */
  ghost function PieceMeaning(p: Piece): string
    requires PieceOk(p)
  {
    match p
    case Itself(c) => [c]
    case Slash(letter) =>
      if letter == 'b' then [Byte(8)] else if letter == 't' then [Byte(9)] else if letter == 'n' then [Byte(10)]
      else if letter == 'f' then [Byte(12)] else if letter == 'r' then [Byte(13)] else [letter]
    case Unicode(digits) => HexBelow(digits); Utf8(HexNumber(digits))
  }

  lemma HexBelow(digits: string)
    requires |digits| == 4 && forall i :: 0 <= i < 4 ==> IsHexDigit(digits[i])
    ensures HexNumber(digits) == Hex4Value(digits) < 0x10000
  {
    assert digits[..3][..2] == digits[..2] && digits[..2][..1] == digits[..1] && digits[..1][..0] == "";
    assert HexNumber(digits[..1]) == HexValue(digits[0]);
    assert HexNumber(digits[..2]) == 16 * HexNumber(digits[..1]) + HexValue(digits[1]);
    assert HexNumber(digits[..3]) == 16 * HexNumber(digits[..2]) + HexValue(digits[2]);
  }

  ghost function BodyMeaning(ps: seq<Piece>): string
    requires BodyOk(ps)
  {
    if ps == [] then "" else PieceMeaning(ps[0]) + BodyMeaning(ps[1..])
  }

  lemma PieceScanned(p: Piece, k: string)
    requires PieceOk(p)
    ensures var t := PieceText(p) + k;
      && t != "" && t[0] != '"' && t[0] != '\0' && t[|PieceText(p)|..] == k
      && BodyLen(t) == Plus(|PieceText(p)|, BodyLen(k))
      && Unescape(t) == Before(PieceMeaning(p), Unescape(k))
  {
    var t := PieceText(p) + k;
    match p
    case Itself(c) => assert t[1..] == k;
    case Slash(letter) => assert t[1] == letter && t[2..] == k;
    case Unicode(digits) =>
      assert t[1] == 'u' && t[2..6] == digits && t[6..] == k;
      assert t[2] == digits[0] && t[3] == digits[1] && t[4] == digits[2] && t[5] == digits[3];
      HexBelow(digits);
  }

  /** A string body is scanned to its closing quote, and unescaped to what it means. */
  lemma {:induction false} BodyScanned(ps: seq<Piece>, k: string)
    requires BodyOk(ps)
    ensures BodyLen(BodyText(ps) + ("\"" + k)) == Some(|BodyText(ps)|) && Unescape(BodyText(ps)) == Some(BodyMeaning(ps))
  {
    hide BodyOk, PieceOk, PieceText, PieceMeaning, BodyLen, Unescape;
    if ps == [] {
      EmptyBody(k);
    } else {
      BodyTail(ps);
      BodyScanned(ps[1..], k);
      var rest := BodyText(ps[1..]);
      PieceScanned(ps[0], rest + ("\"" + k));
      PieceScanned(ps[0], rest);
      Assoc(PieceText(ps[0]), rest, "\"" + k);
      assert BodyText(ps) == PieceText(ps[0]) + rest;
    }
  }

  lemma BodyTail(ps: seq<Piece>)
    requires BodyOk(ps) && ps != []
    ensures PieceOk(ps[0]) && BodyOk(ps[1..])
  {}

  lemma EmptyBody(k: string)
    ensures BodyLen("" + ("\"" + k)) == Some(0) && Unescape("") == Some("")
  {
    assert "" + ("\"" + k) == "\"" + k;
  }

  /** Every body the scanner accepts was written so. */
  lemma {:induction false} BodyRead(r: string) returns (ps: seq<Piece>)
    requires BodyLen(r).Some?
    ensures BodyOk(ps) && BodyText(ps) == r[..BodyLen(r).value]
    decreases |r|
  {
    var n := BodyLen(r).value;
    if r[0] == '"' {
      ps := [];
    } else {
      var p := PieceRead(r);
      var m := |PieceText(p)|;
      assert r == PieceText(p) + r[m..];
      PieceScanned(p, r[m..]);
      var rest := BodyRead(r[m..]);
      ps := [p] + rest;
      assert ps[1..] == rest;
      assert r[..n] == r[..m] + r[m..][..n - m];
    }
  }

  lemma PieceRead(r: string) returns (p: Piece)
    requires BodyLen(r).Some? && r != "" && r[0] != '"'
    ensures PieceOk(p) && PieceText(p) <= r
  {
    if r[0] != '\\' {
      p := Itself(r[0]);
    } else if IsSimpleEscape(PeekAt(r, 1)) {
      p := Slash(r[1]);
    } else {
      p := Unicode(r[2..6]);
      assert r[..6] == "\\u" + r[2..6];
    }
  }

  /** A body with its quotes. */
  function QuotedK(ps: seq<Piece>, k: string): string { "\"" + (BodyText(ps) + ("\"" + k)) }

  lemma QuotedIsNext(ps: seq<Piece>, k: string)
    requires BodyOk(ps)
    ensures var s := Next(QuotedK(ps, k));
      s.Step? && s.typ == StringToken && s.rest == k && StringValue(s.text) == Some(BodyMeaning(ps))
  {
    hide BodyOk, BodyText, BodyMeaning, Next, BodyLen, Unescape;
    BodyScanned(ps, k);
    NextString(BodyText(ps), k);
  }

  // ---------------------------------------------------------------------
  // Words

  ghost predicate IsWord(w: string) { w != "" && forall i :: 0 <= i < |w| ==> IsWordChar(w[i]) }

  /** What a word means: a whole number of 64 bits, a number with a point, or a keyword,
      which may be cut short. */
  ghost predicate WordMeans(w: string, v: Value) {
    match v
    case I8(n) => IsNumeral(w, n)
    case Double(d) => '.' in w && IsSignedDecimal(w, d)
    case Bool(b) => w <= if b then "true" else "false"
    case Nil => w <= "null" || w <= "undefined"
    case _ => false
  }

  /** The value of a word, as the parser makes it. */
  function WordValue(w: string): Option<Value> {
    match WordType(w)
    case Some(Integer) => (match ParseInt64(w) case Some(n) => Some(I8(n)) case None => None)
    case Some(Float) => if IsFloatWord(w) then Some(Double(FloatValue(w))) else None
    case Some(Null) => Some(Nil)
    case Some(Undefined) => Some(Nil)
    case Some(False) => Some(Bool(false))
    case Some(True) => Some(Bool(true))
    case _ => None
  }

  lemma IntegerExact(w: string, n: Int64)
    requires IsWord(w)
    ensures IsNumeral(w, n) <==> IsIntegerWord(w) && ParseInt64(w) == Some(n)
  {
    hide ParseInt64, DecimalValue;
    assert IsWordChar(w[0]);
    Int64Exact(w, n);
    NumeralIsRead(w, n);
    assert Unsigned(w) == Magnitude(w);
  }

  lemma FloatExact(w: string, d: real)
    requires IsWord(w)
    ensures IsSignedDecimal(w, d) <==> IsFloatWord(w) && FloatValue(w) == d
  {
    hide IsFloatBody, BodyValue, IsDecimal;
    assert IsWordChar(w[0]);
    BodyIsDecimal(w, d);
    BodyIsDecimal(w[1..], -d);
    if IsDecimal(w, d) { DecimalStarts(w, d); }
  }

  lemma NumberStarts(w: string)
    requires IsIntegerWord(w) || IsFloatWord(w)
    ensures IsDigit(w[0]) || w[0] == '-' || w[0] == '.'
  {
    if w[0] != '-' { assert Magnitude(w) == w; }
  }

  lemma IntegerHasNoPoint(w: string)
    ensures IsIntegerWord(w) ==> '.' !in w
    ensures IsFloatWord(w) && '.' !in w ==> IsIntegerWord(w)
  {
    var m := Magnitude(w);
    assert w == m || w == "-" + m;
    if IsFloatWord(w) && '.' !in w {
      assert forall i :: 0 <= i < |m| ==> m[i] in w;
    }
  }

  lemma KeywordPrefix(w: string, keyword: string)
    requires w != "" && keyword != ""
    ensures w <= keyword ==> w[0] == keyword[0]
  {}

  /** The type of a word follows from what it means, and the other way round. */
  lemma WordExact(w: string, v: Value)
    requires IsWord(w)
    ensures WordMeans(w, v) <==> WordValue(w) == Some(v)
  {
    hide IsIntegerWord, IsFloatWord, ParseInt64, FloatValue, IsNumeral, IsSignedDecimal;
    IntegerHasNoPoint(w);
    if IsIntegerWord(w) || IsFloatWord(w) { NumberStarts(w); }
    KeywordPrefix(w, "null");
    KeywordPrefix(w, "undefined");
    KeywordPrefix(w, "false");
    KeywordPrefix(w, "true");
    WordNumber(w, v);
  }

  lemma WordNumber(w: string, v: Value)
    requires IsWord(w)
    ensures v.I8? ==> (IsNumeral(w, v.i8) <==> IsIntegerWord(w) && ParseInt64(w) == Some(v.i8))
    ensures v.Double? ==> (IsSignedDecimal(w, v.d) <==> IsFloatWord(w) && FloatValue(w) == v.d)
  {
    if v.I8? { IntegerExact(w, v.i8); }
    if v.Double? { FloatExact(w, v.d); }
  }
}
