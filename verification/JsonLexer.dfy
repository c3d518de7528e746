/** The tokenizer of xmlrpc-c/src/json.c.

The specification functions read the part of the document that has not been
tokenized yet and measure lengths in it. A document ends at its first NUL, or
at the end of the string, which reads as NUL. */
module JsonLexer {
  import opened Text
  import opened Numerals

  datatype TokenType =
    | TNone | OpenBrace | CloseBrace | OpenBracket | CloseBracket | Colon | Comma
    | StringToken | Integer | Float | Null | Undefined | True | False | Eof

  function Peek(r: string): char { if r == "" then '\0' else r[0] }

  function PeekAt(r: string, i: nat): char { if i < |r| then r[i] else '\0' }

  predicate AtComment(r: string) { Peek(r) == '/' && PeekAt(r, 1) == '/' }

  /** Length of a comment at the front of `r`, without its newline. */
  function LineLen(r: string): (n: nat)
    ensures n <= |r|
    ensures AtComment(r) ==> n >= 2
  {
    if Peek(r) == '\0' || r[0] == '\n' then 0 else 1 + LineLen(r[1..])
  }

  /** Length of the white space and comments at the front of `r`. */
  function BlankLen(r: string): (n: nat)
    ensures n <= |r|
    decreases |r|
  {
    if Peek(r) == '\0' then 0
    else if IsSpace(r[0]) then 1 + BlankLen(r[1..])
    else if AtComment(r) then LineLen(r) + BlankLen(r[LineLen(r)..])
    else 0
  }

  predicate IsWordChar(c: char) { IsDigit(c) || IsAlpha(c) || c == '.' || c == '-' }

  function WordLen(r: string): (n: nat)
    ensures n <= |r|
    ensures forall i :: 0 <= i < n ==> IsWordChar(r[i])
    ensures n < |r| ==> !IsWordChar(r[n])
  {
    if r != "" && IsWordChar(r[0]) then 1 + WordLen(r[1..]) else 0
  }

  /** The characters that stand for themselves or a control after a backslash. */
  predicate IsSimpleEscape(c: char) {
    c in {'"', '\\', '/', 'b', 'f', 'n', 'r', 't'}
  }

  predicate Hex4At(r: string, i: nat) {
    && i + 4 <= |r|
    && IsHexDigit(r[i]) && IsHexDigit(r[i + 1]) && IsHexDigit(r[i + 2]) && IsHexDigit(r[i + 3])
  }

  /** Length of a string body up to its closing quote; `r` starts after the
      opening quote. None if an escape is malformed or the document ends first. */
  function BodyLen(r: string): (n: Option<nat>)
    ensures n.Some? ==> n.value < |r| && r[n.value] == '"'
    decreases |r|
  {
    if Peek(r) == '\0' then None
    else if r[0] == '"' then Some(0)
    else if r[0] != '\\' then Plus(1, BodyLen(r[1..]))
    else if IsSimpleEscape(PeekAt(r, 1)) then Plus(2, BodyLen(r[2..]))
    else if PeekAt(r, 1) == 'u' && Hex4At(r, 2) then Plus(6, BodyLen(r[6..]))
    else None
  }

  function Plus(k: nat, n: Option<nat>): Option<nat> {
    match n case None => None case Some(m) => Some(k + m)
  }

  predicate IsIntegerWord(w: string) { w != "" && AllDigitsNow(Magnitude(w)) }

  /** No exponent is ever accepted: the source hands isInteger() the text from
      the 'e' on, which is never an integer. */
  predicate IsFloatWord(w: string) { IsFloatBody(Magnitude(w)) }

  /** The type of a word. A prefix of a keyword counts as the keyword. */
  function WordType(w: string): (t: Option<TokenType>)
    ensures t.Some? ==> t.value in {Integer, Float, Null, Undefined, False, True}
  {
    if IsIntegerWord(w) then Some(Integer)
    else if IsFloatWord(w) then Some(Float)
    else if w <= "null" then Some(Null)
    else if w <= "undefined" then Some(Undefined)
    else if w <= "false" then Some(False)
    else if w <= "true" then Some(True)
    else None
  }

  /** A token: its type, the blank before it and its own length. */
  datatype Lexeme = BadToken(blank: nat) | Lexeme(typ: TokenType, blank: nat, len: nat)

  function DelimiterType(c: char): Option<TokenType> {
    match c
    case '{' => Some(OpenBrace)
    case '}' => Some(CloseBrace)
    case '[' => Some(OpenBracket)
    case ']' => Some(CloseBracket)
    case ':' => Some(Colon)
    case ',' => Some(Comma)
    case _ => None
  }

  /** The token at the front of `t`, which does not start with a blank: its type
      and length. */
  function TokenAt(t: string): (l: Option<(TokenType, nat)>)
    ensures l.Some? ==> l.value.1 <= |t| && (l.value.0 == Eof <==> l.value.1 == 0)
  {
    if Peek(t) == '\0' then Some((Eof, 0))
    else if DelimiterType(t[0]).Some? then Some((DelimiterType(t[0]).value, 1))
    else if t[0] == '"' then
      match BodyLen(t[1..])
      case Some(n) => Some((StringToken, n + 2))
      case None => None
    else if IsWordChar(t[0]) then
      match WordType(t[..WordLen(t)])
      case Some(typ) => Some((typ, WordLen(t)))
      case None => None
    else None
  }

  /** The first token of `r`. */
  function Lex(r: string): (t: Lexeme)
    ensures t.blank == BlankLen(r)
    ensures t.Lexeme? ==> t.blank + t.len <= |r| && (t.typ == Eof <==> t.len == 0)
  {
    var b := BlankLen(r);
    match TokenAt(r[b..])
    case Some((typ, len)) => Lexeme(typ, b, len)
    case None => BadToken(b)
  }

  /** A token with its text, and what follows it. */
  datatype Step = NoToken | Step(typ: TokenType, text: string, rest: string)

  function Next(r: string): (s: Step)
    ensures s.Step? ==> |s.rest| <= |r| && (s.typ != Eof ==> |s.rest| < |r|)
  {
    match Lex(r)
    case BadToken(_) => NoToken
    case Lexeme(typ, b, len) => Step(typ, r[b..b + len], r[b + len..])
  }

  // ---------------------------------------------------------------------
  // Coverage: what lies between tokens is only white space and comments.

  /** White space and complete comments, as a grammar of its own. */
  ghost predicate Blank(b: string)
    decreases |b|
  {
    b == ""
    || (IsSpace(b[0]) && Blank(b[1..]))
    || (exists n :: 2 <= n <= |b| && b[..2] == "//" && '\n' !in b[..n]
         && (n < |b| ==> b[n] == '\n') && Blank(b[n..]))
  }

  lemma {:induction false} LineOfComment(r: string)
    ensures '\n' !in r[..LineLen(r)]
    ensures PeekAt(r, LineLen(r)) in {'\n', '\0'}
  {
    if Peek(r) != '\0' && r[0] != '\n' {
      LineOfComment(r[1..]);
      assert r[..LineLen(r)] == [r[0]] + r[1..][..LineLen(r[1..])];
    }
  }

  lemma {:induction false} BlankLenIsBlank(r: string)
    ensures Blank(r[..BlankLen(r)])
    ensures BlankLen(r) < |r| ==> var t := r[BlankLen(r)..]; !IsSpace(t[0]) && !AtComment(t)
    decreases |r|
  {
    var b := r[..BlankLen(r)];
    if Peek(r) == '\0' {
    } else if IsSpace(r[0]) {
      BlankLenIsBlank(r[1..]);
      assert b[1..] == r[1..][..BlankLen(r[1..])];
    } else if AtComment(r) {
      var n := LineLen(r);
      LineOfComment(r);
      BlankLenIsBlank(r[n..]);
      assert b[n..] == r[n..][..BlankLen(r[n..])];
      assert b[..n] == r[..n];
      assert b[..2] == "//";
      if n < |b| {
        assert r[n] in {'\n', '\0'};
        assert b[n] == r[n] == r[n..][0];
      }
    }
  }

  /** The tokens of a document, up to its end or the first bad token. */
  function Tokens(r: string): seq<Lexeme>
    decreases |r|
  {
    var t := Lex(r);
    if t.BadToken? || t.typ == Eof then [t] else [t] + Tokens(r[t.blank + t.len..])
  }

  /** `r` is cut by `ts` into blanks and tokens, in order and without gaps. */
  ghost predicate Covers(r: string, ts: seq<Lexeme>)
    decreases |ts|
  {
    && ts != []
    && ts[0].blank <= |r|
    && Blank(r[..ts[0].blank])
    && match ts[0]
       case BadToken(_) => |ts| == 1
       case Lexeme(typ, blank, len) =>
         && blank + len <= |r|
         && (typ == Eof <==> len == 0)
         && if typ == Eof then |ts| == 1 && PeekAt(r, blank) == '\0'
            else Covers(r[blank + len..], ts[1..])
  }

  /** For every document, tokenizing terminates and the tokens are ordered and
      disjoint; only blanks lie between them; a run without a bad token ends
      where the document does. */
  lemma {:induction false} TokensCover(r: string)
    ensures Covers(r, Tokens(r))
    decreases |r|
  {
    hide Lex, Blank, TokenAt, BlankLen;
    var t := Lex(r);
    LexGap(r, t);
    if t.Lexeme? && t.typ != Eof {
      var rest := r[t.blank + t.len..];
      TokensCover(rest);
      assert Tokens(r) == [t] + Tokens(rest);
      assert Tokens(r)[1..] == Tokens(rest);
    } else {
      assert Tokens(r) == [t];
    }
  }

  lemma LexGap(r: string, t: Lexeme)
    requires t == Lex(r)
    ensures t.blank <= |r| && Blank(r[..t.blank])
    ensures t.Lexeme? && t.typ == Eof ==> PeekAt(r, t.blank) == '\0'
  {
    hide Blank, BlankLen, BodyLen, WordType, WordLen;
    BlankLenIsBlank(r);
    if t.Lexeme? && t.typ == Eof {
      assert Peek(r[t.blank..]) == PeekAt(r, t.blank);
    }
  }

  // ---------------------------------------------------------------------
  // The tokenizer itself.

  /** The source's isInteger(). */
  method IsInteger(token: string) returns (yes: bool)
    ensures yes <==> IsIntegerWord(token)
  {
    if |token| < 1 { return false; }
    var i := 0;
    if token[0] == '-' { i := 1; }
    ghost var start := i;
    assert Magnitude(token) == token[start..];
    while i < |token|
      invariant start <= i <= |token|
      invariant forall j :: start <= j < i ==> IsDigit(token[j])
    {
      if !IsDigit(token[i]) {
        assert Magnitude(token)[i - start] == token[i];
        return false;
      }
      i := i + 1;
    }
    assert forall j :: 0 <= j < |Magnitude(token)| ==> Magnitude(token)[j] == token[start + j];
    return true;
  }

  /** The source's isFloat(). */
  method IsFloat(token: string) returns (yes: bool)
    ensures yes <==> IsFloatWord(token)
  {
    hide Periods;
    var i := 0;
    if |token| >= 1 && token[0] == '-' { i := 1; }
    ghost var m := Magnitude(token);
    ghost var n := 0;
    assert m == token[i..];
    assert Periods(m[..0]) == 0 by { NoPeriods(m[..0]); }
    var seenPeriod, seenDigit := false, false;
    while i < |token|
      invariant n <= |m| && |m| - n == |token| - i
      invariant n < |m| ==> token[i..] == m[n..]
      invariant forall j :: 0 <= j < n ==> IsDigit(m[j]) || m[j] == '.'
      invariant seenDigit <==> exists j :: 0 <= j < n && IsDigit(m[j])
      invariant Periods(m[..n]) == if seenPeriod then 1 else 0
    {
      var c := token[i];
      assert c == m[n] by { assert token[i..][0] == m[n..][0]; }
      PeriodsUpTo(m, n);
      if c == 'e' {
        var exponent := IsInteger(token[i..]);
        assert !exponent by { assert Magnitude(token[i..]) == token[i..] && token[i..][0] == 'e'; }
        return exponent;
      } else if c == '.' {
        if seenPeriod {
          return false;
        }
        seenPeriod := true;
      } else if IsDigit(c) {
        seenDigit := true;
      } else {
        return false;
      }
      assert token[i + 1..] == token[i..][1..] == m[n..][1..] == m[n + 1..];
      i, n := i + 1, n + 1;
    }
    assert m[..n] == m;
    return seenDigit;
  }

  /** Where in `doc` the string body that goes on at `e` is closed. */
  ghost function BodyEnd(doc: string, e: nat): Option<nat>
    requires e <= |doc|
  {
    Plus(e, BodyLen(doc[e..]))
  }

  lemma BodyEndStep(doc: string, e: nat)
    requires e < |doc| && doc[e] != '"' && doc[e] != '\0'
    ensures doc[e] != '\\' ==> BodyEnd(doc, e) == BodyEnd(doc, e + 1)
    ensures doc[e] == '\\' && IsSimpleEscape(PeekAt(doc, e + 1)) ==>
              e + 2 <= |doc| && BodyEnd(doc, e) == BodyEnd(doc, e + 2)
    ensures doc[e] == '\\' && PeekAt(doc, e + 1) == 'u' && Hex4At(doc, e + 2) ==>
              BodyEnd(doc, e) == BodyEnd(doc, e + 6)
    ensures doc[e] == '\\' && !IsSimpleEscape(PeekAt(doc, e + 1)) && !(PeekAt(doc, e + 1) == 'u' && Hex4At(doc, e + 2)) ==>
              BodyEnd(doc, e) == None
  {
    var r := doc[e..];
    assert PeekAt(r, 1) == PeekAt(doc, e + 1);
    assert Hex4At(r, 2) == Hex4At(doc, e + 2);
    assert r[1..] == doc[e + 1..];
    if e + 2 <= |doc| { assert r[2..] == doc[e + 2..]; }
    if e + 6 <= |doc| { assert r[6..] == doc[e + 6..]; }
  }

  lemma BodyEndStop(doc: string, e: nat)
    requires e <= |doc| && (e < |doc| ==> doc[e] == '"' || doc[e] == '\0')
    ensures BodyEnd(doc, e) == if e < |doc| && doc[e] == '"' then Some(e) else None
  {}

  method ClassifyWord(word: string) returns (typ: Option<TokenType>)
    ensures typ == WordType(word)
  {
    var isInteger := IsInteger(word);
    var isFloat := IsFloat(word);
    if isInteger { return Some(Integer); }
    if isFloat { return Some(Float); }
    if word <= "null" { return Some(Null); }
    if word <= "undefined" { return Some(Undefined); }
    if word <= "false" { return Some(False); }
    if word <= "true" { return Some(True); }
    return None;
  }

  lemma CommentStep(doc: string, i: nat)
    requires i <= |doc| && AtComment(doc[i..])
    ensures i + 2 <= i + LineLen(doc[i..]) <= |doc|
    ensures BlankLen(doc[i..]) == LineLen(doc[i..]) + BlankLen(doc[i + LineLen(doc[i..])..])
  {
    assert doc[i..][LineLen(doc[i..])..] == doc[i + LineLen(doc[i..])..];
  }

  lemma LineStep(doc: string, i: nat)
    requires i < |doc| && doc[i] != '\n' && doc[i] != '\0'
    ensures LineLen(doc[i..]) == 1 + LineLen(doc[i + 1..])
  {
    assert doc[i..][1..] == doc[i + 1..];
  }

  lemma WordStep(doc: string, i: nat)
    requires i < |doc| && IsWordChar(doc[i])
    ensures WordLen(doc[i..]) == 1 + WordLen(doc[i + 1..])
  {
    assert doc[i..][1..] == doc[i + 1..];
  }

  lemma LineStop(r: string)
    requires Peek(r) == '\n' || Peek(r) == '\0'
    ensures LineLen(r) == 0
  {}

  lemma TokenIsNext(doc: string, from: nat, begin: nat, end: nat)
    requires from <= begin <= end <= |doc| && begin == from + BlankLen(doc[from..])
    ensures Next(doc[from..]).Step? <==> TokenAt(doc[begin..]).Some?
    ensures TokenAt(doc[begin..]).Some? && TokenAt(doc[begin..]).value.1 == end - begin ==>
              Next(doc[from..]) == Step(TokenAt(doc[begin..]).value.0, doc[begin..end], doc[end..])
  {
    hide TokenAt, BlankLen;
    assert doc[from..][begin - from..] == doc[begin..];
    assert doc[from..][begin - from..end - from] == doc[begin..end];
    assert doc[from..][end - from..] == doc[end..];
  }

  /** The place of the body of a string token. */
  lemma StringTokenBody(doc: string, begin: nat, end: nat)
    requires begin <= end <= |doc| && TokenAt(doc[begin..]) == Some((StringToken, end - begin))
    ensures begin + 2 <= end && doc[begin] == '"' && doc[end - 1] == '"'
    ensures BodyLen(doc[begin + 1..]) == Some(end - 1 - (begin + 1))
    ensures doc[begin..end][1..end - begin - 1] == doc[begin + 1..end - 1]
  {
    hide BodyLen, WordType, WordLen;
    assert doc[begin..][1..] == doc[begin + 1..];
    assert doc[begin + 1..][end - begin - 2] == doc[end - 1];
    SliceOfSlice(doc, begin, end, 1, end - begin - 1);
  }

  lemma FloatIsFloat(doc: string, begin: nat, end: nat, typ: TokenType)
    ensures begin <= end <= |doc| && TokenAt(doc[begin..]) == Some((typ, end - begin)) && typ == Float ==>
              IsFloatWord(doc[begin..end])
  {
    hide BodyLen, WordLen, IsIntegerWord, IsFloatWord;
    if begin <= end <= |doc| {
      assert doc[begin..][..end - begin] == doc[begin..end];
    }
  }

  class Tokenizer {
    const original: string
    var begin: nat
    var end: nat
    var size: nat
    var typ: TokenType

    constructor (str: string)
      ensures original == str && begin == end == 0 && typ == TNone
      ensures Valid()
    {
      original := str;
      begin, end, size := 0, 0, 0;
      typ := TNone;
    }

    ghost predicate Valid()
      reads this
    {
      begin <= end <= |original|
    }

    /** The text of the current token. */
    function Text(): string
      requires Valid()
      reads this
    {
      original[begin..end]
    }

    /** The current token is one the document has at `begin`. */
    ghost predicate Current()
      reads this
      ensures Current() ==> Valid() && (typ == Float ==> IsFloatWord(Text()))
    {
      hide TokenAt, IsFloatWord;
      FloatIsFloat(original, begin, end, typ);
      Valid() && TokenAt(original[begin..]) == Some((typ, end - begin))
    }

    /** What has not been tokenized yet. */
    function Rest(): string
      requires Valid()
      reads this
    {
      original[end..]
    }

    /** The character at `i`, NUL at and beyond the end. */
    function At(i: nat): (c: char)
      ensures i <= |original| ==> c == Peek(original[i..])
    {
      if i < |original| then original[i] else '\0'
    }

    /** Past four hexadecimal digits at `end`, if there are four. */
    method SkipHex4() returns (ok: bool)
      requires Valid()
      modifies `end
      ensures ok <==> Hex4At(original, old(end))
      ensures end == if ok then old(end) + 4 else old(end)
    {
      var cur := end;
      while IsHexDigit(At(cur)) && cur - end < 4
        invariant end <= cur <= end + 4 && cur <= |original|
        invariant forall j :: end <= j < cur ==> IsHexDigit(original[j])
      {
        cur := cur + 1;
      }
      ok := cur - end == 4;
      if ok { end := cur; }
    }

    method FinishStringToken() returns (ok: bool)
      requires Valid() && begin == end && At(begin) == '"'
      modifies `end, `size
      ensures Valid()
      ensures ok <==> BodyLen(original[begin + 1..]).Some?
      ensures ok ==> end == begin + BodyLen(original[begin + 1..]).value + 2 && size == end - begin - 1
    {
      hide BodyLen;
      ok := true;
      end := end + 1;
      ghost var close := BodyEnd(original, end);
      while ok && At(end) != '"' && At(end) != '\0'
        invariant begin < end <= |original|
        invariant if ok then close == BodyEnd(original, end) else close == None
        decreases ok, |original| - end
      {
        BodyEndStep(original, end);
        hide BodyEnd;
        if At(end) == '\\' {
          end := end + 1;
          if IsSimpleEscape(At(end)) {
            end := end + 1;
          } else if At(end) == 'u' {
            end := end + 1;
            ok := SkipHex4();
          } else {
            ok := false;
          }
        } else {
          end := end + 1;
        }
      }
      if ok {
        BodyEndStop(original, end);
        if At(end) == '\0' {
          ok := false;
        } else {
          end := end + 1;
          size := end - begin - 1;
        }
      }
    }

    method FinishWordToken()
      requires Valid() && begin == end && IsWordChar(At(begin))
      modifies `end, `size
      ensures Valid() && size == end - begin == WordLen(original[begin..])
    {
      end := end + 1;
      hide WordLen;
      WordStep(original, begin);
      while IsWordChar(At(end))
        invariant begin < end <= |original|
        invariant WordLen(original[begin..]) == end - begin + WordLen(original[end..])
        decreases |original| - end
      {
        WordStep(original, end);
        end := end + 1;
      }
      size := end - begin;
    }

    method FinishDelimiterToken()
      requires Valid() && begin == end < |original|
      modifies `end, `size
      ensures Valid() && size == 1 == end - begin
    {
      end := end + 1;
      size := end - begin;
    }

    predicate AtCommentNow()
      requires begin <= |original|
      reads this
      ensures AtCommentNow() <==> AtComment(original[begin..])
    {
      At(begin) == '/' && At(begin + 1) == '/'
    }

    method AdvancePastWhiteSpace()
      requires begin <= |original|
      modifies `begin
      ensures old(begin) <= begin <= |original| && !IsSpace(At(begin))
      ensures BlankLen(original[old(begin)..]) == begin - old(begin) + BlankLen(original[begin..])
    {
      while IsSpace(At(begin))
        invariant old(begin) <= begin <= |original|
        invariant BlankLen(original[old(begin)..]) == begin - old(begin) + BlankLen(original[begin..])
        decreases |original| - begin
      {
        assert original[begin..][1..] == original[begin + 1..];
        begin := begin + 1;
      }
    }

    method AdvancePastComments()
      requires begin <= |original|
      modifies `begin
      ensures old(begin) <= begin <= |original| && !AtComment(original[begin..])
      ensures BlankLen(original[old(begin)..]) == begin - old(begin) + BlankLen(original[begin..])
      ensures AtComment(original[old(begin)..]) ==> old(begin) < begin
    {
      hide BlankLen, LineLen;
      while AtCommentNow()
        invariant old(begin) <= begin <= |original|
        invariant BlankLen(original[old(begin)..]) == begin - old(begin) + BlankLen(original[begin..])
        decreases |original| - begin
      {
        ghost var start := begin;
        CommentStep(original, begin);
        while At(begin) != '\n' && At(begin) != '\0'
          invariant start <= begin <= |original|
          invariant LineLen(original[start..]) == begin - start + LineLen(original[begin..])
          decreases |original| - begin
        {
          LineStep(original, begin);
          begin := begin + 1;
        }
        LineStop(original[begin..]);
      }
    }

    method AdvanceToNextToken()
      requires begin <= |original|
      modifies `begin
      ensures begin == old(begin) + BlankLen(original[old(begin)..]) <= |original|
    {
      while At(begin) != '\0' && (IsSpace(At(begin)) || AtCommentNow())
        invariant old(begin) <= begin <= |original|
        invariant BlankLen(original[old(begin)..]) == begin - old(begin) + BlankLen(original[begin..])
        decreases |original| - begin
      {
        ghost var start := begin;
        AdvancePastWhiteSpace();
        AdvancePastComments();
        assert begin > start;
      }
      assert BlankLen(original[begin..]) == 0;
    }

    /** The part of getToken() that follows the blanks. */
    method ReadToken() returns (ok: bool)
      requires begin <= |original|
      modifies `end, `size, `typ
      ensures Valid()
      ensures ok <==> TokenAt(original[begin..]).Some?
      ensures ok ==> TokenAt(original[begin..]) == Some((typ, end - begin))
      ensures ok ==> size == if typ == StringToken then end - begin - 1 else end - begin
    {
      hide WordType, WordLen, BodyLen;
      ok := true;
      end := begin;
      ghost var t := original[begin..];
      if At(begin) == '\0' {
        typ := Eof;
        size := 0;
      } else if DelimiterType(At(begin)).Some? {
        FinishDelimiterToken();
        typ := DelimiterType(At(begin)).value;
      } else if At(begin) == '"' {
        assert t[1..] == original[begin + 1..];
        ok := FinishStringToken();
        if ok { typ := StringToken; }
      } else if IsWordChar(At(begin)) {
        FinishWordToken();
        var wordType := ClassifyWord(original[begin..end]);
        assert original[begin..end] == t[..WordLen(t)];
        if wordType.Some? { typ := wordType.value; } else { ok := false; }
      } else {
        ok := false;
      }
    }

    /** Move to the next token. Its type, text and place are those of the first
        token of what was left; `ok` is false where the source sets a fault. */
    method GetToken() returns (ok: bool)
      requires Valid()
      modifies this
      ensures Valid()
      ensures ok <==> Next(old(Rest())).Step?
      ensures ok ==> Next(old(Rest())) == Step(typ, Text(), Rest()) && Current()
      ensures begin == old(end) + BlankLen(old(Rest()))
      ensures ok ==> size == if typ == StringToken then end - begin - 1 else end - begin
    {
      hide TokenAt, BlankLen, Lex, Next, IsFloatWord;
      begin := end;
      AdvanceToNextToken();
      ok := ReadToken();
      TokenIsNext(original, old(end), begin, end);
    }
  }
}
