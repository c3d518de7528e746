/** The grammar of the recursive-descent parser of xmlrpc-c/src/json.c, as
functions from the unread text to a value and the text left.

It is wider than RFC 4627: a comma may end a list or an object, a list may end
with the document, keyword prefixes and `//` comments are accepted. */
module JsonGrammar {
  import opened Text
  import opened Values
  import opened Numerals
  import opened JsonLexer
  import opened JsonStrings

  /** The value of a string token, quotes included in `text`. */
  function StringValue(text: string): Option<string> {
    if |text| < 2 then None else Unescape(text[1..|text| - 1])
  }

  /** The number a floating point word denotes: what strtod() returns, exactly. */
  function FloatValue(w: string): real
    requires IsFloatWord(w)
  {
    if w[0] == '-' then -BodyValue(Magnitude(w)) else BodyValue(Magnitude(w))
  }

  datatype Parsed = Failed | Done(value: Value, rest: string)

  /** The value that starts with the token `typ`, whose text is `text`. */
  function ParseValue(typ: TokenType, text: string, rest: string): (p: Parsed)
    requires typ == Float ==> IsFloatWord(text)
    ensures p.Done? ==> |p.rest| <= |rest|
    decreases |rest|, 1
  {
    match typ
    case OpenBracket => ParseItems(rest, [])
    case OpenBrace => ParseMembers(rest, [])
    case Null => Done(Nil, rest)
    case Undefined => Done(Nil, rest)
    case False => Done(Bool(false), rest)
    case True => Done(Bool(true), rest)
    case Integer =>
      (match ParseInt64(text)
       case Some(n) => Done(I8(n), rest)
       case None => Failed)
    case Float => Done(Double(FloatValue(text)), rest)
    case StringToken =>
      (match StringValue(text)
       case Some(s) => Done(Str(s), rest)
       case None => Failed)
    case _ => Failed
  }

  lemma FloatTokenIsFloat(r: string)
    ensures Next(r).Step? && Next(r).typ == Float ==> IsFloatWord(Next(r).text)
  {
    hide WordLen, IsIntegerWord, IsFloatWord, BodyLen;
    if Next(r).Step? && Next(r).typ == Float {
      var b := BlankLen(r);
      var t := r[b..];
      assert TokenAt(t) == Some((Float, WordLen(t)));
      assert t[..WordLen(t)] == r[b..b + WordLen(t)];
    }
  }

  /** The next value in `r`. */
  function ParseNext(r: string): (p: Parsed)
    ensures p.Done? ==> |p.rest| <= |r|
    decreases |r|, 2
  {
    FloatTokenIsFloat(r);
    match Next(r)
    case NoToken => Failed
    case Step(typ, text, rest) => if typ == Eof then Failed else ParseValue(typ, text, rest)
  }

  /** The items of a list and its end, after the items `done`. */
  function ParseItems(r: string, done: seq<Value>): (p: Parsed)
    ensures p.Done? ==> |p.rest| <= |r|
    decreases |r|, 0
  {
    FloatTokenIsFloat(r);
    match Next(r)
    case NoToken => Failed
    case Step(typ, text, rest) =>
      if typ == Eof || typ == CloseBracket then Done(Array(done), rest)
      else match ParseValue(typ, text, rest)
        case Failed => Failed
        case Done(item, r1) => AfterItem(r1, done + [item])
  }

  /** What may follow an item. */
  function AfterItem(r: string, done: seq<Value>): (p: Parsed)
    ensures p.Done? ==> |p.rest| <= |r|
    decreases |r|, 0
  {
    match Next(r)
    case NoToken => Failed
    case Step(sep, _, rest) =>
      if sep == Comma then ParseItems(rest, done)
      else if sep == CloseBracket then Done(Array(done), rest)
      else Failed
  }

  /** The rest of a member, from its colon. */
  function ParseMemberValue(r: string): (p: Parsed)
    ensures p.Done? ==> |p.rest| <= |r|
    decreases |r|, 3
  {
    match Next(r)
    case NoToken => Failed
    case Step(colon, _, r1) => if colon == Colon then ParseNext(r1) else Failed
  }

  /** The members of an object and its end, after the members `done`. */
  function ParseMembers(r: string, done: seq<Member>): (p: Parsed)
    ensures p.Done? ==> |p.rest| <= |r|
    decreases |r|, 0
  {
    match Next(r)
    case NoToken => Failed
    case Step(typ, text, rest) =>
      if typ == CloseBrace then Done(Struct(done), rest)
      else if typ != StringToken || StringValue(text).None? then Failed
      else match ParseMemberValue(rest)
        case Failed => Failed
        case Done(value, r1) => AfterMember(r1, SetMember(done, StringValue(text).value, value))
  }

  /** What may follow a member. */
  function AfterMember(r: string, done: seq<Member>): (p: Parsed)
    ensures p.Done? ==> |p.rest| <= |r|
    decreases |r|, 0
  {
    match Next(r)
    case NoToken => Failed
    case Step(sep, _, rest) =>
      if sep == Comma then ParseMembers(rest, done)
      else if sep == CloseBrace then Done(Struct(done), rest)
      else Failed
  }

  /** xmlrpc_parse_json(): one value and then nothing but blanks. */
  function ParseJson(str: string): Result<Value> {
    match ParseNext(str)
    case Failed => Fault(ParseError)
    case Done(v, rest) =>
      var after := Next(rest);
      if after.Step? && after.typ == Eof then Ok(v) else Fault(ParseError)
  }
}
