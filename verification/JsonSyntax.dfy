/** The language of JSON documents, as a grammar of its own: every way to write a value, what
each means, and that the parser of xmlrpc-c/src/json.c takes exactly these. */
module JsonSyntax {
  import opened Text
  import opened Values
  import opened Numerals
  import opened NumeralForms
  import opened Doubles
  import opened JsonLexer
  import opened JsonStrings
  import opened JsonGrammar
  import opened JsonRoundTrip
  import opened JsonTokens

  /** A value as it can be written. A list or object is some elements with a comma after
      each, and then one without or only a gap. */
  datatype Syntax =
    | Word(text: string)
    | StringText(body: seq<Piece>)
    | List(done: seq<Element>, last: Option<Element>, gap: seq<Blank>)
    | Object(pairs: seq<Pair>, final: Option<Pair>, gap: seq<Blank>)

  /** A value with the gaps around it. */
  datatype Element = Element(before: seq<Blank>, value: Syntax, after: seq<Blank>)

  datatype Pair = Pair(before: seq<Blank>, key: seq<Piece>, mid: seq<Blank>, element: Element)

  /** The text of `s` and then `k`. */
  function SpellK(s: Syntax, k: string): string
    decreases s, 0
  {
    match s
    case Word(text) => text + k
    case StringText(body) => QuotedK(body, k)
    case List(done, last, gap) =>
      "[" + ElementsK(done, if last.Some? then ElementK(last.value, "]" + k) else GapK(gap, "]" + k))
    case Object(pairs, final, gap) =>
      "{" + PairsK(pairs, if final.Some? then PairK(final.value, "}" + k) else GapK(gap, "}" + k))
  }

  /** The text after the last comma. */
  function EndK(s: Syntax, k: string): string
    requires s.List? || s.Object?
    decreases s, 1
  {
    if s.List? then if s.last.Some? then ElementK(s.last.value, "]" + k) else GapK(s.gap, "]" + k)
    else if s.final.Some? then PairK(s.final.value, "}" + k) else GapK(s.gap, "}" + k)
  }

  function ElementK(e: Element, k: string): string
    decreases e, 0
  {
    GapK(e.before, SpellK(e.value, GapK(e.after, k)))
  }

  /** Elements with a comma after each. */
  function ElementsK(es: seq<Element>, k: string): string
    decreases es, 0
  {
    if es == [] then k else ElementK(es[0], "," + ElementsK(es[1..], k))
  }

  function PairK(p: Pair, k: string): string
    decreases p, 0
  {
    GapK(p.before, QuotedK(p.key, GapK(p.mid, ":" + ElementK(p.element, k))))
  }

  function PairsK(ps: seq<Pair>, k: string): string
    decreases ps, 0
  {
    if ps == [] then k else PairK(ps[0], "," + PairsK(ps[1..], k))
  }

  /** `s` is well formed and means `v`. Of two members with equal keys the later one
      counts, at the place of the first. */
  ghost predicate Denotes(s: Syntax, v: Value)
    decreases s, 1
  {
    match s
    case Word(text) => IsWord(text) && WordMeans(text, v)
    case StringText(body) => BodyOk(body) && v == Str(BodyMeaning(body))
    case List(done, last, gap) =>
      && v.Array? && GapOk(gap)
      && if last.Some? then
           v.items != [] && AllDenote(done, v.items[..|v.items| - 1]) && ElementDenotes(last.value, v.items[|v.items| - 1])
         else AllDenote(done, v.items)
    case Object(pairs, final, gap) =>
      v.Struct? && GapOk(gap) && exists named: seq<Member> :: AllPairsDenote(s, named) && v.members == AllSet([], named)
  }

  ghost predicate AllPairsDenote(s: Syntax, named: seq<Member>)
    requires s.Object?
    decreases s, 0
  {
    if s.final.Some? then named != [] && PairsDenote(s.pairs, named[..|named| - 1]) && PairDenotes(s.final.value, named[|named| - 1])
    else PairsDenote(s.pairs, named)
  }

  ghost predicate ElementDenotes(e: Element, v: Value)
    decreases e, 0
  {
    GapOk(e.before) && GapOk(e.after) && Denotes(e.value, v)
  }

  ghost predicate AllDenote(es: seq<Element>, vs: seq<Value>)
    decreases es, 0
  {
    |es| == |vs| && forall i :: 0 <= i < |es| ==> ElementDenotes(es[i], vs[i])
  }

  ghost predicate PairDenotes(p: Pair, m: Member)
    decreases p, 0
  {
    GapOk(p.before) && BodyOk(p.key) && GapOk(p.mid) && m.key == BodyMeaning(p.key) && ElementDenotes(p.element, m.value)
  }

  ghost predicate PairsDenote(ps: seq<Pair>, ms: seq<Member>)
    decreases ps, 0
  {
    |ps| == |ms| && forall i :: 0 <= i < |ps| ==> PairDenotes(ps[i], ms[i])
  }

  // ---------------------------------------------------------------------
  // What is written is read

  lemma WordIsRead(w: string, v: Value, k: string)
    requires IsWord(w) && WordMeans(w, v) && Delimits(k)
    ensures ParseNext(w + k) == Done(v, k) && StartsValue(w + k)
  {
    hide WordMeans, WordType, ParseInt64, FloatValue, Next;
    WordExact(w, v);
    var typ := WordType(w).value;
    NextWord(w, typ, k);
  }

  lemma QuotedIsRead(body: seq<Piece>, k: string)
    requires BodyOk(body)
    ensures ParseNext(QuotedK(body, k)) == Done(Str(BodyMeaning(body)), k) && StartsValue(QuotedK(body, k))
  {
    hide BodyOk, BodyMeaning, QuotedK, Next, StringValue;
    QuotedIsNext(body, k);
  }

  /** Gaps do not change what is parsed. */
  lemma GapIgnored(g: seq<Blank>, k: string, items: seq<Value>, members: seq<Member>)
    requires GapOk(g)
    ensures ParseNext(GapK(g, k)) == ParseNext(k) && (StartsValue(GapK(g, k)) <==> StartsValue(k))
    ensures ParseItems(GapK(g, k), items) == ParseItems(k, items) && AfterItem(GapK(g, k), items) == AfterItem(k, items)
    ensures ParseMembers(GapK(g, k), members) == ParseMembers(k, members) && AfterMember(GapK(g, k), members) == AfterMember(k, members)
    ensures ParseMemberValue(GapK(g, k)) == ParseMemberValue(k)
  {
    hide Next, GapK, GapOk, ParseValue;
    GapSkipped(g, k);
  }

  lemma AfterComma(k: string, items: seq<Value>, members: seq<Member>)
    ensures AfterItem("," + k, items) == ParseItems(k, items) && AfterMember("," + k, members) == ParseMembers(k, members)
    ensures Delimits("," + k)
  {
    hide Next, ParseItems, ParseMembers;
    NextDelimiter(',', k);
  }

  lemma AtBracket(k: string, items: seq<Value>)
    ensures AfterItem("]" + k, items) == ParseItems("]" + k, items) == Done(Array(items), k) && Delimits("]" + k)
  {
    hide Next, ParseValue;
    NextDelimiter(']', k);
  }

  lemma AtBrace(k: string, members: seq<Member>)
    ensures AfterMember("}" + k, members) == ParseMembers("}" + k, members) == Done(Struct(members), k) && Delimits("}" + k)
  {
    hide Next, ParseMemberValue;
    NextDelimiter('}', k);
  }

  lemma AtColon(k: string)
    ensures ParseMemberValue(":" + k) == ParseNext(k) && Delimits(":" + k)
  {
    hide Next, ParseNext;
    NextDelimiter(':', k);
  }

  lemma {:induction false} WrittenIsRead(s: Syntax, v: Value, k: string)
    requires Denotes(s, v) && Delimits(k)
    ensures ParseNext(SpellK(s, k)) == Done(v, k) && StartsValue(SpellK(s, k))
    decreases s, 1
  {
    hide Next, ParseItems, ParseMembers, ElementsK, PairsK, ElementK, PairK, GapK, GapOk, AllDenote, AllPairsDenote, ElementDenotes, BodyOk,
      BodyMeaning, QuotedK, WordMeans, AllSet, StringValue, ParseInt64, FloatValue;
    match s
    case Word(text) => WordIsRead(text, v, k);
    case StringText(body) => QuotedIsRead(body, k);
    case List(done, last, gap) =>
      ListWritten(s, v.items, k);
      NextDelimiter('[', ElementsK(done, EndK(s, k)));
    case Object(pairs, final, gap) =>
      var named := NamedOf(s, v);
      ObjectWritten(s, named, k);
      NextDelimiter('{', PairsK(pairs, EndK(s, k)));
  }

  lemma NamedOf(s: Syntax, v: Value) returns (named: seq<Member>)
    requires s.Object? && Denotes(s, v)
    ensures v.Struct? && AllPairsDenote(s, named) && v.members == AllSet([], named)
  {
    hide AllPairsDenote, AllSet;
    named :| AllPairsDenote(s, named) && v.members == AllSet([], named);
  }

  lemma {:induction false} ElementWritten(e: Element, v: Value, k: string)
    requires ElementDenotes(e, v) && Delimits(k)
    ensures StartsValue(ElementK(e, k)) && ParseNext(ElementK(e, k)) == Done(v, GapK(e.after, k))
    decreases e, 2
  {
    hide Next, SpellK, GapK, GapOk, Denotes, ParseNext;
    GapDelimits(e.after, k);
    WrittenIsRead(e.value, v, GapK(e.after, k));
    GapIgnored(e.before, SpellK(e.value, GapK(e.after, k)), [], []);
  }

  /** One element and what follows it. */
  lemma {:induction false} ItemWritten(e: Element, v: Value, k: string, done: seq<Value>)
    requires ElementDenotes(e, v) && Delimits(k)
    ensures ParseItems(ElementK(e, k), done) == AfterItem(k, done + [v])
    decreases e, 3
  {
    hide Next, ElementK, GapK, GapOk, ParseNext, ParseItems, AfterItem, Denotes;
    ElementWritten(e, v, k);
    FirstItem(ElementK(e, k), done);
    GapIgnored(e.after, k, done + [v], []);
  }

  lemma {:induction false} ListWritten(s: Syntax, vs: seq<Value>, k: string)
    requires s.List? && Denotes(s, Array(vs))
    ensures ParseItems(ElementsK(s.done, EndK(s, k)), []) == Done(Array(vs), k)
    decreases s, 0
  {
    hide ElementK, ElementsK, GapK, GapOk, ElementDenotes, AllDenote, ParseItems, AfterItem;
    var front := if s.last.Some? then vs[..|vs| - 1] else vs;
    ElementsWritten(s.done, front, EndK(s, k), []);
    assert [] + front == front;
    if s.last.Some? {
      var v := vs[|vs| - 1];
      AtBracket(k, front + [v]);
      ItemWritten(s.last.value, v, "]" + k, front);
      assert front + [v] == vs;
    } else {
      AtBracket(k, front);
      GapIgnored(s.gap, "]" + k, front, []);
    }
  }

  lemma {:induction false} ElementsWritten(es: seq<Element>, vs: seq<Value>, k: string, done: seq<Value>)
    requires AllDenote(es, vs)
    ensures ParseItems(ElementsK(es, k), done) == ParseItems(k, done + vs)
    decreases es, 0
  {
    hide ElementK, GapK, ElementDenotes, ParseItems, AfterItem;
    if es == [] {
      assert done + vs == done;
    } else {
      var rest := ElementsK(es[1..], k);
      AfterComma(rest, done + [vs[0]], []);
      ItemWritten(es[0], vs[0], "," + rest, done);
      ElementsWritten(es[1..], vs[1..], k, done + [vs[0]]);
      assert (done + [vs[0]]) + vs[1..] == done + vs;
    }
  }

  /** One member and what follows it. */
  lemma {:induction false} PairWritten(p: Pair, m: Member, k: string, done: seq<Member>)
    requires PairDenotes(p, m) && Delimits(k)
    ensures ParseMembers(PairK(p, k), done) == AfterMember(k, SetMember(done, m.key, m.value))
    decreases p, 4
  {
    hide Next, ElementK, GapK, GapOk, QuotedK, ParseNext, ParseMembers, AfterMember, ParseMemberValue, StringValue, SetMember, Denotes, BodyOk,
      BodyMeaning;
    var r3 := ElementK(p.element, k);
    var r2 := GapK(p.mid, ":" + r3);
    var r1 := QuotedK(p.key, r2);
    GapIgnored(p.before, r1, [], done);
    QuotedIsNext(p.key, r2);
    GapIgnored(p.mid, ":" + r3, [], []);
    AtColon(r3);
    ElementWritten(p.element, m.value, k);
    MemberStep(r1, done, r2, m.key);
    GapIgnored(p.element.after, k, [], SetMember(done, m.key, m.value));
  }

  lemma MemberStep(r: string, done: seq<Member>, rest: string, key: string)
    requires Next(r).Step? && Next(r).typ == StringToken && Next(r).rest == rest && StringValue(Next(r).text) == Some(key)
    ensures var p := ParseMemberValue(rest);
      ParseMembers(r, done) == if p.Failed? then Failed else AfterMember(p.rest, SetMember(done, key, p.value))
  {
    hide Next, ParseMemberValue, AfterMember, SetMember, StringValue;
  }

  lemma {:induction false} ObjectWritten(s: Syntax, named: seq<Member>, k: string)
    requires s.Object? && GapOk(s.gap) && AllPairsDenote(s, named)
    ensures ParseMembers(PairsK(s.pairs, EndK(s, k)), []) == Done(Struct(AllSet([], named)), k)
    decreases s, 0
  {
    hide PairK, PairsK, GapK, GapOk, PairsDenote, PairDenotes, ParseMembers, AfterMember, SetMember, AllSet;
    var front := if s.final.Some? then named[..|named| - 1] else named;
    PairsWritten(s.pairs, front, EndK(s, k), []);
    if s.final.Some? {
      var m := named[|named| - 1];
      PairWritten(s.final.value, m, "}" + k, AllSet([], front));
      assert named == front + [m];
      SetLast([], front, m);
      AtBrace(k, AllSet([], named));
    } else {
      GapIgnored(s.gap, "}" + k, [], AllSet([], front));
      AtBrace(k, AllSet([], front));
    }
  }

  lemma {:induction false} PairsWritten(ps: seq<Pair>, ms: seq<Member>, k: string, done: seq<Member>)
    requires PairsDenote(ps, ms)
    ensures ParseMembers(PairsK(ps, k), done) == ParseMembers(k, AllSet(done, ms))
    decreases ps, 0
  {
    hide PairK, GapK, PairDenotes, ParseMembers, AfterMember, SetMember;
    if ps != [] {
      var rest := PairsK(ps[1..], k);
      AfterComma(rest, [], SetMember(done, ms[0].key, ms[0].value));
      PairWritten(ps[0], ms[0], "," + rest, done);
      PairsWritten(ps[1..], ms[1..], k, SetMember(done, ms[0].key, ms[0].value));
    }
  }

  // ---------------------------------------------------------------------
  // What is read was written so

  ghost predicate AtEof(r: string) { Next(r).Step? && Next(r).typ == Eof }

  /** The gap in front of a token. */
  lemma TokenRead(r: string) returns (g: seq<Blank>)
    requires Next(r).Step? && Next(r).typ != Eof
    ensures GapOk(g) && r == GapK(g, Next(r).text + Next(r).rest)
  {
    hide TokenAt, BlankLen, GapOk, GapK;
    var n := BlankLen(r);
    var t := r[n..];
    var len := TokenAt(t).value.1;
    TokenNotEnd(t);
    assert t[0] == r[n];
    g := GapRead(r);
    assert t == r[n..n + len] + r[n + len..];
  }

  lemma TokenNotEnd(t: string)
    requires TokenAt(t).Some? && TokenAt(t).value.0 != Eof
    ensures t != "" && t[0] != '\0'
  {}

  /** The text of each type of token. */
  lemma TokenText(r: string)
    requires Next(r).Step?
    ensures var t := Next(r);
      && (t.typ == OpenBracket ==> t.text == "[") && (t.typ == CloseBracket ==> t.text == "]")
      && (t.typ == OpenBrace ==> t.text == "{") && (t.typ == CloseBrace ==> t.text == "}")
      && (t.typ == Colon ==> t.text == ":") && (t.typ == Comma ==> t.text == ",")
      && (t.typ in {Integer, Float, Null, Undefined, True, False} ==> IsWord(t.text) && WordType(t.text) == Some(t.typ))
      && (t.typ == StringToken ==> exists n :: n == BodyLen(t.text[1..]) && n.Some? && t.text == "\"" + (t.text[1..][..n.value] + "\""))
  {
    hide TokenAt, WordType, BodyLen, IsWord;
    TokenSlice(r);
    var t, len := r[BlankLen(r)..], |Next(r).text|;
    DelimiterText(t, Next(r).typ, len);
    if Next(r).typ in {Integer, Float, Null, Undefined, True, False} { WordText(t, Next(r).typ, len); }
    if Next(r).typ == StringToken { QuotedText(t, len); }
  }

  lemma TokenSlice(r: string)
    requires Next(r).Step?
    ensures var t, len := r[BlankLen(r)..], |Next(r).text|;
      len <= |t| && TokenAt(t) == Some((Next(r).typ, len)) && Next(r).text == t[..len]
  {
    hide TokenAt, BlankLen;
    var n := BlankLen(r);
    var len := TokenAt(r[n..]).value.1;
    assert r[n..n + len] == r[n..][..len];
  }

  lemma DelimiterText(t: string, typ: TokenType, len: nat)
    requires len <= |t| && TokenAt(t) == Some((typ, len))
    ensures typ == OpenBracket ==> t[..len] == "["
    ensures typ == CloseBracket ==> t[..len] == "]"
    ensures typ == OpenBrace ==> t[..len] == "{"
    ensures typ == CloseBrace ==> t[..len] == "}"
    ensures typ == Colon ==> t[..len] == ":"
    ensures typ == Comma ==> t[..len] == ","
  {
    hide BodyLen, WordLen;
    if typ in {OpenBracket, CloseBracket, OpenBrace, CloseBrace, Colon, Comma} { assert len == 1 && t[..1] == [t[0]]; }
  }

  lemma WordText(t: string, typ: TokenType, len: nat)
    requires len <= |t| && TokenAt(t) == Some((typ, len)) && typ in {Integer, Float, Null, Undefined, True, False}
    ensures IsWord(t[..len]) && WordType(t[..len]) == Some(typ)
  {
    hide BodyLen, WordType;
  }

  lemma QuotedText(t: string, len: nat)
    requires len <= |t| && TokenAt(t) == Some((StringToken, len))
    ensures var text := t[..len];
      exists n :: n == BodyLen(text[1..]) && n.Some? && text == "\"" + (text[1..][..n.value] + "\"")
  {
    hide BodyLen, WordLen, WordType;
    var text := t[..len];
    BodyCut(t[1..], len - 2);
    assert text[1..] == t[1..][..len - 1];
    assert text == "\"" + (text[1..][..len - 2] + "\"");
    assert BodyLen(text[1..]) == Some(len - 2);
  }

  /** A body is scanned the same when the text ends behind its quote. */
  lemma {:induction false} BodyCut(r: string, n: nat)
    requires BodyLen(r) == Some(n)
    ensures n < |r| && BodyLen(r[..n + 1]) == Some(n)
    decreases |r|
  {
    if r[0] != '"' {
      var k := if r[0] != '\\' then 1 else if IsSimpleEscape(PeekAt(r, 1)) then 2 else 6;
      BodyCut(r[k..], n - k);
      var t := r[..n + 1];
      assert t[k..] == r[k..][..n - k + 1];
      if r[0] == '\\' {
        assert t[1] == r[1];
        if k == 6 { assert t[2] == r[2] && t[3] == r[3] && t[4] == r[4] && t[5] == r[5]; }
      }
    }
  }

  /** A string token was written as a body in quotes. */
  lemma StringRead(r: string) returns (ps: seq<Piece>)
    requires Next(r).Step? && Next(r).typ == StringToken
    ensures BodyOk(ps) && Next(r).text + Next(r).rest == QuotedK(ps, Next(r).rest) && StringValue(Next(r).text) == Some(BodyMeaning(ps))
  {
    hide Next, BodyLen, BodyOk, BodyText, BodyMeaning, StringValue;
    TokenText(r);
    var text, rest := Next(r).text, Next(r).rest;
    ps := BodyRead(text[1..]);
    QuotedIsNext(ps, rest);
    Requoted(ps, text, rest);
  }

  lemma Requoted(ps: seq<Piece>, text: string, rest: string)
    requires BodyOk(ps) && text == "\"" + (BodyText(ps) + "\"")
    ensures text + rest == QuotedK(ps, rest) && StringValue(text) == Some(BodyMeaning(ps))
  {
    hide BodyOk, BodyText, BodyMeaning, Unescape;
    BodyScanned(ps, "");
    assert text[1..|text| - 1] == BodyText(ps);
    assert text + rest == "\"" + (BodyText(ps) + ("\"" + rest));
  }

  lemma WordRead(r: string, v: Value, rest: string)
    requires Next(r).Step? && Next(r).typ in {Integer, Float, Null, Undefined, True, False}
    requires var t := Next(r); (t.typ == Float ==> IsFloatWord(t.text)) && ParseValue(t.typ, t.text, t.rest) == Done(v, rest)
    ensures rest == Next(r).rest && IsWord(Next(r).text) && WordMeans(Next(r).text, v)
  {
    hide Next, WordMeans, ParseInt64, FloatValue, WordType;
    TokenText(r);
    WordExact(Next(r).text, v);
  }

  /** How a list was written: whole, or left open at the end of the document. */
  datatype Items = Closed(last: Option<Element>, gap: seq<Blank>) | Open(end: string)

  function TailK(i: Items, rest: string): string {
    match i
    case Closed(last, gap) => if last.Some? then ElementK(last.value, "]" + rest) else GapK(gap, "]" + rest)
    case Open(end) => end
  }

  ghost predicate ItemsDenote(es: seq<Element>, i: Items, vs: seq<Value>) {
    match i
    case Closed(last, gap) =>
      && GapOk(gap)
      && if last.Some? then vs != [] && AllDenote(es, vs[..|vs| - 1]) && ElementDenotes(last.value, vs[|vs| - 1]) else AllDenote(es, vs)
    case Open(end) => AtEof(end) && AllDenote(es, vs)
  }

  /** A value that was read: written whole, or a list left open. */
  datatype Read = Whole(s: Syntax) | Unclosed(es: seq<Element>, end: string)

  ghost predicate WrittenAs(w: Read, text: string, v: Value, rest: string) {
    match w
    case Whole(s) => text == SpellK(s, rest) && Denotes(s, v)
    case Unclosed(es, end) => text == "[" + ElementsK(es, end) && AtEof(end) && AtEof(rest) && v.Array? && AllDenote(es, v.items)
  }

  lemma {:induction false} ValueRead(r: string, v: Value, rest: string) returns (w: Read)
    requires Next(r).Step? && (Next(r).typ == Float ==> IsFloatWord(Next(r).text))
    requires ParseValue(Next(r).typ, Next(r).text, Next(r).rest) == Done(v, rest)
    ensures WrittenAs(w, Next(r).text + Next(r).rest, v, rest)
    decreases |Next(r).rest|, 1
  {
    hide Next, SpellK, ElementsK, GapOk, GapK, AllDenote, ElementDenotes, Denotes, AtEof, ParseItems, ParseMembers, StringValue, BodyOk,
      BodyMeaning, ParseInt64, FloatValue, QuotedK;
    TokenText(r);
    var t := Next(r);
    if t.typ == OpenBracket {
      var es, i := ItemsRead(t.rest, [], v, rest);
      assert v.items[0..] == v.items;
      w := ListRead(es, i, v, rest);
    } else if t.typ == OpenBrace {
      var s := ObjectRead(t.rest, v, rest);
      w := Whole(s);
    } else if t.typ == StringToken {
      var ps := StringRead(r);
      w := Whole(StringText(ps));
      QuotedWritten(ps, rest);
    } else {
      WordRead(r, v, rest);
      w := Whole(Word(t.text));
      WordWritten(t.text, v, rest);
    }
  }

  lemma QuotedWritten(ps: seq<Piece>, rest: string)
    requires BodyOk(ps)
    ensures SpellK(StringText(ps), rest) == QuotedK(ps, rest) && Denotes(StringText(ps), Str(BodyMeaning(ps)))
  {
    hide BodyOk, BodyMeaning, QuotedK;
  }

  lemma WordWritten(w: string, v: Value, rest: string)
    requires IsWord(w) && WordMeans(w, v)
    ensures SpellK(Word(w), rest) == w + rest && Denotes(Word(w), v)
  {
    hide IsWord, WordMeans;
  }

  lemma ListRead(es: seq<Element>, i: Items, v: Value, rest: string) returns (w: Read)
    requires v.Array? && ItemsDenote(es, i, v.items) && (i.Open? ==> AtEof(rest))
    ensures WrittenAs(w, "[" + ElementsK(es, TailK(i, rest)), v, rest)
  {
    hide ElementsK, ElementK, GapOk, GapK, AllDenote, ElementDenotes, AtEof;
    w := if i.Open? then Unclosed(es, i.end) else Whole(List(es, i.last, i.gap));
  }

  lemma {:induction false} ItemsRead(r: string, done: seq<Value>, v: Value, rest: string) returns (es: seq<Element>, i: Items)
    requires ParseItems(r, done) == Done(v, rest)
    ensures v.Array? && |done| <= |v.items| && v.items[..|done|] == done && (i.Open? ==> AtEof(rest))
    ensures r == ElementsK(es, TailK(i, rest)) && ItemsDenote(es, i, v.items[|done|..])
    decreases |r|, 0
  {
    hide Next, ElementK, GapOk, GapK, ElementDenotes, AfterItem, ParseValue, TailK;
    FloatTokenIsFloat(r);
    TokenText(r);
    var t := Next(r);
    if t.typ == Eof {
      es, i := [], Open(r);
      NothingWritten(r, i, rest);
      EofRest(r);
    } else if t.typ == CloseBracket {
      var g := TokenRead(r);
      es, i := [], Closed(None, g);
      NothingWritten(r, i, rest);
    } else {
      var p := ParseValue(t.typ, t.text, t.rest);
      var w := ValueRead(r, p.value, p.rest);
      var g := TokenRead(r);
      es, i := ItemRead(r, g, w, done, p.value, p.rest, v, rest);
    }
  }

  lemma NothingWritten(r: string, i: Items, rest: string)
    requires i == Open(r) || (i.Closed? && i.last.None? && r == GapK(i.gap, "]" + rest))
    ensures r == ElementsK([], TailK(i, rest))
  {
    hide GapK;
  }

  lemma EofRest(r: string)
    requires AtEof(r)
    ensures AtEof(Next(r).rest)
  {
    var e := EndRead(r);
    var n := BlankLen(r);
    hide BlankLen, TokenAt;
    AtEnd(r, n);
  }

  lemma AtEnd(r: string, n: nat)
    requires n <= |r| && TokenAt(r[n..]) == Some((Eof, 0))
    ensures AtEof(r[n..][0..])
  {
    hide BodyLen, WordType, WordLen;
    var t := r[n..];
    assert t[0..] == t;
    assert Peek(t) == '\0';
    assert BlankLen(t) == 0;
  }

  /** An item that was read, and the rest of its list. */
  lemma {:induction false} ItemRead(r: string, g: seq<Blank>, w: Read, done: seq<Value>, item: Value, r1: string, v: Value, rest: string)
    returns (es: seq<Element>, i: Items)
    requires Next(r).Step? && GapOk(g) && r == GapK(g, Next(r).text + Next(r).rest) && |r1| < |r|
    requires WrittenAs(w, Next(r).text + Next(r).rest, item, r1) && AfterItem(r1, done + [item]) == Done(v, rest)
    ensures v.Array? && |done| <= |v.items| && v.items[..|done|] == done && (i.Open? ==> AtEof(rest))
    ensures r == ElementsK(es, TailK(i, rest)) && ItemsDenote(es, i, v.items[|done|..])
    decreases |r|, 0, 0
  {
    hide Next, SpellK, GapOk, GapK, Denotes, TailK, AllDenote, ParseItems;
    assert !AtEof(r1);
    TokenText(r1);
    var h := TokenRead(r1);
    var t := Next(r1);
    var e := Element(g, w.s, h);
    if t.typ == CloseBracket {
      es, i := [], Closed(Some(e), []);
      LastItem(e, item, done, rest);
      assert r == ElementK(e, "]" + rest);
    } else {
      var others;
      others, i := ItemsRead(t.rest, done + [item], v, rest);
      es := [e] + others;
      assert r == ElementK(e, "," + t.rest);
      MoreItems(e, item, others, i, done, v, rest);
    }
  }

  lemma LastItem(e: Element, item: Value, done: seq<Value>, rest: string)
    requires ElementDenotes(e, item)
    ensures ItemsDenote([], Closed(Some(e), []), (done + [item])[|done|..])
    ensures ElementK(e, "]" + rest) == ElementsK([], TailK(Closed(Some(e), []), rest))
  {
    hide ElementK, ElementDenotes;
    assert (done + [item])[|done|..] == [item] && [item][..0] == [];
  }

  lemma MoreItems(e: Element, item: Value, others: seq<Element>, i: Items, done: seq<Value>, v: Value, rest: string)
    requires ElementDenotes(e, item) && v.Array? && |done| < |v.items| && v.items[..|done| + 1] == done + [item]
    requires ItemsDenote(others, i, v.items[|done| + 1..])
    ensures v.items[..|done|] == done && ItemsDenote([e] + others, i, v.items[|done|..])
    ensures ElementsK([e] + others, TailK(i, rest)) == ElementK(e, "," + ElementsK(others, TailK(i, rest)))
  {
    hide ElementK, ElementDenotes, TailK, GapOk, AtEof;
    var vs, us := v.items[|done|..], v.items[|done| + 1..];
    assert v.items[..|done|] == v.items[..|done| + 1][..|done|] == done;
    assert v.items[|done|] == v.items[..|done| + 1][|done|] == item;
    assert vs == [item] + us && ([e] + others)[1..] == others;
    if i.Closed? && i.last.Some? { assert vs[..|vs| - 1] == [item] + us[..|us| - 1] && vs[|vs| - 1] == us[|us| - 1]; }
  }

  /** The text of the members from `r` on, how they end, and what they mean. */
  datatype Pairs = Pairs(done: seq<Pair>, final: Option<Pair>, gap: seq<Blank>, named: seq<Member>)

  function PairsTail(p: Pairs, rest: string): string { if p.final.Some? then PairK(p.final.value, "}" + rest) else GapK(p.gap, "}" + rest) }

  ghost predicate PairsOk(p: Pairs) {
    && GapOk(p.gap)
    && if p.final.Some? then
         p.named != [] && PairsDenote(p.done, p.named[..|p.named| - 1]) && PairDenotes(p.final.value, p.named[|p.named| - 1])
       else PairsDenote(p.done, p.named)
  }

  lemma {:induction false} ObjectRead(r: string, v: Value, rest: string) returns (s: Syntax)
    requires ParseMembers(r, []) == Done(v, rest)
    ensures "{" + r == SpellK(s, rest) && Denotes(s, v)
    decreases |r|, 0, 1
  {
    hide PairK, PairsK, GapK, GapOk, PairDenotes, PairsDenote, AllSet, ParseMembers;
    var p := MembersRead(r, [], v, rest);
    s := Object(p.done, p.final, p.gap);
    assert AllPairsDenote(s, p.named);
  }

  lemma {:induction false} MembersRead(r: string, done: seq<Member>, v: Value, rest: string) returns (p: Pairs)
    requires ParseMembers(r, done) == Done(v, rest)
    ensures v == Struct(AllSet(done, p.named)) && r == PairsK(p.done, PairsTail(p, rest)) && PairsOk(p)
    decreases |r|, 0, 0
  {
    hide Next, PairK, GapOk, GapK, PairDenotes, AfterMember, ParseMemberValue, ParseMembers, SetMember, AllSet, StringValue, AtEof;
    MembersCases(r, done);
    var g := TokenRead(r);
    if Next(r).typ == CloseBrace {
      TokenText(r);
      p := Pairs([], None, g, []);
      NoPairs(r, p, done, rest);
    } else {
      p := MemberRead(r, g, done, v, rest);
    }
  }

  lemma {:induction false} MemberRead(r: string, g: seq<Blank>, done: seq<Member>, v: Value, rest: string) returns (p: Pairs)
    requires Next(r).Step? && Next(r).typ == StringToken && ParseMembers(r, done) == Done(v, rest)
    requires GapOk(g) && r == GapK(g, Next(r).text + Next(r).rest)
    ensures v == Struct(AllSet(done, p.named)) && r == PairsK(p.done, PairsTail(p, rest)) && PairsOk(p)
    decreases |r|, 0, 0, 1
  {
    hide Next, PairK, PairsK, PairsTail, PairsOk, GapOk, GapK, PairDenotes, AfterMember, ParseMemberValue, ParseMembers, SetMember, AllSet,
      StringValue, AtEof;
    MembersCases(r, done);
    var key, m := StringValue(Next(r).text).value, ParseMemberValue(Next(r).rest);
    AfterIsToken(m.rest, SetMember(done, key, m.value));
    var pair, tail := PairRead(r, g, key, m.value, m.rest);
    p := PairThen(pair, tail, Member(key, m.value), done, v, m.rest, rest);
  }

  lemma MembersCases(r: string, done: seq<Member>)
    requires ParseMembers(r, done).Done?
    ensures Next(r).Step? && Next(r).typ in {CloseBrace, StringToken}
    ensures Next(r).typ == CloseBrace ==> ParseMembers(r, done) == Done(Struct(done), Next(r).rest)
    ensures Next(r).typ == StringToken ==>
              && StringValue(Next(r).text).Some? && ParseMemberValue(Next(r).rest).Done?
              && var p := ParseMemberValue(Next(r).rest);
                 ParseMembers(r, done) == AfterMember(p.rest, SetMember(done, StringValue(Next(r).text).value, p.value))
  {
    hide Next, AfterMember, ParseMemberValue, SetMember, StringValue;
  }

  lemma AfterIsToken(r: string, members: seq<Member>)
    requires AfterMember(r, members).Done?
    ensures Next(r).Step? && !AtEof(r)
  {
    hide Next, ParseMembers;
  }

  lemma NoPairs(r: string, p: Pairs, done: seq<Member>, rest: string)
    requires p.done == [] && p.final.None? && p.named == [] && GapOk(p.gap) && r == GapK(p.gap, "}" + rest)
    ensures AllSet(done, p.named) == done && r == PairsK(p.done, PairsTail(p, rest)) && PairsOk(p)
  {
    hide GapOk, GapK;
  }

  /** One member that was read, up to what may follow it. */
  lemma {:induction false} PairRead(r: string, g: seq<Blank>, key: string, value: Value, r1: string) returns (p: Pair, tail: string)
    requires Next(r).Step? && Next(r).typ == StringToken && StringValue(Next(r).text) == Some(key)
    requires GapOk(g) && r == GapK(g, Next(r).text + Next(r).rest)
    requires ParseMemberValue(Next(r).rest) == Done(value, r1) && !AtEof(r1) && Next(r1).Step?
    ensures |r1| < |r| && PairDenotes(p, Member(key, value)) && tail == Next(r1).text + Next(r1).rest && r == PairK(p, tail)
    decreases |r|, 0, 0, 0
  {
    hide Next, SpellK, GapOk, GapK, BodyOk, BodyMeaning, QuotedK, StringValue, Denotes, ElementDenotes, ElementK, AllDenote, AtEof;
    var ps := StringRead(r);
    var r2 := Next(r).rest;
    TokenText(r2);
    var mid := TokenRead(r2);
    var e;
    e, tail := MemberValueRead(Next(r2).rest, value, r1);
    p := Pair(g, ps, mid, e);
  }

  lemma {:induction false} MemberValueRead(r: string, value: Value, r1: string) returns (e: Element, tail: string)
    requires ParseNext(r) == Done(value, r1) && !AtEof(r1) && Next(r1).Step?
    ensures ElementDenotes(e, value) && tail == Next(r1).text + Next(r1).rest && r == ElementK(e, tail)
    decreases |r|, 0, 0
  {
    hide Next, SpellK, GapOk, GapK, Denotes, AllDenote, ParseValue;
    FloatTokenIsFloat(r);
    var w := ValueRead(r, value, r1);
    var before := TokenRead(r);
    var after := TokenRead(r1);
    e := Element(before, w.s, after);
    tail := Next(r1).text + Next(r1).rest;
  }

  lemma {:induction false} PairThen(pair: Pair, tail: string, m: Member, done: seq<Member>, v: Value, r1: string, rest: string) returns (p: Pairs)
    requires Next(r1).Step? && tail == Next(r1).text + Next(r1).rest && PairDenotes(pair, m)
    requires AfterMember(r1, SetMember(done, m.key, m.value)) == Done(v, rest)
    ensures v == Struct(AllSet(done, p.named)) && PairK(pair, tail) == PairsK(p.done, PairsTail(p, rest)) && PairsOk(p)
    decreases |r1|, 0, 1
  {
    hide Next, PairK, GapOk, GapK, PairDenotes, ParseMembers, SetMember, AtEof;
    TokenText(r1);
    if Next(r1).typ == CloseBrace {
      p := Pairs([], Some(pair), [], [m]);
      NoGap();
      assert [m][..0] == [] && [m][1..] == [];
      assert AllSet(done, [m]) == AllSet(SetMember(done, m.key, m.value), []);
    } else {
      var q := MembersRead(Next(r1).rest, SetMember(done, m.key, m.value), v, rest);
      p := Pairs([pair] + q.done, q.final, q.gap, [m] + q.named);
      MorePairs(pair, m, q, done, rest);
    }
  }

  lemma NoGap()
    ensures GapOk([])
  {}

  lemma MorePairs(pair: Pair, m: Member, q: Pairs, done: seq<Member>, rest: string)
    requires PairDenotes(pair, m) && PairsOk(q)
    ensures var p := Pairs([pair] + q.done, q.final, q.gap, [m] + q.named);
      && PairsOk(p) && AllSet(done, p.named) == AllSet(SetMember(done, m.key, m.value), q.named)
      && PairsK(p.done, PairsTail(p, rest)) == PairK(pair, "," + PairsK(q.done, PairsTail(q, rest)))
  {
    hide PairK, PairDenotes, GapOk, GapK, SetMember;
    var named := [m] + q.named;
    assert ([pair] + q.done)[1..] == q.done && named[1..] == q.named;
    if q.final.Some? { assert named[..|named| - 1] == [m] + q.named[..|q.named| - 1] && named[|named| - 1] == q.named[|q.named| - 1]; }
  }

  // ---------------------------------------------------------------------
  // Documents

  /** A document: one value between gaps, or a list that the document leaves open after a
      comma or its bracket. */
  datatype Doc = Complete(before: seq<Blank>, value: Syntax, end: End) | LeftOpen(before: seq<Blank>, es: seq<Element>, end: End)

  function DocText(d: Doc): string {
    match d
    case Complete(before, value, end) => GapK(before, SpellK(value, EndText(end)))
    case LeftOpen(before, es, end) => GapK(before, "[" + ElementsK(es, EndText(end)))
  }

  ghost predicate DocMeans(d: Doc, v: Value) {
    && GapOk(d.before) && EndOk(d.end)
    && match d
       case Complete(_, value, _) => Denotes(value, v)
       case LeftOpen(_, es, _) => v.Array? && AllDenote(es, v.items)
  }

  lemma DocIsRead(d: Doc, v: Value)
    requires DocMeans(d, v)
    ensures ParseJson(DocText(d)) == Ok(v)
  {
    hide Next, SpellK, ElementsK, GapOk, GapK, EndText, EndOk, AllDenote, Denotes, ParseItems, ParseNext;
    var k := EndText(d.end);
    EndIsEof(d.end);
    match d
    case Complete(before, value, end) =>
      WrittenIsRead(value, v, k);
      GapIgnored(before, SpellK(value, k), [], []);
    case LeftOpen(before, es, end) =>
      var r := ElementsK(es, k);
      ElementsWritten(es, v.items, k, []);
      assert [] + v.items == v.items;
      OpenIsRead(r, k, v);
      GapIgnored(before, "[" + r, [], []);
  }

  lemma OpenIsRead(r: string, k: string, v: Value)
    requires v.Array? && AtEof(k) && ParseItems(r, []) == ParseItems(k, v.items)
    ensures ParseNext("[" + r) == Done(v, Next(k).rest) && AtEof(Next(k).rest)
  {
    hide Next;
    EofRest(k);
    NextDelimiter('[', r);
  }

  lemma ReadWasDoc(str: string, v: Value) returns (d: Doc)
    requires ParseJson(str) == Ok(v)
    ensures DocText(d) == str && DocMeans(d, v)
  {
    hide Next, SpellK, ElementsK, GapOk, GapK, EndText, EndOk, AllDenote, Denotes, ParseValue;
    var rest := ParseNext(str).rest;
    FloatTokenIsFloat(str);
    var w := ValueRead(str, v, rest);
    var g := TokenRead(str);
    match w
    case Whole(s) =>
      var e := EndRead(rest);
      d := Complete(g, s, e);
    case Unclosed(es, end) =>
      var e := EndRead(end);
      d := LeftOpen(g, es, e);
  }

  /** `str` is a way to write `v`. */
  ghost predicate IsWritten(str: string, v: Value) { exists d :: DocText(d) == str && DocMeans(d, v) }

  /** The parser takes exactly the documents of this grammar, and each as what it means. */
  lemma ParsesExactly(str: string, v: Value)
    ensures ParseJson(str) == Ok(v) <==> IsWritten(str, v)
  {
    hide ParseJson, DocText, DocMeans;
    if ParseJson(str) == Ok(v) { var d := ReadWasDoc(str, v); }
    if IsWritten(str, v) {
      var d :| DocText(d) == str && DocMeans(d, v);
      DocIsRead(d, v);
    }
  }

  // ---------------------------------------------------------------------
  // Numbers with a point

  /** A numeral with a point is the number it denotes, with its sign, wherever it stands
      before a delimiter. */
  lemma PointIsRead(m: string, k: string)
    requires IsFloatBody(m) && '.' in m && Delimits(k)
    ensures ParseNext(m + k) == Done(Double(BodyValue(m)), k)
    ensures ParseNext("-" + m + k) == Done(Double(-BodyValue(m)), k)
  {
    hide BodyValue, ParseNext, WordMeans, IsFloatBody, IsDecimal, IsWord, StartsValue;
    var w, x := "-" + m, BodyValue(m);
    BodyIsDecimal(m, x);
    SomeChar(m);
    SignedMeans(m, x);
    WordIsRead(m, Double(x), k);
    WordIsRead(w, Double(-x), k);
  }

  lemma SignedMeans(m: string, x: real)
    requires IsDecimal(m, x) && '.' in m
    ensures WordMeans(m, Double(x)) && WordMeans("-" + m, Double(-x))
  {
    hide IsDecimal;
    var w := "-" + m;
    assert w[1..] == m && w[0] == '-';
    var i :| 0 <= i < |m| && m[i] == '.';
    assert w[i + 1] == '.';
  }

  lemma SomeChar(m: string)
    requires IsFloatBody(m)
    ensures IsWord(m) && IsWord("-" + m)
  {
    var i :| 0 <= i < |m| && IsDigit(m[i]);
  }

  lemma DoubleDocument(t: string)
    requires '.' in t && t[0] != '+' && IsFloatBody(Unsigned(t))
    ensures ParseJson(t) == Ok(Double(if t[0] == '-' then -BodyValue(Unsigned(t)) else BodyValue(Unsigned(t))))
  {
    hide BodyValue, ParseNext, IsFloatBody;
    var m := Unsigned(t);
    if t[0] == '-' {
      assert t == "-" + m && "-" + m + "" == t;
      assert '.' in m by { var i :| 0 <= i < |t| && t[i] == '.'; assert m[i - 1] == '.'; }
    } else {
      assert m + "" == t;
    }
    PointIsRead(m, "");
    EndIsEof(End([], None, ""));
  }

  /** The text that the double printer makes is a JSON number too when it has a point, and
      it is the number, within the tolerance. */
  lemma PrintedDoubleIsRead(d: real)
    requires Abs(d) < TEN_TO_15
    ensures Printable(d)
    ensures '.' in FloatText(d) ==>
              var m := Unsigned(FloatText(d));
              && IsFloatBody(m)
              && var x := if FloatText(d)[0] == '-' then -BodyValue(m) else BodyValue(m);
                 ParseJson(FloatText(d)) == Ok(Double(x)) && Abs(x - d) <= Tolerance(Abs(d))
  {
    hide FloatText, Tolerance, BodyValue, IsFloatBody, ParseJson, MaxDouble;
    PrintedReadsBack(d);
    FloatTextAccurate(d);
    if '.' in FloatText(d) {
      NoPlus(d);
      DoubleDocument(FloatText(d));
    }
  }

  lemma NoPlus(d: real)
    requires Printable(d)
    ensures FloatText(d) != "" && FloatText(d)[0] != '+'
  {
    hide MagnitudeText, BodyValue, Tolerance;
    assert Abs(d) >= 0.0 && Printable(Abs(d));
    MagnitudeAccurate(Abs(d));
  }
}
