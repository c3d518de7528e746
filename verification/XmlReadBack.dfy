/** Printed markup reads back as the element it was made for. */
module XmlReadBack {
  import opened Text
  import opened Utf8Text
  import opened Lines
  import opened XmlText
  import opened XmlReader

  // ---------------------------------------------------------------------
  // Tags

  lemma StartReads(name: string, attribute: string, rest: string)
    requires IsName(name) && (attribute == "" || attribute == XMLNS_APACHE)
    ensures NextItem("<" + (name + (attribute + (">" + rest)))) == StartTag(name, rest)
  {
    hide TagEnd, NameLen;
    var after := attribute + (">" + rest);
    TagEnds(attribute, rest);
    assert after[0] == if attribute == "" then '>' else ' ';
    NameReads(name, after);
    assert ("<" + (name + after))[1..] == name + after;
    assert name[0] != '/' && (name + after)[0] == name[0];
  }

  lemma NameReads(name: string, after: string)
    requires IsName(name) && after != "" && !IsNameChar(after[0])
    ensures NameLen(name + after) == |name|
    ensures (name + after)[..|name|] == name && (name + after)[|name|..] == after
  {
    hide NameLen;
    NameLenOf(name, after);
  }

  lemma TagEnds(attribute: string, rest: string)
    requires attribute == "" || attribute == XMLNS_APACHE
    ensures TagEnd(attribute + (">" + rest)) == Some((false, rest))
  {
    var close := ">" + rest;
    EndsTag(rest);
    if attribute == "" {
      assert attribute + close == close;
    } else {
      hide TagEnd;
      UrlIsQuoted();
      AttributeReads("xmlns:ex", APACHE_URL, close);
      TagAfterAttribute(attribute + close, close);
    }
  }

  lemma EndsTag(rest: string)
    ensures TagEnd(">" + rest) == Some((false, rest))
    ensures TagEnd("/>" + rest) == Some((true, rest))
  {
    assert (">" + rest)[1..] == rest && ("/>" + rest)[2..] == rest;
    assert (">" + rest)[0] == '>' && ("/>" + rest)[0] == '/' && ("/>" + rest)[1] == '>';
    assert ">" <= ">" + rest && "/>" <= "/>" + rest;
  }

  lemma TagAfterAttribute(r: string, rest: string)
    requires AfterAttribute(r) == Some(rest)
    ensures TagEnd(r) == TagEnd(rest)
  {
    assert r[0] == ' ';
    assert !(">" <= r) && !("/>" <= r);
  }

  lemma {:induction false} QuotedLenOf(value: string, k: string)
    requires forall c :: c in value ==> IsQuotedChar(c)
    requires k != "" && k[0] == '"'
    ensures QuotedLen(value + k) == |value|
  {
    if value == "" {
      assert value + k == k;
    } else {
      QuotedLenOf(value[1..], k);
      assert (value + k)[1..] == value[1..] + k;
    }
  }

  lemma ValueReads(value: string, rest: string)
    requires forall c :: c in value ==> IsQuotedChar(c)
    ensures var tail := "=\"" + (value + ("\"" + rest));
      && "=\"" <= tail && QuotedLen(tail[2..]) == |value| && |value| + 2 < |tail|
      && tail[|value| + 2] == '"' && tail[|value| + 3..] == rest
  {
    hide QuotedLen;
    var tail := "=\"" + (value + ("\"" + rest));
    assert tail[2..] == value + ("\"" + rest);
    QuotedLenOf(value, "\"" + rest);
  }

  lemma AttributeReads(name: string, value: string, rest: string)
    requires IsName(name) && forall c :: c in value ==> IsQuotedChar(c)
    ensures AfterAttribute(Attribute(name, value) + rest) == Some(rest)
  {
    hide QuotedLen, NameLen;
    var tail := "=\"" + (value + ("\"" + rest));
    assert Attribute(name, value) + rest == " " + (name + tail);
    ValueReads(value, rest);
    NameReads(name, tail);
    NameTail(name, tail);
  }

  lemma NameTail(name: string, tail: string)
    ensures (" " + (name + tail))[0] == ' ' && (" " + (name + tail))[1..] == name + tail
    ensures (" " + (name + tail))[1 + |name|..] == tail
    ensures name != "" ==> |name| != 0
  {}

  lemma UrlIsQuoted()
    ensures forall c :: c in APACHE_URL ==> IsQuotedChar(c)
  {
    assert forall c :: c in "http://" ==> IsQuotedChar(c);
    assert forall c :: c in "ws.apache.org" ==> IsQuotedChar(c);
    assert forall c :: c in "/xmlrpc" ==> IsQuotedChar(c);
    assert forall c :: c in "/namespaces" ==> IsQuotedChar(c);
    assert forall c :: c in "/extensions" ==> IsQuotedChar(c);
  }

  lemma EmptyReads(name: string, rest: string)
    requires IsName(name)
    ensures NextItem("<" + (name + ("/>" + rest))) == EmptyTag(name, rest)
  {
    hide TagEnd, NameLen;
    EndsTag(rest);
    NameReads(name, "/>" + rest);
    assert ("<" + (name + ("/>" + rest)))[1..] == name + ("/>" + rest);
    assert (name + ("/>" + rest))[0] == name[0];
  }

  lemma EndReads(name: string, rest: string)
    requires IsName(name)
    ensures NextItem(Closing(name, rest)) == EndTag(name, rest)
  {
    hide NameLen;
    NameReads(name, ">" + rest);
    assert Closing(name, rest)[2..] == name + (">" + rest);
    assert (name + (">" + rest))[|name| + 1..] == rest;
  }

  // ---------------------------------------------------------------------
  // Text

  lemma Prepended(a: seq<Event>, b: seq<Event>, rest: Option<seq<Event>>)
    ensures Prepend(a, Prepend(b, rest)) == Prepend(a + b, rest)
    ensures Prepend([], rest) == rest
  {
    if rest.Some? {
      assert a + (b + rest.value) == (a + b) + rest.value;
      assert [] + rest.value == rest.value;
    }
  }

  /** Only the octets of a character decide how long it is. */
  lemma CharLenLocal(s: string, t: string)
    requires 0 < CharLen(s) <= |t| && s[..CharLen(s)] == t[..CharLen(s)]
    ensures CharLen(t) == CharLen(s)
  {
    var n := CharLen(s);
    assert t[0] == s[..n][0] == s[0];
    if n > 1 { assert t[1] == s[..n][1] == s[1]; }
    if n > 2 { assert t[2] == s[..n][2] == s[2]; }
    if n > 3 { assert t[3] == s[..n][3] == s[3]; }
  }

  /** The octets of a character of more than one are no ASCII. */
  lemma LongCharOctets(s: string)
    requires CharLen(s) > 1
    ensures forall i :: 0 <= i < CharLen(s) ==> s[i] as int >= 0x80
  {}

  lemma {:induction false} EscapePlain(s: string, n: nat)
    requires n <= |s| && forall i :: 0 <= i < n ==> EscapeOf(s[i]) == [s[i]]
    ensures XmlEscape(s) == s[..n] + XmlEscape(s[n..])
  {
    hide XmlEscape, EscapeOf;
    if n == 0 {
      assert s[..0] + XmlEscape(s) == XmlEscape(s) && s[0..] == s;
    } else {
      EscapePlain(s[1..], n - 1);
      EscapeHead(s);
      PlainFirst(s, n);
      Assoc([s[0]], s[1..][..n - 1], XmlEscape(s[n..]));
    }
  }

  lemma PlainFirst(s: string, n: nat)
    requires 0 < n <= |s|
    ensures [s[0]] + s[1..][..n - 1] == s[..n] && s[1..][n - 1..] == s[n..]
  {}

  lemma ReferenceReads(c: char, after: string)
    requires c in {'<', '>', '&', CR}
    ensures NextItem(EscapeOf(c) + after) == Data([c], after)
  {
    hide StartOf, EndOf;
    var e := EscapeOf(c);
    var r := e + after;
    assert e <= r && r[|e|..] == after && r[0] == e[0] && r[1] == e[1];
  }

  lemma CharReads(s: string, after: string)
    requires CharLen(s) > 0 && s[0] !in {'<', '>', '&', CR}
    ensures NextItem(s[..CharLen(s)] + after) == Data(s[..CharLen(s)], after)
  {
    hide StartOf, EndOf, ReferenceAt, CharLen;
    var n := CharLen(s);
    var r := s[..n] + after;
    assert r[..n] == s[..n] && r[n..] == after && r[0] == s[0];
    CharLenLocal(s, r);
  }

  /** The first character of escaped text reads as itself. */
  lemma EscapedCharReads(text: string, k: string)
    requires CharLen(text) > 0
    ensures var n := CharLen(text);
      NextItem(XmlEscape(text) + k) == Data(text[..n], XmlEscape(text[n..]) + k)
  {
    hide NextItem, Utf8Front, XmlEscape;
    var n := CharLen(text);
    var c := text[0];
    if c in {'<', '>', '&', CR} {
      EscapeHead(text);
      Assoc(EscapeOf(c), XmlEscape(text[1..]), k);
      ReferenceReads(c, XmlEscape(text[1..]) + k);
      assert n == 1 && text[..1] == [c];
    } else {
      if n > 1 { LongCharOctets(text); }
      EscapePlain(text, n);
      Assoc(text[..n], XmlEscape(text[n..]), k);
      CharReads(text, XmlEscape(text[n..]) + k);
    }
  }

  lemma {:induction false} EscapedReads(text: string, k: string, open: seq<string>)
    requires IsXmlText(text) && open != []
    ensures Content(XmlEscape(text) + k, open) == Prepend(TextEvents(text), Content(k, open))
    decreases |text|
  {
    hide NextItem, CharLen, XmlEscape;
    if text == "" {
      NothingEscaped(text);
      assert "" + k == k;
      Prepended([], [], Content(k, open));
    } else {
      var n := CharLen(text);
      EscapedCharReads(text, k);
      DataReads(XmlEscape(text) + k, open);
      EscapedReads(text[n..], k, open);
      Prepended([Chars(text[..n])], TextEvents(text[n..]), Content(k, open));
    }
  }

  lemma DataReads(r: string, open: seq<string>)
    requires NextItem(r).Data? && open != []
    ensures Content(r, open) == Prepend([Chars(NextItem(r).text)], Content(NextItem(r).rest, open))
  {
    hide NextItem;
  }

  /** The first character of raw text reads as itself, and a line end as LF. */
  lemma RawCharReads(text: string, k: string)
    requires text != "" && IsRaw(text)
    ensures var rest := if text[0] == CR then AfterCr(text, 0) else text[1..];
      && IsRaw(rest) && Normalise(text) == [if text[0] == CR then LF else text[0]] + Normalise(rest)
      && NextItem(text + k) == Data([if text[0] == CR then LF else text[0]], rest + k)
  {
    hide StartOf, EndOf, ReferenceAt;
    var r := text + k;
    assert r[0] == text[0];
    HeadAndTail(text);
    if text[0] == CR {
      assert |text| > 1 && r[1] == text[1];
      HeadAndTail(text[1..]);
      assert text[1..][1..] == text[2..];
      assert AfterCr(r, 0) == AfterCr(text, 0) + k;
    } else {
      assert r[..1] == [text[0]] && r[1..] == text[1..] + k;
    }
  }

  lemma {:induction false} RawReads(text: string, k: string, open: seq<string>)
    requires IsRaw(text) && open != []
    ensures Content(text + k, open) == Prepend(TextEvents(Normalise(text)), Content(k, open))
    decreases |text|
  {
    hide NextItem, Normalise, IsRaw;
    if text == "" {
      CrFreeStays(text);
      assert "" + k == k;
      Prepended([], [], Content(k, open));
    } else {
      var rest := if text[0] == CR then AfterCr(text, 0) else text[1..];
      var c := if text[0] == CR then LF else text[0];
      RawCharReads(text, k);
      DataReads(text + k, open);
      RawReads(rest, k, open);
      FirstAscii(c, Normalise(rest)) by { RawIsAscii(text); }
      Prepended([Chars([c])], TextEvents(Normalise(rest)), Content(k, open));
    }
  }

  lemma RawIsAscii(text: string)
    requires text != "" && IsRaw(text)
    ensures text[0] as int < 0x80 && IsXmlChar(text[0] as int)
  {
    HeadAndTail(text);
  }

  lemma FirstAscii(c: char, rest: string)
    requires c as int < 0x80 && IsXmlChar(c as int)
    ensures TextEvents([c] + rest) == [Chars([c])] + TextEvents(rest)
  {
    hide Utf8Front;
    assert ([c] + rest)[1..] == rest && ([c] + rest)[..1] == [c];
  }

  // ---------------------------------------------------------------------
  // Markup

  lemma {:induction false} MarkupReads(m: Markup, k: string, open: seq<string>)
    requires WellFormed(m) && open != []
    ensures Content(RenderK(m, k), open) == Prepend(EventsOf(m), Content(k, open))
    decreases m, 0
  {
    hide NextItem, IsRaw, IsXmlText, IsName;
    match m
    case Escaped(text) => EscapedReads(text, k, open);
    case Raw(text) => RawReads(text, k, open);
    case Empty(name) =>
      EmptyReads(name, k);
    case Tag(name, attribute, content) =>
      var inner := ContentK(content, Closing(name, k));
      StartReads(name, attribute, inner);
      ContentReads(content, Closing(name, k), [name] + open);
      EndReads(name, k);
      assert ([name] + open)[1..] == open;
      Prepended(ContentEvents(content), [End(name)], Content(k, open));
      Prepended([Start(name)], ContentEvents(content) + [End(name)], Content(k, open));
  }

  lemma {:induction false} ContentReads(ms: seq<Markup>, k: string, open: seq<string>)
    requires AllWellFormed(ms) && open != []
    ensures Content(ContentK(ms, k), open) == Prepend(ContentEvents(ms), Content(k, open))
    decreases ms, 0
  {
    hide Content, EventsOf, RenderK;
    if ms == [] {
      Prepended([], [], Content(k, open));
    } else {
      MarkupReads(ms[0], ContentK(ms[1..], k), open);
      ContentReads(ms[1..], k, open);
      Prepended(EventsOf(ms[0]), ContentEvents(ms[1..]), Content(k, open));
    }
  }

  // ---------------------------------------------------------------------
  // The element

  function TextOf(ms: seq<Markup>): string {
    if ms == [] then ""
    else match ms[0]
      case Escaped(text) => text + TextOf(ms[1..])
      case Raw(text) => Normalise(text) + TextOf(ms[1..])
      case _ => TextOf(ms[1..])
  }

  /** The elements in a content, leaving out its text. */
  function KidsOf(ms: seq<Markup>): seq<Elem>
    decreases ms, 0
  {
    if ms == [] then []
    else match ms[0]
      case Tag(name, _, content) => [Elem(name, TextOf(content), KidsOf(content))] + KidsOf(ms[1..])
      case Empty(name) => [Elem(name, "", [])] + KidsOf(ms[1..])
      case _ => KidsOf(ms[1..])
  }

  lemma InnerChars(text: string, es: seq<Event>)
    requires Inner(es).Inside?
    ensures var i := Inner(es);
      Inner([Chars(text)] + es) == Inside(text + i.cdata, i.children, i.rest)
  {
    assert ([Chars(text)] + es)[1..] == es;
  }

  lemma {:induction false} InnerText(s: string, es: seq<Event>)
    requires Inner(es).Inside?
    ensures var i := Inner(es);
      Inner(TextEvents(s) + es) == Inside(s + i.cdata, i.children, i.rest)
    decreases |s|
  {
    hide CharLen, Inner;
    if s == "" {
      assert TextEvents(s) + es == es;
      Assoc("", "", Inner(es).cdata);
      assert "" + Inner(es).cdata == Inner(es).cdata;
    } else {
      var n := if CharLen(s) > 0 then CharLen(s) else |s|;
      InnerText(s[n..], es);
      Grouped([Chars(s[..n])], TextEvents(s[n..]), es, []);
      InnerChars(s[..n], TextEvents(s[n..]) + es);
      Assoc(s[..n], s[n..], Inner(es).cdata);
      assert s[..n] + s[n..] == s;
    }
  }

  lemma InnerElement(name: string, es: seq<Event>, rest: seq<Event>)
    requires Inner(es).Inside? && Inner(es).rest == [End(name)] + rest && Inner(rest).Inside?
    ensures var (i, j) := (Inner(es), Inner(rest));
      Inner([Start(name)] + es) == Inside(j.cdata, [Elem(name, i.cdata, i.children)] + j.children, j.rest)
  {
    assert ([Start(name)] + es)[1..] == es;
    assert ([End(name)] + rest)[1..] == rest;
  }

  lemma Grouped(a: seq<Event>, b: seq<Event>, c: seq<Event>, d: seq<Event>)
    ensures (a + (b + c)) + d == a + (b + (c + d))
    ensures (a + b) + c == a + (b + c)
  {}

  lemma InnerEnd(name: string, rest: seq<Event>)
    ensures Inner([End(name)] + rest) == Inside("", [], [End(name)] + rest)
  {}

  lemma {:induction false} InnerContent(ms: seq<Markup>, es: seq<Event>)
    requires Inner(es).Inside?
    ensures var i := Inner(es);
      Inner(ContentEvents(ms) + es) == Inside(TextOf(ms) + i.cdata, KidsOf(ms) + i.children, i.rest)
    decreases ms
  {
    hide Inner, Normalise, TextEvents;
    if ms == [] {
      assert ContentEvents(ms) + es == es;
      assert KidsOf(ms) + Inner(es).children == Inner(es).children;
      assert TextOf(ms) + Inner(es).cdata == Inner(es).cdata;
    } else {
      var after := ContentEvents(ms[1..]) + es;
      InnerContent(ms[1..], es);
      Grouped(EventsOf(ms[0]), ContentEvents(ms[1..]), es, []);
      var i := Inner(es);
      match ms[0] {
        case Escaped(text) =>
          InnerText(text, after);
          Assoc(text, TextOf(ms[1..]), i.cdata);
        case Raw(text) =>
          InnerText(Normalise(text), after);
          Assoc(Normalise(text), TextOf(ms[1..]), i.cdata);
        case Empty(name) =>
          InnerEnd(name, after);
          InnerElement(name, [End(name)] + after, after);
          Grouped([Start(name)], [End(name)], after, []);
          assert [Start(name)] + [End(name)] == [Start(name), End(name)];
          KidsJoined(Elem(name, "", []), KidsOf(ms[1..]), i.children);
        case Tag(name, _, content) =>
          var inner := ContentEvents(content) + ([End(name)] + after);
          InnerEnd(name, after);
          InnerContent(content, [End(name)] + after);
          NothingAdded(TextOf(content), KidsOf(content));
          InnerElement(name, inner, after);
          Grouped([Start(name)], ContentEvents(content), [End(name)], after);
          KidsJoined(Elem(name, TextOf(content), KidsOf(content)), KidsOf(ms[1..]), i.children);
      }
    }
  }

  lemma NothingAdded(text: string, kids: seq<Elem>)
    ensures text + "" == text && kids + [] == kids
  {}

  lemma KidsJoined(e: Elem, a: seq<Elem>, b: seq<Elem>)
    ensures [e] + (a + b) == ([e] + a) + b
  {}

  lemma PrologueReads(body: string)
    requires body != "" && body[0] == '<'
    ensures var r := XML_PROLOGUE + body;
      && "<?xml " <= r && AfterDeclaration(r[6..]) == Some("\r\n" + body)
      && ("\r\n" + body)[BlankFront("\r\n" + body)..] == body
  {
    hide AfterDeclaration;
    PrologueParts(DECLARATION, body);
    assert forall c :: c in "version=\"1.0\" " ==> c != '?' && c != '<';
    assert forall c :: c in "encoding=\"UTF-8\"" ==> c != '?' && c != '<';
    DeclarationEnds(DECLARATION, "\r\n" + body);
    BlankLine(body);
  }

  lemma PrologueParts(declaration: string, body: string)
    ensures var r := "<?xml " + (declaration + "?>\r\n") + body;
      "<?xml " <= r && r[6..] == declaration + ("?>" + ("\r\n" + body))
  {}

  lemma BlankLine(body: string)
    requires body != "" && body[0] == '<'
    ensures ("\r\n" + body)[BlankFront("\r\n" + body)..] == body
  {
    var b := "\r\n" + body;
    assert b[1..] == "\n" + body && ("\n" + body)[1..] == body;
    assert BlankFront(b) == 1 + BlankFront("\n" + body);
    assert BlankFront("\n" + body) == 1 + BlankFront(body);
    assert b[2..] == body;
  }

  lemma {:induction false} DeclarationEnds(d: string, rest: string)
    requires forall c :: c in d ==> c != '?' && c != '<'
    ensures AfterDeclaration(d + ("?>" + rest)) == Some(rest)
  {
    var r := d + ("?>" + rest);
    if d == "" {
      assert r == "?>" + rest && r[2..] == rest;
    } else {
      HeadAndTail(d);
      assert r[0] == d[0] && r[1..] == d[1..] + ("?>" + rest);
      DeclarationEnds(d[1..], rest);
    }
  }

  /** A printed document reads back as the element its markup describes. */
  lemma DocumentReadsBack(name: string, attribute: string, content: seq<Markup>)
    requires WellFormed(Tag(name, attribute, content))
    ensures ReadXml(DocumentText(Tag(name, attribute, content))) == Some(Elem(name, TextOf(content), KidsOf(content)))
  {
    hide NextItem, Content, Inner, IsName, AfterDeclaration, BlankFront;
    var root := Tag(name, attribute, content);
    var inner := ContentK(content, Closing(name, "\r\n"));
    PrologueReads(RenderK(root, "\r\n"));
    StartReads(name, attribute, inner);
    ContentReads(content, Closing(name, "\r\n"), [name]);
    EndReads(name, "\r\n");
    NothingAfter(name);
    var es := ContentEvents(content) + [End(name)];
    Prepended(ContentEvents(content), [End(name)], Some([]));
    InnerEnd(name, []);
    assert [End(name)] + [] == [End(name)];
    InnerContent(content, [End(name)]);
    NothingAdded(TextOf(content), KidsOf(content));
    assert ([Start(name)] + (es + []))[1..] == es;
  }

  lemma NothingAfter(name: string)
    requires NextItem(Closing(name, "\r\n")) == EndTag(name, "\r\n")
    ensures Content(Closing(name, "\r\n"), [name]) == Prepend([End(name)], Some([]))
  {
    hide NextItem;
    assert [name][1..] == [];
  }
}
