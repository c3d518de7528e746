/** The bytes of every printed value and message, written out as text. */
module XmlLayout {
  import opened Text
  import opened Base64Text
  import opened Values
  import opened Lines
  import opened Doubles
  import opened Datetimes
  import opened XmlText
  import opened XmlReader
  import opened XmlPrinter
  import opened Messages

  /** The text of a value element. */
  function ValueText(v: Value, dialect: Dialect): string
    requires XmlPrintable(v)
    decreases v, 1
  {
    "<value>" + (InnerText(v, dialect) + "</value>")
  }

  function InnerText(v: Value, dialect: Dialect): string
    requires XmlPrintable(v)
    decreases v, 0
  {
    match v
    case Int(i) => "<i4>" + (Signed(i) + "</i4>")
    case I8(i) => if dialect == ApacheDialect then "<ex:i8>" + (Signed(i) + "</ex:i8>") else "<i8>" + (Signed(i) + "</i8>")
    case Bool(b) => if b then "<boolean>1</boolean>" else "<boolean>0</boolean>"
    case Double(d) => "<double>" + (FloatText(d) + "</double>")
    case DateTime(dt) => "<dateTime.iso8601>" + (DatetimeText(dt) + "</dateTime.iso8601>")
    case Str(s) => "<string>" + (XmlEscape(s) + "</string>")
    case Base64(bytes) => "<base64>\r\n" + (Encode64(bytes) + "</base64>")
    case Array(items) => "<array><data>\r\n" + (ItemsText(items, dialect) + "</data></array>")
    case Struct(members) => "<struct>\r\n" + (MembersText(members, dialect) + "</struct>")
    case Nil => if dialect == ApacheDialect then "<ex:nil/>" else "<nil/>"
  }

  /** Each item on a line. */
  function ItemsText(items: seq<Value>, dialect: Dialect): string
    requires AllPrintable(items)
    decreases items, 0
  {
    if items == [] then "" else ItemsText(items[..|items| - 1], dialect) + (ValueText(items[|items| - 1], dialect) + "\r\n")
  }

  function MemberText(m: Member, dialect: Dialect): string
    requires XmlPrintable(m.value)
    decreases m, 0
  {
    "<member><name>" + (XmlEscape(m.key) + ("</name>\r\n" + (ValueText(m.value, dialect) + "</member>")))
  }

  function MembersText(members: seq<Member>, dialect: Dialect): string
    requires MembersPrintable(members)
    decreases members, 0
  {
    if members == [] then ""
    else MembersText(members[..|members| - 1], dialect) + (MemberText(members[|members| - 1], dialect) + "\r\n")
  }

  lemma TagText(name: string, content: seq<Markup>, text: string)
    requires Rendered(content) == text
    ensures Rendered([Tag(name, "", content)]) == ("<" + name + ">") + (text + ("</" + name + ">"))
  {
    hide Rendered;
    RenderedTag(name, content);
    assert Open(name) == "<" + name + ">" && Close(name) == "</" + name + ">";
  }

  /** An element with its start and end tag spelled out. */
  lemma Spelled(name: string, content: seq<Markup>, text: string, start: string, end: string)
    requires Rendered(content) == text && start == "<" + name + ">" && end == "</" + name + ">"
    ensures Rendered([Tag(name, "", content)]) == start + (text + end)
  {
    hide Rendered;
    TagText(name, content, text);
  }

  lemma RawThen(text: string, ms: seq<Markup>)
    ensures Rendered([Raw(text)] + ms) == text + Rendered(ms)
  {
    hide Rendered;
    RenderedTwo([Raw(text)], ms);
    RenderedText(text);
  }

  lemma SimpleText(name: string, text: string, start: string, end: string)
    requires start == "<" + name + ">" && end == "</" + name + ">"
    ensures Rendered(Simple(name, text)) == start + (text + end)
  {
    hide Rendered;
    RenderedText(text);
    Spelled(name, [Raw(text)], text, start, end);
  }

  lemma IntegerPrinted(v: Value, dialect: Dialect)
    requires v.Int? || v.I8?
    ensures Rendered(ContentOf(v, dialect)) == InnerText(v, dialect)
  {
    hide Rendered, Simple, Signed;
    match v
    case Int(i) => SimpleText("i4", Signed(i), "<i4>", "</i4>");
    case I8(i) =>
      SimpleText("i8", Signed(i), "<i8>", "</i8>");
      SimpleText("ex:i8", Signed(i), "<ex:i8>", "</ex:i8>");
  }

  lemma OtherPrinted(v: Value, dialect: Dialect)
    requires XmlPrintable(v) && (v.Bool? || v.Double?)
    ensures Rendered(ContentOf(v, dialect)) == InnerText(v, dialect)
  {
    hide Rendered, Simple, FloatText, Printable;
    match v
    case Bool(b) =>
      SimpleText("boolean", if b then "1" else "0", "<boolean>", "</boolean>");
      assert "<boolean>" + ("1" + "</boolean>") == "<boolean>1</boolean>" && "<boolean>" + ("0" + "</boolean>") == "<boolean>0</boolean>";
    case Double(d) => SimpleText("double", FloatText(d), "<double>", "</double>");
  }

  lemma DatetimePrinted(v: Value, dialect: Dialect)
    requires XmlPrintable(v) && v.DateTime?
    ensures Rendered(ContentOf(v, dialect)) == InnerText(v, dialect)
  {
    hide Rendered, Simple, DatetimeText;
    SimpleText("dateTime.iso8601", DatetimeText(v.dt), "<dateTime.iso8601>", "</dateTime.iso8601>");
  }

  lemma TextPrinted(v: Value, dialect: Dialect)
    requires XmlPrintable(v) && (v.Str? || v.Base64? || v.Nil?)
    ensures Rendered(ContentOf(v, dialect)) == InnerText(v, dialect)
  {
    hide Rendered, Encode64, XmlEscape;
    match v
    case Str(s) =>
      RenderedText(s);
      Spelled("string", [Escaped(s)], XmlEscape(s), "<string>", "</string>");
    case Base64(bytes) =>
      var content := [Raw(CRLF), Raw(Encode64(bytes))];
      assert content == [Raw(CRLF)] + [Raw(Encode64(bytes))];
      RawThen(CRLF, [Raw(Encode64(bytes))]);
      RenderedText(Encode64(bytes));
      Spelled("base64", content, CRLF + Encode64(bytes), "<base64>", "</base64>");
      assert "<base64>" + ((CRLF + Encode64(bytes)) + "</base64>") == "<base64>\r\n" + (Encode64(bytes) + "</base64>");
    case Nil =>
      RenderedEmpty("nil");
      RenderedEmpty("ex:nil");
      assert "<" + ("nil" + "/>") == "<nil/>" && "<" + ("ex:nil" + "/>") == "<ex:nil/>";
  }

  /** The printed value is this text. */
  lemma {:induction false} ValuePrinted(v: Value, dialect: Dialect)
    requires XmlPrintable(v)
    ensures Rendered([MarkupOf(v, dialect)]) == ValueText(v, dialect)
    decreases v, 3
  {
    hide Rendered, InnerText, ContentOf;
    InnerPrinted(v, dialect);
    Spelled("value", ContentOf(v, dialect), InnerText(v, dialect), "<value>", "</value>");
  }

  lemma {:induction false} InnerPrinted(v: Value, dialect: Dialect)
    requires XmlPrintable(v)
    ensures Rendered(ContentOf(v, dialect)) == InnerText(v, dialect)
    decreases v, 2
  {
    hide Rendered, ItemsMarkup, MembersMarkup, ItemsText, MembersText;
    if v.Array? {
      ItemsPrinted(v.items, dialect);
      ArrayPrinted(v.items, dialect);
    } else if v.Struct? {
      MembersPrinted(v.members, dialect);
      StructPrinted(v.members, dialect);
    } else if v.Str? || v.Base64? || v.Nil? {
      TextPrinted(v, dialect);
    } else if v.Int? || v.I8? {
      IntegerPrinted(v, dialect);
    } else if v.DateTime? {
      DatetimePrinted(v, dialect);
    } else {
      OtherPrinted(v, dialect);
    }
  }

  lemma ArrayPrinted(items: seq<Value>, dialect: Dialect)
    requires AllPrintable(items) && Rendered(ItemsMarkup(items, dialect)) == ItemsText(items, dialect)
    ensures XmlPrintable(Array(items)) && Rendered(ContentOf(Array(items), dialect)) == InnerText(Array(items), dialect)
  {
    hide Rendered, ItemsMarkup, ItemsText, XmlPrintable;
    assert XmlPrintable(Array(items)) by { ArrayPrintable(items); }
    var content := [Raw(CRLF)] + ItemsMarkup(items, dialect);
    var text := ItemsText(items, dialect);
    RawThen(CRLF, ItemsMarkup(items, dialect));
    Spelled("data", content, CRLF + text, "<data>", "</data>");
    Spelled("array", [Tag("data", "", content)], "<data>" + ((CRLF + text) + "</data>"), "<array>", "</array>");
    assert "<array>" + (("<data>" + ((CRLF + text) + "</data>")) + "</array>") == "<array><data>\r\n" + (text + "</data></array>");
  }

  lemma ArrayPrintable(items: seq<Value>)
    requires AllPrintable(items)
    ensures XmlPrintable(Array(items))
  {}

  lemma StructPrintable(members: seq<Member>)
    requires MembersPrintable(members)
    ensures XmlPrintable(Struct(members))
  {}

  lemma StructPrinted(members: seq<Member>, dialect: Dialect)
    requires MembersPrintable(members) && Rendered(MembersMarkup(members, dialect)) == MembersText(members, dialect)
    ensures XmlPrintable(Struct(members)) && Rendered(ContentOf(Struct(members), dialect)) == InnerText(Struct(members), dialect)
  {
    hide Rendered, MembersMarkup, MembersText, XmlPrintable;
    assert XmlPrintable(Struct(members)) by { StructPrintable(members); }
    var content := [Raw(CRLF)] + MembersMarkup(members, dialect);
    var text := MembersText(members, dialect);
    RawThen(CRLF, MembersMarkup(members, dialect));
    Spelled("struct", content, CRLF + text, "<struct>", "</struct>");
    assert "<struct>" + ((CRLF + text) + "</struct>") == "<struct>\r\n" + (text + "</struct>");
  }

  /** A tag and a line end after what was there. */
  lemma LineAdded(before: seq<Markup>, tag: Markup, text: string)
    requires Rendered([tag]) == text
    ensures Rendered(before + [tag, Raw(CRLF)]) == Rendered(before) + (text + "\r\n")
  {
    hide Rendered;
    RenderedTwo(before, [tag, Raw(CRLF)]);
    assert [tag, Raw(CRLF)] == [tag] + [Raw(CRLF)];
    RenderedTwo([tag], [Raw(CRLF)]);
    RenderedText(CRLF);
  }

  lemma {:induction false} ItemsPrinted(items: seq<Value>, dialect: Dialect)
    requires AllPrintable(items)
    ensures Rendered(ItemsMarkup(items, dialect)) == ItemsText(items, dialect)
    decreases items, 0
  {
    hide Rendered, MarkupOf, ValueText, XmlPrintable;
    if items == [] {
      RenderedText("");
    } else {
      var n := |items| - 1;
      assert items[n] in items;
      ItemsPrinted(items[..n], dialect);
      ValuePrinted(items[n], dialect);
      LineAdded(ItemsMarkup(items[..n], dialect), MarkupOf(items[n], dialect), ValueText(items[n], dialect));
    }
  }

  lemma {:induction false} MembersPrinted(members: seq<Member>, dialect: Dialect)
    requires MembersPrintable(members)
    ensures Rendered(MembersMarkup(members, dialect)) == MembersText(members, dialect)
    decreases members, 0
  {
    hide Rendered, MemberMarkup, MemberText, XmlPrintable;
    if members == [] {
      RenderedText("");
    } else {
      var n := |members| - 1;
      assert members[n] in members;
      MembersPrinted(members[..n], dialect);
      MemberPrinted(members[n], dialect);
      LineAdded(MembersMarkup(members[..n], dialect), MemberMarkup(members[n], dialect), MemberText(members[n], dialect));
    }
  }

  lemma {:induction false} MemberPrinted(m: Member, dialect: Dialect)
    requires XmlPrintable(m.value)
    ensures Rendered([MemberMarkup(m, dialect)]) == MemberText(m, dialect)
    decreases m, 4
  {
    hide Rendered, MarkupOf, ValueText, XmlEscape, XmlPrintable;
    var name, value := Tag("name", "", [Escaped(m.key)]), MarkupOf(m.value, dialect);
    var key, text := XmlEscape(m.key), ValueText(m.value, dialect);
    RenderedText(m.key);
    Spelled("name", [Escaped(m.key)], key, "<name>", "</name>");
    ValuePrinted(m.value, dialect);
    var content := [name, Raw(CRLF), value];
    LineAdded([], name, "<name>" + (key + "</name>"));
    RenderedText("");
    assert [] + [name, Raw(CRLF)] == [name, Raw(CRLF)] && content == [name, Raw(CRLF)] + [value];
    RenderedTwo([name, Raw(CRLF)], [value]);
    var inner := (("<name>" + (key + "</name>")) + "\r\n") + text;
    assert Rendered(content) == inner;
    Spelled("member", content, inner, "<member>", "</member>");
    assert "<member>" + (inner + "</member>") == "<member><name>" + (key + ("</name>\r\n" + (text + "</member>")));
  }

  // ---------------------------------------------------------------------
  // Messages

  function Prologue(): string { "<?xml version=\"1.0\"" + (" encoding=\"UTF-8\"" + "?>\r\n") }

  /** The declaration of the prefix, in the start tag of the root element. */
  function Declaration(dialect: Dialect): string {
    if dialect == ApacheDialect then " xmlns:ex=\"" + ("http://ws.apache.org" + ("/xmlrpc/namespaces" + "/extensions\"")) else ""
  }

  function ParamsText(params: seq<Value>, dialect: Dialect): string
    requires AllPrintable(params)
  {
    if params == [] then ""
    else ParamsText(params[..|params| - 1], dialect) + ("<param>" + (ValueText(params[|params| - 1], dialect) + "</param>") + "\r\n")
  }

  lemma {:induction false} ParamListPrinted(params: seq<Value>, dialect: Dialect)
    requires AllPrintable(params)
    ensures Rendered(ParamListMarkup(params, dialect)) == ParamsText(params, dialect)
    decreases |params|
  {
    hide Rendered, MarkupOf, ValueText, XmlPrintable;
    if params == [] {
      RenderedText("");
    } else {
      var n := |params| - 1;
      assert params[n] in params;
      ParamListPrinted(params[..n], dialect);
      ParamPrinted(params[n], dialect);
      LineAdded(ParamListMarkup(params[..n], dialect), ParamMarkup(params[n], dialect),
        "<param>" + (ValueText(params[n], dialect) + "</param>"));
    }
  }

  lemma ParamPrinted(v: Value, dialect: Dialect)
    requires XmlPrintable(v)
    ensures Rendered([ParamMarkup(v, dialect)]) == "<param>" + (ValueText(v, dialect) + "</param>")
  {
    hide Rendered, MarkupOf, ValueText, XmlPrintable;
    ValuePrinted(v, dialect);
    Spelled("param", [MarkupOf(v, dialect)], ValueText(v, dialect), "<param>", "</param>");
  }

  lemma PrologueIs()
    ensures XML_PROLOGUE == Prologue()
  {
    Moved("<?xml ", "version=\"1.0\" ", "encoding=\"UTF-8\"", "?>\r\n");
    assert "<?xml " + "version=\"1.0\" " == "<?xml version=\"1.0\"" + " " && " " + "encoding=\"UTF-8\"" == " encoding=\"UTF-8\"";
    Moved2("<?xml version=\"1.0\"", " ", "encoding=\"UTF-8\"", "?>\r\n");
  }

  lemma Moved(a: string, b: string, c: string, d: string)
    ensures a + ((b + c) + d) == (a + b) + (c + d)
  {}

  lemma Moved2(a: string, b: string, c: string, d: string)
    ensures (a + b) + (c + d) == a + ((b + c) + d)
  {}

  lemma XmlnsIs()
    ensures XMLNS_APACHE == " xmlns:ex=\"" + ("http://ws.apache.org" + ("/xmlrpc/namespaces" + "/extensions\""))
  {
    var a, b, c, d, e := "http://", "ws.apache.org", "/xmlrpc", "/namespaces", "/extensions";
    assert " " + ("xmlns:ex" + "=\"") == " xmlns:ex=\"" && a + b == "http://ws.apache.org" && c + d == "/xmlrpc/namespaces";
    assert e + "\"" == "/extensions\"";
    Joined(" ", "xmlns:ex", "=\"", a, b, c, d, e, "\"");
  }

  lemma Joined(o: string, n: string, q: string, a: string, b: string, c: string, d: string, e: string, r: string)
    ensures o + (n + (q + ((a + (b + (c + (d + e)))) + r))) == (o + (n + q)) + ((a + b) + ((c + d) + (e + r)))
  {}

  lemma DeclarationIs(dialect: Dialect)
    ensures Xmlns(dialect) == Declaration(dialect)
  {
    XmlnsIs();
  }

  /** A document whose root has a declaration or none. */
  lemma RootPrinted(name: string, attribute: string, content: seq<Markup>, text: string)
    requires Rendered(content) == text
    ensures DocumentText(Tag(name, attribute, content))
              == Prologue() + ("<" + (name + (attribute + (">" + (text + ("</" + (name + ">\r\n")))))))
  {
    PrologueIs();
    hide ContentK, Prologue;
    ContentThen(content, Closing(name, "\r\n"));
    assert ">" + "\r\n" == ">\r\n";
  }

  /** The bytes of a call. */
  lemma CallPrinted(name: string, params: seq<Value>, dialect: Dialect)
    requires AllPrintable(params)
    ensures CallText(name, params, dialect)
              == Prologue() + ("<methodCall" + (Declaration(dialect) + (">\r\n" + ("<methodName>" + (XmlEscape(name) + ("</methodName>\r\n"
                 + ("<params>\r\n" + (ParamsText(params, dialect) + ("</params>\r\n" + "</methodCall>\r\n")))))))))
  {
    hide Rendered, ParamListMarkup, ParamsText, XmlEscape, XmlPrintable, DocumentText, Prologue, Declaration;
    DeclarationIs(dialect);
    var inner := CallInner(name, params, dialect);
    RootPrinted("methodCall", Xmlns(dialect), CallContent(name, params, dialect), inner);
    CallRegrouped(Declaration(dialect), XmlEscape(name), ParamsText(params, dialect));
  }

  function CallBody(n: string, p: string): string {
    "\r\n" + ((("<methodName>" + (n + "</methodName>")) + "\r\n") + (("<params>" + (("\r\n" + p) + "</params>")) + "\r\n"))
  }

  lemma CallRegrouped(d: string, n: string, p: string)
    ensures "<" + ("methodCall" + (d + (">" + (CallBody(n, p) + ("</" + ("methodCall" + ">\r\n"))))))
              == "<methodCall" + (d + (">\r\n" + ("<methodName>" + (n + ("</methodName>\r\n" + ("<params>\r\n"
                 + (p + ("</params>\r\n" + "</methodCall>\r\n"))))))))
  {
    Regrouped("\r\n", "<methodName>", n, "</methodName>", "<params>", p, "</params>", "</" + ("methodCall" + ">\r\n"));
    assert ">" + "\r\n" == ">\r\n" && "</methodName>" + "\r\n" == "</methodName>\r\n" && "<params>" + "\r\n" == "<params>\r\n";
    assert "</params>" + "\r\n" == "</params>\r\n" && "</" + ("methodCall" + ">\r\n") == "</methodCall>\r\n";
    Opened("methodCall", d, CallBody(n, p) + "</methodCall>\r\n", "<methodCall");
  }

  /** The start of a document's root. */
  lemma Opened(name: string, d: string, rest: string, start: string)
    requires start == "<" + name
    ensures "<" + (name + (d + (">" + rest))) == start + (d + (">" + rest))
  {
    Assoc("<", name, d + (">" + rest));
  }

  lemma Regrouped(e: string, o1: string, n: string, c1: string, o2: string, p: string, c2: string, end: string)
    ensures ">" + ((e + (((o1 + (n + c1)) + e) + ((o2 + ((e + p) + c2)) + e))) + end)
              == (">" + e) + (o1 + (n + ((c1 + e) + ((o2 + e) + (p + ((c2 + e) + end))))))
  {}

  lemma CallInner(name: string, params: seq<Value>, dialect: Dialect) returns (inner: string)
    requires AllPrintable(params)
    ensures inner == Rendered(CallContent(name, params, dialect)) == CallBody(XmlEscape(name), ParamsText(params, dialect))
  {
    hide Rendered, ParamListMarkup, ParamsText, XmlEscape, XmlPrintable;
    var nameTag, paramsTag := Tag("methodName", "", [Escaped(name)]), ParamsMarkup(params, dialect);
    var n, p := "<methodName>" + (XmlEscape(name) + "</methodName>"), "<params>" + ((CRLF + ParamsText(params, dialect)) + "</params>");
    RenderedText(name);
    Spelled("methodName", [Escaped(name)], XmlEscape(name), "<methodName>", "</methodName>");
    ParamListPrinted(params, dialect);
    RawThen(CRLF, ParamListMarkup(params, dialect));
    Spelled("params", [Raw(CRLF)] + ParamListMarkup(params, dialect), CRLF + ParamsText(params, dialect), "<params>", "</params>");
    inner := TwoLines(nameTag, n, paramsTag, p);
    assert CallContent(name, params, dialect) == [Raw(CRLF), nameTag, Raw(CRLF), paramsTag, Raw(CRLF)];
  }

  /** Two tags on lines of their own. */
  lemma TwoLines(a: Markup, x: string, b: Markup, y: string) returns (inner: string)
    requires Rendered([a]) == x && Rendered([b]) == y
    ensures inner == Rendered([Raw(CRLF), a, Raw(CRLF), b, Raw(CRLF)]) == "\r\n" + ((x + "\r\n") + (y + "\r\n"))
  {
    hide Rendered;
    var first, second := [a, Raw(CRLF)], [b, Raw(CRLF)];
    OneLine(a, x);
    OneLine(b, y);
    RenderedTwo(first, second);
    RawThen(CRLF, first + second);
    assert [Raw(CRLF)] + (first + second) == [Raw(CRLF), a, Raw(CRLF), b, Raw(CRLF)];
    inner := Rendered([Raw(CRLF), a, Raw(CRLF), b, Raw(CRLF)]);
  }

  lemma OneLine(tag: Markup, text: string)
    requires Rendered([tag]) == text
    ensures Rendered([tag, Raw(CRLF)]) == text + "\r\n"
  {
    hide Rendered;
    LineAdded([], tag, text);
    RenderedText("");
    assert [] + [tag, Raw(CRLF)] == [tag, Raw(CRLF)];
  }

  /** A tag on a line of its own, with a line end before it. */
  lemma InLine(tag: Markup, text: string)
    requires Rendered([tag]) == text
    ensures Rendered([Raw(CRLF), tag, Raw(CRLF)]) == "\r\n" + (text + "\r\n")
  {
    hide Rendered;
    OneLine(tag, text);
    assert [Raw(CRLF)] + [tag, Raw(CRLF)] == [Raw(CRLF), tag, Raw(CRLF)];
    RawThen(CRLF, [tag, Raw(CRLF)]);
  }

  function Around(start: string, text: string, end: string): string { start + (("\r\n" + (text + "\r\n")) + end) }

  lemma InLines(tag: Markup, text: string, name: string, start: string, end: string)
    requires Rendered([tag]) == text && start == "<" + name + ">" && end == "</" + name + ">"
    ensures Rendered([Tag(name, "", [Raw(CRLF), tag, Raw(CRLF)])]) == Around(start, text, end)
  {
    hide Rendered;
    InLine(tag, text);
    Spelled(name, [Raw(CRLF), tag, Raw(CRLF)], "\r\n" + (text + "\r\n"), start, end);
  }

  lemma AroundTwice(d: string, start: string, text: string, end: string, last: string)
    ensures d + (">" + (("\r\n" + (Around(start, text, end) + "\r\n")) + last))
              == d + (">\r\n" + ((start + "\r\n") + (text + (("\r\n" + end) + ("\r\n" + last)))))
  {
    assert ">" + "\r\n" == ">\r\n";
    Regroup(">", "\r\n", start, text, end, last);
  }

  lemma Regroup(o: string, e: string, start: string, text: string, end: string, last: string)
    ensures o + ((e + ((start + ((e + (text + e)) + end)) + e)) + last) == (o + e) + ((start + e) + (text + ((e + end) + (e + last))))
  {}

  /** The bytes of a response with a result. */
  lemma ResponsePrinted(v: Value, dialect: Dialect)
    requires XmlPrintable(v)
    ensures ResponseText(v, dialect)
              == Prologue() + ("<methodResponse" + (Declaration(dialect) + (">\r\n" + ("<params>\r\n" + (("<param>" + (ValueText(v, dialect)
                 + "</param>")) + ("\r\n</params>" + "\r\n</methodResponse>\r\n"))))))
  {
    hide Rendered, ParamMarkup, ValueText, XmlPrintable, DocumentText, Prologue, Declaration, Around;
    DeclarationIs(dialect);
    var param, text := ParamMarkup(v, dialect), "<param>" + (ValueText(v, dialect) + "</param>");
    ParamPrinted(v, dialect);
    InLines(param, text, "params", "<params>", "</params>");
    var params := Tag("params", "", [Raw(CRLF), param, Raw(CRLF)]);
    InLine(params, Around("<params>", text, "</params>"));
    ResponseRoot(dialect, params, Around("<params>", text, "</params>"), Declaration(dialect));
    AroundTwice(Declaration(dialect), "<params>", text, "</params>", "</methodResponse>\r\n");
    assert "<params>" + "\r\n" == "<params>\r\n" && "\r\n" + "</params>" == "\r\n</params>";
    assert "\r\n" + "</methodResponse>\r\n" == "\r\n</methodResponse>\r\n";
  }

  lemma ResponseRoot(dialect: Dialect, tag: Markup, text: string, attribute: string)
    requires Rendered([tag]) == text && attribute in {"", Xmlns(dialect)}
    ensures DocumentText(Tag("methodResponse", attribute, [Raw(CRLF), tag, Raw(CRLF)]))
              == Prologue() + ("<methodResponse" + (attribute + (">" + (("\r\n" + (text + "\r\n")) + "</methodResponse>\r\n"))))
  {
    hide Rendered, DocumentText, Prologue, Xmlns;
    InLine(tag, text);
    RootPrinted("methodResponse", attribute, [Raw(CRLF), tag, Raw(CRLF)], "\r\n" + (text + "\r\n"));
    assert "</" + ("methodResponse" + ">\r\n") == "</methodResponse>\r\n" && "<" + "methodResponse" == "<methodResponse";
    Opened("methodResponse", attribute, ("\r\n" + (text + "\r\n")) + "</methodResponse>\r\n", "<methodResponse");
  }

  /** The bytes of a fault response. */
  lemma FaultPrinted(code: Int32, text: string)
    requires XmlPrintable(FaultStruct(code, text))
    ensures FaultText(code, text)
              == Prologue() + ("<methodResponse" + ("" + (">\r\n" + ("<fault>\r\n" + (ValueText(FaultStruct(code, text), I8Dialect)
                 + ("\r\n</fault>" + "\r\n</methodResponse>\r\n"))))))
  {
    hide Rendered, MarkupOf, ValueText, XmlPrintable, DocumentText, Prologue, Around;
    var v := FaultStruct(code, text);
    var value, t := MarkupOf(v, I8Dialect), ValueText(v, I8Dialect);
    ValuePrinted(v, I8Dialect);
    InLines(value, t, "fault", "<fault>", "</fault>");
    var fault := Tag("fault", "", [Raw(CRLF), value, Raw(CRLF)]);
    InLine(fault, Around("<fault>", t, "</fault>"));
    ResponseRoot(I8Dialect, fault, Around("<fault>", t, "</fault>"), "");
    AroundTwice("", "<fault>", t, "</fault>", "</methodResponse>\r\n");
    assert "<fault>" + "\r\n" == "<fault>\r\n" && "\r\n" + "</fault>" == "\r\n</fault>";
    assert "\r\n" + "</methodResponse>\r\n" == "\r\n</methodResponse>\r\n";
  }
}
