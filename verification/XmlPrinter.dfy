/** The XML serializer for values of xmlrpc-c/src/xmlrpc_serialize.c, in two dialects. */
module XmlPrinter {
  import opened Text
  import opened Base64Text
  import opened Values
  import opened JsonStrings
  import opened Datetimes
  import opened Doubles
  import opened MemBlocks
  import opened XmlText
  import opened XmlReader

  datatype Dialect = I8Dialect | ApacheDialect

  const CRLF := "\r\n"

  /** What the serializer can print: no C pointer or dead value, no double that fails
      the assertion of the double printer, and no datetime that fails the assertion on
      its microseconds. */
  ghost predicate XmlPrintable(v: Value)
    decreases v, 0
  {
    match v
    case Array(items) => AllPrintable(items)
    case Struct(members) => MembersPrintable(members)
    case Double(d) => Printable(d)
    case DateTime(dt) => dt.u <= 999999
    case CPtr => false
    case Dead => false
    case _ => true
  }

  ghost predicate AllPrintable(items: seq<Value>)
    decreases items, 0
  {
    forall x :: x in items ==> XmlPrintable(x)
  }

  ghost predicate MembersPrintable(members: seq<Member>)
    decreases members, 0
  {
    forall m :: m in members ==> XmlPrintable(m.value)
  }

  function Simple(name: string, text: string): seq<Markup> { [Tag(name, "", [Raw(text)])] }

  /** The markup of the content of a value element. */
  function ContentOf(v: Value, dialect: Dialect): (ms: seq<Markup>)
    requires XmlPrintable(v)
    ensures |ms| == 1
    decreases v, 0
  {
    match v
    case Int(i) => Simple("i4", Signed(i))
    case I8(i) => Simple(if dialect == ApacheDialect then "ex:i8" else "i8", Signed(i))
    case Bool(b) => Simple("boolean", if b then "1" else "0")
    case Double(d) => Simple("double", FloatText(d))
    case DateTime(dt) => Simple("dateTime.iso8601", DatetimeText(dt))
    case Str(s) => [Tag("string", "", [Escaped(s)])]
    case Base64(bytes) => [Tag("base64", "", [Raw(CRLF), Raw(Encode64(bytes))])]
    case Array(items) => [Tag("array", "", [Tag("data", "", [Raw(CRLF)] + ItemsMarkup(items, dialect))])]
    case Struct(members) => [Tag("struct", "", [Raw(CRLF)] + MembersMarkup(members, dialect))]
    case Nil => [Empty(if dialect == ApacheDialect then "ex:nil" else "nil")]
  }

  function MarkupOf(v: Value, dialect: Dialect): Markup
    requires XmlPrintable(v)
    decreases v, 1
  {
    Tag("value", "", ContentOf(v, dialect))
  }

  function ItemsMarkup(items: seq<Value>, dialect: Dialect): seq<Markup>
    requires AllPrintable(items)
    decreases items, 0
  {
    if items == [] then []
    else
      var n := |items| - 1;
      ItemsMarkup(items[..n], dialect) + [MarkupOf(items[n], dialect), Raw(CRLF)]
  }

  function MemberMarkup(m: Member, dialect: Dialect): Markup
    requires XmlPrintable(m.value)
    decreases m, 0
  {
    Tag("member", "", [Tag("name", "", [Escaped(m.key)]), Raw(CRLF), MarkupOf(m.value, dialect)])
  }

  function MembersMarkup(members: seq<Member>, dialect: Dialect): seq<Markup>
    requires MembersPrintable(members)
    decreases members, 0
  {
    if members == [] then []
    else
      var n := |members| - 1;
      MembersMarkup(members[..n], dialect) + [MemberMarkup(members[n], dialect), Raw(CRLF)]
  }

  // ---------------------------------------------------------------------
  // Markup as text, piece by piece

  lemma {:induction false} RenderThen(m: Markup, k: string)
    ensures RenderK(m, k) == RenderK(m, "") + k
    decreases m, 0
  {
    match m
    case Escaped(text) => Assoc(XmlEscape(text), "", k);
    case Raw(text) => Assoc(text, "", k);
    case Empty(name) => assert "<" + (name + ("/>" + k)) == ("<" + (name + ("/>" + ""))) + k;
    case Tag(name, attribute, content) =>
      ContentThen(content, Closing(name, k));
      ContentThen(content, Closing(name, ""));
      var inner := ContentK(content, "");
      hide ContentK;
      assert Closing(name, k) == Closing(name, "") + k;
      Assoc(inner, Closing(name, ""), k);
      TagThen(name, attribute, inner + Closing(name, ""), k);
  }

  lemma TagThen(name: string, attribute: string, inner: string, k: string)
    ensures "<" + (name + (attribute + (">" + (inner + k)))) == ("<" + (name + (attribute + (">" + inner)))) + k
  {}

  lemma {:induction false} ContentThen(ms: seq<Markup>, k: string)
    ensures ContentK(ms, k) == ContentK(ms, "") + k
    decreases ms, 0
  {
    hide RenderK;
    if ms == [] {
      Assoc("", "", k);
    } else {
      var rest := ContentK(ms[1..], "");
      ContentThen(ms[1..], k);
      RenderThen(ms[0], rest + k);
      RenderThen(ms[0], rest);
      Assoc(RenderK(ms[0], ""), rest, k);
    }
  }

  lemma {:induction false} ContentSplit(a: seq<Markup>, b: seq<Markup>, k: string)
    ensures ContentK(a + b, k) == ContentK(a, ContentK(b, k))
  {
    hide RenderK;
    if a == [] {
      assert a + b == b;
    } else {
      ContentSplit(a[1..], b, k);
      assert (a + b)[1..] == a[1..] + b;
    }
  }

  function Open(name: string): string { "<" + (name + ">") }

  function Close(name: string): string { "</" + (name + ">") }

  /** The text of a list of markup. */
  function Rendered(ms: seq<Markup>): string { ContentK(ms, "") }

  lemma RenderedTag(name: string, content: seq<Markup>)
    ensures Rendered([Tag(name, "", content)]) == Open(name) + (Rendered(content) + Close(name))
  {
    RenderedOne(Tag(name, "", content));
    ContentThen(content, Closing(name, ""));
    var inner := Rendered(content);
    hide ContentK;
    assert Closing(name, "") == Close(name) by { assert name + (">" + "") == name + ">"; }
    assert "<" + (name + ("" + (">" + (inner + Close(name))))) == Open(name) + (inner + Close(name));
  }

  lemma RenderedTwo(a: seq<Markup>, b: seq<Markup>)
    ensures Rendered(a + b) == Rendered(a) + Rendered(b)
  {
    ContentSplit(a, b, "");
    ContentThen(a, Rendered(b));
  }

  lemma RenderedOne(m: Markup)
    ensures Rendered([m]) == RenderK(m, "")
  {
    hide RenderK;
    assert [m][1..] == [];
    assert ContentK([], "") == "";
  }

  lemma RenderedText(text: string)
    ensures Rendered([Raw(text)]) == text && Rendered([Escaped(text)]) == XmlEscape(text) && Rendered([]) == ""
  {
    hide XmlEscape;
    RenderedOne(Raw(text));
    RenderedOne(Escaped(text));
    Assoc(text, "", "");
    Assoc(XmlEscape(text), "", "");
  }

  lemma RenderedEmpty(name: string)
    ensures Rendered([Empty(name)]) == "<" + (name + "/>")
  {
    RenderedOne(Empty(name));
    assert "/>" + "" == "/>";
  }

  /** A text put together by three appends. */
  lemma Appended(start: string, a: string, b: string, c: string)
    ensures ((start + a) + b) + c == start + (a + (b + c))
  {}

  // ---------------------------------------------------------------------
  // The serializer, which appends to a memory block

  /** serializeUtf8MemBlock() */
  method SerializeUtf8(s: string, out: MemBlock)
    modifies out
    ensures out.contents == old(out.contents) + XmlEscape(s)
  {
    var escaped := EscapeForXml(s);
    out.Append(escaped[..]);
  }

  /** formatOut() of a simple element. */
  method FormatElement(name: string, text: string, out: MemBlock)
    modifies out
    ensures out.contents == old(out.contents) + Rendered(Simple(name, text))
  {
    hide Rendered;
    RenderedTag(name, [Raw(text)]);
    RenderedText(text);
    out.Append(Open(name) + (text + Close(name)));
  }

  /** serializeDatetime() */
  method SerializeDatetime(dt: Datetime, out: MemBlock) returns (ok: bool)
    modifies out
    ensures ok <==> dt.u <= 999999
    ensures ok ==> out.contents == old(out.contents) + Rendered(Simple("dateTime.iso8601", DatetimeText(dt)))
  {
    hide Rendered, SecondsText, PadTo;
    var name := "dateTime.iso8601";
    ghost var start := out.contents;
    out.Append(Open(name));
    var dtString := SecondsText(dt);
    if dt.u != 0 {
      if !(dt.u < 1000000) { return false; }
      dtString := dtString + ("." + PadTo(dt.u, 6));
    }
    Assoc(SecondsText(dt), "", "");
    out.Append(dtString);
    out.Append(Close(name));
    RenderedTag(name, [Raw(dtString)]);
    RenderedText(dtString);
    Appended(start, Open(name), dtString, Close(name));
    ok := true;
  }

  method SerializeStringElement(name: string, s: string, out: MemBlock)
    modifies out
    ensures out.contents == old(out.contents) + Rendered([Tag(name, "", [Escaped(s)])])
  {
    hide Rendered, XmlEscape;
    ghost var start := out.contents;
    out.Append(Open(name));
    SerializeUtf8(s, out);
    out.Append(Close(name));
    RenderedTag(name, [Escaped(s)]);
    RenderedText(s);
    Appended(start, Open(name), XmlEscape(s), Close(name));
  }

  method SerializeBase64(bytes: string, out: MemBlock)
    modifies out
    ensures out.contents == old(out.contents) + Rendered([Tag("base64", "", [Raw(CRLF), Raw(Encode64(bytes))])])
  {
    hide Rendered;
    ghost var start := out.contents;
    var encoded := Base64Encode(bytes, true);
    out.Append(Open("base64") + CRLF);
    out.Append(encoded);
    out.Append(Close("base64"));
    RenderedTag("base64", [Raw(CRLF), Raw(encoded)]);
    RenderedText(CRLF);
    RenderedText(encoded);
    RenderedTwo([Raw(CRLF)], [Raw(encoded)]);
    assert [Raw(CRLF)] + [Raw(encoded)] == [Raw(CRLF), Raw(encoded)];
    Appended(start, Open("base64") + CRLF, encoded, Close("base64"));
    Assoc(Open("base64"), CRLF, encoded + Close("base64"));
    Assoc(CRLF, encoded, Close("base64"));
  }

  /** serializeStructMember() */
  method SerializeStructMember(m: Member, dialect: Dialect, out: MemBlock) returns (ok: bool)
    modifies out
    ensures ok <==> XmlPrintable(m.value)
    ensures ok ==> out.contents == old(out.contents) + Rendered([MemberMarkup(m, dialect), Raw(CRLF)])
    decreases m, 0
  {
    hide Rendered, XmlEscape, XmlPrintable;
    ghost var start := out.contents;
    out.Append(Open("member") + Open("name"));
    SerializeUtf8(m.key, out);
    out.Append(Close("name") + CRLF);
    ok := SerializeValue2(m.value, dialect, out);
    if ok {
      out.Append(Close("member") + CRLF);
      MemberRendered(m.key, MarkupOf(m.value, dialect));
      var value := Rendered([MarkupOf(m.value, dialect)]);
      MemberAppended(start, Open("member"), Open("name"), XmlEscape(m.key), Close("name"), CRLF, value, Close("member"));
    }
  }

  lemma MemberAppended(start: string, a: string, b: string, key: string, c: string, nl: string, value: string, d: string)
    ensures ((((start + (a + b)) + key) + (c + nl)) + value) + (d + nl) == start + ((a + (((b + (key + c)) + (nl + value)) + d)) + nl)
  {
    Assoc(b, key, c);
    assert (start + (a + b)) + key == start + (a + (b + key));
    assert (start + (a + (b + key))) + (c + nl) == start + (a + ((b + (key + c)) + nl));
    var w := b + (key + c);
    assert (start + (a + (w + nl))) + value == start + (a + (w + (nl + value)));
  }

  lemma MemberRendered(key: string, value: Markup)
    ensures Rendered([Tag("member", "", [Tag("name", "", [Escaped(key)]), Raw(CRLF), value]), Raw(CRLF)])
              == (Open("member") + (((Open("name") + (XmlEscape(key) + Close("name"))) + (CRLF + Rendered([value]))) + Close("member"))) + CRLF
  {
    hide Rendered, XmlEscape;
    var name := Tag("name", "", [Escaped(key)]);
    RenderedTag("name", [Escaped(key)]);
    RenderedText(key);
    RenderedText(CRLF);
    RenderedTwo([Raw(CRLF)], [value]);
    RenderedTwo([name], [Raw(CRLF)] + [value]);
    assert [name] + ([Raw(CRLF)] + [value]) == [name, Raw(CRLF), value];
    RenderedTag("member", [name, Raw(CRLF), value]);
    RenderedTwo([Tag("member", "", [name, Raw(CRLF), value])], [Raw(CRLF)]);
    assert [Tag("member", "", [name, Raw(CRLF), value])] + [Raw(CRLF)] == [Tag("member", "", [name, Raw(CRLF), value]), Raw(CRLF)];
  }

  /** One more round of a loop: what was printed for the first `i` and then `piece`. */
  lemma RoundDone(start: string, opening: string, before: seq<Markup>, piece: seq<Markup>)
    ensures (start + (opening + Rendered(before))) + Rendered(piece) == start + (opening + Rendered(before + piece))
  {
    RenderedTwo(before, piece);
    hide Rendered;
    assert opening + (Rendered(before) + Rendered(piece)) == (opening + Rendered(before)) + Rendered(piece);
    Assoc(start, opening + Rendered(before), Rendered(piece));
  }

  /** serializeStruct() */
  method SerializeStruct(members: seq<Member>, dialect: Dialect, out: MemBlock) returns (ok: bool)
    modifies out
    ensures ok <==> MembersPrintable(members)
    ensures ok ==> out.contents == old(out.contents) + Rendered([Tag("struct", "", [Raw(CRLF)] + MembersMarkup(members, dialect))])
    decreases members, 0
  {
    hide Rendered, XmlPrintable, MembersMarkup, MemberMarkup;
    ghost var start := out.contents;
    var opening := Open("struct") + CRLF;
    out.Append(opening);
    ok := true;
    var i := 0;
    NoMembers(members[..0], dialect);
    Assoc(start, opening, "");
    while i < |members| && ok
      invariant i <= |members|
      invariant ok ==> MembersPrintable(members[..i])
      invariant ok ==> out.contents == start + (opening + Rendered(MembersMarkup(members[..i], dialect)))
      invariant !ok ==> !MembersPrintable(members)
      decreases |members| - i, ok
    {
      ok := SerializeStructMember(members[i], dialect, out);
      if ok {
        MembersGrow(members, i, dialect);
        RoundDone(start, opening, MembersMarkup(members[..i], dialect), [MemberMarkup(members[i], dialect), Raw(CRLF)]);
        i := i + 1;
      } else {
        assert !XmlPrintable(members[i].value);
      }
    }
    if ok {
      assert members[..i] == members;
      out.Append(Close("struct"));
      ContainerRendered(start, "struct", MembersMarkup(members, dialect));
    }
  }

  lemma ContainerRendered(start: string, name: string, ms: seq<Markup>)
    ensures (start + ((Open(name) + CRLF) + Rendered(ms))) + Close(name) == start + Rendered([Tag(name, "", [Raw(CRLF)] + ms)])
  {
    RenderedTag(name, [Raw(CRLF)] + ms);
    RenderedTwo([Raw(CRLF)], ms);
    RenderedText(CRLF);
    hide Rendered;
    var inner := Rendered(ms);
    assert (Open(name) + CRLF) + inner == Open(name) + (CRLF + inner);
    Appended(start, Open(name), CRLF + inner, Close(name));
    Assoc(start, Open(name), CRLF + inner);
  }

  lemma NoMembers(members: seq<Member>, dialect: Dialect)
    requires members == []
    ensures MembersPrintable(members) && Rendered(MembersMarkup(members, dialect)) == ""
  {}

  lemma MembersGrow(members: seq<Member>, i: nat, dialect: Dialect)
    requires i < |members| && MembersPrintable(members[..i]) && XmlPrintable(members[i].value)
    ensures MembersPrintable(members[..i + 1])
    ensures MembersMarkup(members[..i + 1], dialect)
              == MembersMarkup(members[..i], dialect) + [MemberMarkup(members[i], dialect), Raw(CRLF)]
  {
    hide MemberMarkup, XmlPrintable;
    assert members[..i + 1] == members[..i] + [members[i]];
    assert members[..i + 1][..i] == members[..i];
  }

  lemma NoItems(items: seq<Value>, dialect: Dialect)
    requires items == []
    ensures AllPrintable(items) && Rendered(ItemsMarkup(items, dialect)) == ""
  {}

  lemma ItemsGrow(items: seq<Value>, i: nat, dialect: Dialect)
    requires i < |items| && AllPrintable(items[..i]) && XmlPrintable(items[i])
    ensures AllPrintable(items[..i + 1])
    ensures ItemsMarkup(items[..i + 1], dialect)
              == ItemsMarkup(items[..i], dialect) + [MarkupOf(items[i], dialect), Raw(CRLF)]
  {
    hide MarkupOf, XmlPrintable;
    assert items[..i + 1] == items[..i] + [items[i]];
    assert items[..i + 1][..i] == items[..i];
  }

  /** serializeArray() */
  method SerializeArray(items: seq<Value>, dialect: Dialect, out: MemBlock) returns (ok: bool)
    modifies out
    ensures ok <==> AllPrintable(items)
    ensures ok ==>
              out.contents == old(out.contents)
                + Rendered([Tag("array", "", [Tag("data", "", [Raw(CRLF)] + ItemsMarkup(items, dialect))])])
    decreases items, 0
  {
    hide Rendered, XmlPrintable, ItemsMarkup, MarkupOf;
    ghost var start := out.contents;
    var opening := Open("array") + (Open("data") + CRLF);
    out.Append(opening);
    ok := true;
    var i := 0;
    NoItems(items[..0], dialect);
    Assoc(start, opening, "");
    while i < |items| && ok
      invariant i <= |items|
      invariant ok ==> AllPrintable(items[..i])
      invariant ok ==> out.contents == start + (opening + Rendered(ItemsMarkup(items[..i], dialect)))
      invariant !ok ==> !AllPrintable(items)
      decreases |items| - i, ok
    {
      ok := SerializeValue2(items[i], dialect, out);
      if ok {
        ghost var m := MarkupOf(items[i], dialect);
        ghost var before := start + (opening + Rendered(ItemsMarkup(items[..i], dialect)));
        out.Append(CRLF);
        RenderedText(CRLF);
        RenderedTwo([m], [Raw(CRLF)]);
        assert [m] + [Raw(CRLF)] == [m, Raw(CRLF)];
        Assoc(before, Rendered([m]), CRLF);
        ItemsGrow(items, i, dialect);
        RoundDone(start, opening, ItemsMarkup(items[..i], dialect), [m, Raw(CRLF)]);
        i := i + 1;
      } else {
        assert !XmlPrintable(items[i]);
      }
    }
    if ok {
      assert items[..i] == items;
      out.Append(Close("data") + Close("array"));
      ArrayRendered(start, ItemsMarkup(items, dialect));
    }
  }

  lemma ArrayRendered(start: string, ms: seq<Markup>)
    ensures (start + ((Open("array") + (Open("data") + CRLF)) + Rendered(ms))) + (Close("data") + Close("array"))
              == start + Rendered([Tag("array", "", [Tag("data", "", [Raw(CRLF)] + ms)])])
  {
    var data := Tag("data", "", [Raw(CRLF)] + ms);
    ContainerRendered("", "data", ms);
    RenderedTag("array", [data]);
    hide Rendered, Open, Close;
    var inner := Rendered(ms);
    Assoc("", "", Rendered([data]));
    Assoc("", "", (Open("data") + CRLF) + inner);
    var d := (Open("data") + CRLF) + inner;
    assert (Open("array") + (Open("data") + CRLF)) + inner == Open("array") + d;
    assert (start + (Open("array") + d)) + (Close("data") + Close("array")) == start + (Open("array") + ((d + Close("data")) + Close("array")));
  }

  /** formatValueContent() */
  method FormatValueContent(v: Value, dialect: Dialect, out: MemBlock) returns (ok: bool)
    modifies out
    ensures ok <==> XmlPrintable(v)
    ensures ok ==> out.contents == old(out.contents) + Rendered(ContentOf(v, dialect))
    decreases v, 0
  {
    hide Rendered, Simple, Signed, FloatText, Printable, DatetimeText, ItemsMarkup, MembersMarkup;
    ok := true;
    match v {
      case Int(i) => FormatElement("i4", Signed(i), out);
      case I8(i) => FormatElement(if dialect == ApacheDialect then "ex:i8" else "i8", Signed(i), out);
      case Bool(b) => FormatElement("boolean", if b then "1" else "0", out);
      case Double(d) =>
        var serialized := FormatFloat(d);
        ok := serialized.Some?;
        if ok { FormatElement("double", serialized.value, out); }
      case DateTime(dt) => ok := SerializeDatetime(dt, out);
      case Str(s) => SerializeStringElement("string", s, out);
      case Base64(bytes) => SerializeBase64(bytes, out);
      case Array(items) => ok := SerializeArray(items, dialect, out);
      case Struct(members) => ok := SerializeStruct(members, dialect, out);
      case CPtr => ok := false;
      case Nil =>
        var name := if dialect == ApacheDialect then "ex:nil" else "nil";
        RenderedEmpty(name);
        out.Append("<" + (name + "/>"));
      case Dead => ok := false;
    }
  }

  /** xmlrpc_serialize_value2(): the text of `v` is appended, or the value cannot be
      printed. */
  method SerializeValue2(v: Value, dialect: Dialect, out: MemBlock) returns (ok: bool)
    modifies out
    ensures ok <==> XmlPrintable(v)
    ensures ok ==> out.contents == old(out.contents) + Rendered([MarkupOf(v, dialect)])
    decreases v, 1
  {
    hide Rendered, ContentOf;
    ghost var start := out.contents;
    out.Append(Open("value"));
    ok := FormatValueContent(v, dialect, out);
    if ok {
      out.Append(Close("value"));
      RenderedTag("value", ContentOf(v, dialect));
      Appended(start, Open("value"), Rendered(ContentOf(v, dialect)), Close("value"));
    }
  }
}
