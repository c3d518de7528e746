/** The serializers for calls, responses and faults of xmlrpc-c/src/xmlrpc_serialize.c. */
module MessagePrinter {
  import opened Text
  import opened Utf8Text
  import opened Values
  import opened MemBlocks
  import opened Lines
  import opened XmlText
  import opened XmlReader
  import opened XmlPrinter
  import opened XmlValueParser
  import opened Messages

  function OpenWith(name: string, attribute: string): string { "<" + (name + (attribute + ">")) }

  lemma DocumentParts(name: string, attribute: string, content: seq<Markup>)
    ensures DocumentText(Tag(name, attribute, content))
              == XML_PROLOGUE + (OpenWith(name, attribute) + (Rendered(content) + (Close(name) + CRLF)))
  {
    ContentThen(content, Closing(name, CRLF));
    var inner := Rendered(content);
    hide ContentK;
    assert Closing(name, CRLF) == Close(name) + CRLF;
    assert "<" + (name + (attribute + (">" + (inner + (Close(name) + CRLF))))) == OpenWith(name, attribute) + (inner + (Close(name) + CRLF));
  }

  /** xmlrpc_serialize_params2() */
  method SerializeParams2(params: seq<Value>, dialect: Dialect, out: MemBlock) returns (ok: bool)
    modifies out
    ensures ok <==> AllPrintable(params)
    ensures ok ==> out.contents == old(out.contents) + Rendered([ParamsMarkup(params, dialect), Raw(CRLF)])
  {
    hide Rendered, XmlPrintable, ParamListMarkup, ParamMarkup;
    ghost var start := out.contents;
    var opening := Open("params") + CRLF;
    out.Append(opening);
    ok := true;
    var i := 0;
    NoParamsYet(params[..0], dialect);
    Assoc(start, opening, "");
    while i < |params| && ok
      invariant i <= |params|
      invariant ok ==> AllPrintable(params[..i])
      invariant ok ==> out.contents == start + (opening + Rendered(ParamListMarkup(params[..i], dialect)))
      invariant !ok ==> !AllPrintable(params)
      decreases |params| - i, ok
    {
      ok := SerializeParam(params[i], dialect, out);
      if ok {
        ParamsGrow(params, i, dialect);
        RoundDone(start, opening, ParamListMarkup(params[..i], dialect), [ParamMarkup(params[i], dialect), Raw(CRLF)]);
        i := i + 1;
      } else {
        assert !XmlPrintable(params[i]);
      }
    }
    if ok {
      assert params[..i] == params;
      out.Append(Close("params") + CRLF);
      var ms := ParamListMarkup(params, dialect);
      ContainerRendered(start, "params", ms);
      var t := Tag("params", "", [Raw(CRLF)] + ms);
      RenderedTwo([t], [Raw(CRLF)]);
      RenderedText(CRLF);
      assert [t] + [Raw(CRLF)] == [t, Raw(CRLF)];
      Assoc(start + (opening + Rendered(ms)), Close("params"), CRLF);
      Assoc(start, Rendered([t]), CRLF);
    }
  }

  lemma NoParamsYet(params: seq<Value>, dialect: Dialect)
    requires params == []
    ensures AllPrintable(params) && Rendered(ParamListMarkup(params, dialect)) == ""
  {}

  lemma ParamsGrow(params: seq<Value>, i: nat, dialect: Dialect)
    requires i < |params| && AllPrintable(params[..i]) && XmlPrintable(params[i])
    ensures AllPrintable(params[..i + 1])
    ensures ParamListMarkup(params[..i + 1], dialect)
              == ParamListMarkup(params[..i], dialect) + [ParamMarkup(params[i], dialect), Raw(CRLF)]
  {
    hide ParamMarkup, XmlPrintable;
    assert params[..i + 1] == params[..i] + [params[i]];
    assert params[..i + 1][..i] == params[..i];
  }

  method SerializeParam(v: Value, dialect: Dialect, out: MemBlock) returns (ok: bool)
    modifies out
    ensures ok <==> XmlPrintable(v)
    ensures ok ==> out.contents == old(out.contents) + Rendered([ParamMarkup(v, dialect), Raw(CRLF)])
  {
    hide Rendered, MarkupOf;
    ghost var start := out.contents;
    out.Append(Open("param"));
    ok := SerializeValue2(v, dialect, out);
    if ok {
      out.Append(Close("param") + CRLF);
      var m := MarkupOf(v, dialect);
      RenderedTag("param", [m]);
      RenderedText(CRLF);
      RenderedTwo([ParamMarkup(v, dialect)], [Raw(CRLF)]);
      assert [ParamMarkup(v, dialect)] + [Raw(CRLF)] == [ParamMarkup(v, dialect), Raw(CRLF)];
      ParamParts(start, Open("param"), Rendered([m]), Close("param"), CRLF);
    }
  }

  lemma ParamParts(start: string, a: string, b: string, c: string, d: string)
    ensures ((start + a) + b) + (c + d) == start + ((a + (b + c)) + d)
  {}

  /** A document appended in three parts: up to the root's start tag and a line end, the
      inner markup, and the end. */
  lemma DocumentAppended(start: string, name: string, attribute: string, inner: seq<Markup>)
    ensures ((start + (XML_PROLOGUE + (OpenWith(name, attribute) + CRLF))) + Rendered(inner)) + (Close(name) + CRLF)
              == start + DocumentText(Tag(name, attribute, [Raw(CRLF)] + inner))
  {
    DocumentParts(name, attribute, [Raw(CRLF)] + inner);
    RenderedTwo([Raw(CRLF)], inner);
    RenderedText(CRLF);
    hide Rendered, DocumentText, OpenWith;
    FourParts(start, XML_PROLOGUE, OpenWith(name, attribute), CRLF, Rendered(inner), Close(name) + CRLF);
  }

  lemma FourParts(start: string, a: string, b: string, c: string, d: string, e: string)
    ensures ((start + (a + (b + c))) + d) + e == start + (a + (b + ((c + d) + e)))
  {}

  /** xmlrpc_serialize_call2() */
  method SerializeCall2(name: string, params: seq<Value>, dialect: Dialect, out: MemBlock) returns (ok: bool)
    modifies out
    ensures ok <==> AllPrintable(params)
    ensures ok ==> out.contents == old(out.contents) + CallText(name, params, dialect)
  {
    hide Rendered, XmlEscape, XmlPrintable, ParamListMarkup, ParamsMarkup, DocumentText, XMLNS_APACHE;
    ghost var start := out.contents;
    out.Append(XML_PROLOGUE);
    var xmlns := Xmlns(dialect);
    out.Append(OpenWith("methodCall", xmlns) + CRLF);
    ghost var s1 := out.contents;
    SerializeMethodName(name, out);
    ghost var nameMarkup := [Tag("methodName", "", [Escaped(name)]), Raw(CRLF)];
    ok := SerializeParams2(params, dialect, out);
    if ok {
      out.Append(Close("methodCall") + CRLF);
      var paramsMarkup := [ParamsMarkup(params, dialect), Raw(CRLF)];
      RenderedTwo(nameMarkup, paramsMarkup);
      Assoc(s1, Rendered(nameMarkup), Rendered(paramsMarkup));
      Assoc(start, XML_PROLOGUE, OpenWith("methodCall", xmlns) + CRLF);
      DocumentAppended(start, "methodCall", xmlns, nameMarkup + paramsMarkup);
      assert [Raw(CRLF)] + (nameMarkup + paramsMarkup) == CallContent(name, params, dialect);
    }
  }

  method SerializeMethodName(name: string, out: MemBlock)
    modifies out
    ensures out.contents == old(out.contents) + Rendered([Tag("methodName", "", [Escaped(name)]), Raw(CRLF)])
  {
    hide Rendered, XmlEscape;
    ghost var start := out.contents;
    SerializeStringElement("methodName", name, out);
    out.Append(CRLF);
    var t := Tag("methodName", "", [Escaped(name)]);
    RenderedTwo([t], [Raw(CRLF)]);
    RenderedText(CRLF);
    assert [t] + [Raw(CRLF)] == [t, Raw(CRLF)];
    Assoc(start, Rendered([t]), CRLF);
  }

  /** xmlrpc_serialize_response2() */
  method SerializeResponse2(v: Value, dialect: Dialect, out: MemBlock) returns (ok: bool)
    modifies out
    ensures ok <==> XmlPrintable(v)
    ensures ok ==> out.contents == old(out.contents) + ResponseText(v, dialect)
  {
    hide Rendered, ParamMarkup, DocumentText, XMLNS_APACHE, XmlPrintable;
    ghost var start := out.contents;
    out.Append(XML_PROLOGUE);
    var xmlns := Xmlns(dialect);
    out.Append(OpenWith("methodResponse", xmlns) + CRLF);
    ghost var s1 := out.contents;
    out.Append(Open("params") + CRLF);
    ok := SerializeParam(v, dialect, out);
    if ok {
      out.Append(Close("params") + CRLF);
      out.Append(Close("methodResponse") + CRLF);
      var param := [ParamMarkup(v, dialect), Raw(CRLF)];
      InnerAppended(s1, "params", param);
      Assoc(start, XML_PROLOGUE, OpenWith("methodResponse", xmlns) + CRLF);
      DocumentAppended(start, "methodResponse", xmlns, [Tag("params", "", [Raw(CRLF)] + param), Raw(CRLF)]);
      assert [Raw(CRLF)] + param == [Raw(CRLF), ParamMarkup(v, dialect), Raw(CRLF)];
      assert [Raw(CRLF)] + [Tag("params", "", [Raw(CRLF)] + param), Raw(CRLF)] == ResponseContent(v, dialect);
    }
  }

  lemma InnerAppended(start: string, name: string, ms: seq<Markup>)
    ensures ((start + (Open(name) + CRLF)) + Rendered(ms)) + (Close(name) + CRLF)
              == start + Rendered([Tag(name, "", [Raw(CRLF)] + ms), Raw(CRLF)])
  {
    ContainerRendered(start, name, ms);
    var t := Tag(name, "", [Raw(CRLF)] + ms);
    RenderedTwo([t], [Raw(CRLF)]);
    RenderedText(CRLF);
    assert [t] + [Raw(CRLF)] == [t, Raw(CRLF)];
    hide Rendered;
    Assoc(start, Open(name) + CRLF, Rendered(ms));
    Assoc(start + ((Open(name) + CRLF) + Rendered(ms)), Close(name), CRLF);
    Assoc(start, Rendered([t]), CRLF);
  }

  /** xmlrpc_serialize_fault(): it fails only if the fault struct cannot be built, which
      takes valid UTF-8. */
  method SerializeFault(code: Int32, text: string, out: MemBlock) returns (ok: bool)
    modifies out
    ensures ok <==> ValidUtf8(text)
    ensures XmlPrintable(FaultStruct(code, text))
    ensures ok ==> out.contents == old(out.contents) + FaultText(code, text)
  {
    hide Rendered, DocumentText, Normalise, MarkupOf, XML_PROLOGUE;
    assert XmlPrintable(FaultStruct(code, text)) by { FaultPrintable(code, text); }
    var faultString := StringText(text);
    if faultString.None? { return false; }
    var faultStruct := Struct([Member("faultCode", Int(code)), Member("faultString", Str(faultString.value))]);
    ghost var start := out.contents;
    out.Append(XML_PROLOGUE);
    out.Append(OpenWith("methodResponse", "") + CRLF);
    ghost var s1 := out.contents;
    out.Append(Open("fault") + CRLF);
    ghost var s2 := out.contents;
    ok := SerializeValue2(faultStruct, I8Dialect, out);
    out.Append(CRLF);
    out.Append(Close("fault") + CRLF);
    out.Append(Close("methodResponse") + CRLF);
    ghost var m := MarkupOf(faultStruct, I8Dialect);
    RenderedTwo([m], [Raw(CRLF)]);
    RenderedText(CRLF);
    Assoc(s2, Rendered([m]), CRLF);
    assert [m] + [Raw(CRLF)] == [m, Raw(CRLF)];
    InnerAppended(s1, "fault", [m, Raw(CRLF)]);
    Assoc(start, XML_PROLOGUE, OpenWith("methodResponse", "") + CRLF);
    DocumentAppended(start, "methodResponse", "", [Tag("fault", "", [Raw(CRLF)] + [m, Raw(CRLF)]), Raw(CRLF)]);
    assert [Raw(CRLF)] + [m, Raw(CRLF)] == [Raw(CRLF), m, Raw(CRLF)];
    assert [Raw(CRLF)] + [Tag("fault", "", [Raw(CRLF), m, Raw(CRLF)]), Raw(CRLF)] == FaultContent(code, text);
  }

  lemma FaultPrintable(code: Int32, text: string)
    ensures XmlPrintable(FaultStruct(code, text))
  {
    hide Normalise;
    var v := FaultStruct(code, text);
    assert XmlPrintable(v.members[0].value) && XmlPrintable(v.members[1].value);
    assert MembersPrintable(v.members);
  }
}
