/** The round trip of messages: a printed call, response or fault reads back as itself. */
module MessageRoundTrip {
  import opened Text
  import opened Utf8Text
  import opened Values
  import opened Lines
  import opened XmlReader
  import opened XmlReadBack
  import opened XmlPrinter
  import opened XmlGrammar
  import opened XmlRoundTrip
  import opened Messages

  lemma MessageNames()
    ensures IsName("methodCall") && IsName("methodName") && IsName("methodResponse")
    ensures IsName("params") && IsName("param") && IsName("fault")
  {}

  ghost function ParamElems(params: seq<Value>, dialect: Dialect): seq<Elem>
    requires AllPrintable(params)
  {
    KidsOf(ParamListMarkup(params, dialect))
  }

  ghost function ParamElem(v: Value, dialect: Dialect): Elem
    requires XmlPrintable(v)
  {
    Elem("param", "", [ValueElem(v, dialect)])
  }

  lemma ParamKids(v: Value, dialect: Dialect)
    requires XmlPrintable(v)
    ensures var t := ParamMarkup(v, dialect);
      t.Tag? && Elem(t.name, TextOf(t.content), KidsOf(t.content)) == ParamElem(v, dialect)
  {
    hide ContentOf, XmlPrintable;
    var m := MarkupOf(v, dialect);
    NoLooseText(v, dialect);
    assert [m][1..] == [];
    assert TextOf([m]) == "" && KidsOf([m]) == [ValueElem(v, dialect)];
  }

  lemma ParamElemsStep(params: seq<Value>, dialect: Dialect)
    requires AllPrintable(params) && params != []
    ensures var n := |params| - 1;
      XmlPrintable(params[n])
      && ParamElems(params, dialect) == ParamElems(params[..n], dialect) + [ParamElem(params[n], dialect)]
  {
    hide ParamMarkup, XmlPrintable, KidsOf, TextOf;
    var n := |params| - 1;
    assert params[n] in params;
    ParamKids(params[n], dialect);
    KidsOfPiece(ParamListMarkup(params[..n], dialect), ParamMarkup(params[n], dialect));
  }

  lemma {:induction false} ParamsReadBack(lib: Lib, params: seq<Value>, dialect: Dialect, maxNest: nat)
    requires AllReadable(params) && AllPrintable(params)
    ensures var s := ParamsFold(lib, maxNest, ParamElems(params, dialect));
      && s.fault == ItemsFault(params, maxNest)
      && (s.fault == None ==> s.done == NormalItems(params))
    decreases |params|
  {
    hide XmlReadable, XmlPrintable, ContentOf, KidsOf, ElemValue, XmlNormal, ReadFault;
    if params != [] {
      var n := |params| - 1;
      assert params[n] in params;
      ParamsReadBack(lib, params[..n], dialect, maxNest);
      ParamElemsStep(params, dialect);
      ValueReadsBack(lib, params[n], dialect, maxNest);
      var front := ParamElems(params[..n], dialect);
      assert (front + [ParamElem(params[n], dialect)])[..|front|] == front;
    } else {
      NoParams(dialect);
    }
  }

  lemma NoParams(dialect: Dialect)
    ensures ParamElems([], dialect) == []
  {}

  lemma {:induction false} ParamsWellFormed(params: seq<Value>, dialect: Dialect)
    requires AllReadable(params) && AllPrintable(params)
    ensures AllWellFormed(ParamListMarkup(params, dialect))
    decreases |params|
  {
    hide IsName, IsRaw, IsXmlText, ContentOf, XmlReadable, XmlPrintable;
    if params != [] {
      var n := |params| - 1;
      assert params[n] in params;
      ParamsWellFormed(params[..n], dialect);
      ParamWellFormed(params[n], dialect);
      CrlfIsRaw();
      assert WellFormed(Raw(CRLF));
    }
  }

  lemma ParamWellFormed(v: Value, dialect: Dialect)
    requires XmlReadable(v) && XmlPrintable(v)
    ensures WellFormed(MarkupOf(v, dialect)) && WellFormed(ParamMarkup(v, dialect))
  {
    hide IsName, IsRaw, IsXmlText, ContentOf, XmlReadable, XmlPrintable;
    ContentWellFormed(v, dialect);
    NamesAreNames();
    MessageNames();
    var m := MarkupOf(v, dialect);
    assert WellFormed(m);
    assert AllWellFormed([m]);
  }

  lemma {:induction false} AllReadablePrints(items: seq<Value>)
    requires AllReadable(items)
    ensures AllPrintable(items)
  {
    hide XmlReadable, XmlPrintable;
    forall x | x in items ensures XmlPrintable(x) { ReadablePrints(x); }
  }

  lemma CallKids(name: string, params: seq<Value>, dialect: Dialect)
    requires AllPrintable(params)
    ensures exists text ::
      KidsOf(CallContent(name, params, dialect))
        == [Elem("methodName", name, []), Elem("params", text, ParamElems(params, dialect))]
  {
    hide XmlPrintable, ParamListMarkup, Normalise;
    var nameTag, paramsTag := Tag("methodName", "", [Escaped(name)]), ParamsMarkup(params, dialect);
    var content := CallContent(name, params, dialect);
    KidsOfPiece([nameTag, Raw(CRLF)], paramsTag);
    KidsOfPiece([], nameTag);
    KidsOfPiece(ParamListMarkup(params, dialect), nameTag);
    assert [] + [nameTag, Raw(CRLF)] == [nameTag, Raw(CRLF)];
    var body := [nameTag, Raw(CRLF)] + [paramsTag, Raw(CRLF)];
    KidsSplit([Raw(CRLF)], body);
    assert content == [Raw(CRLF)] + body;
    assert [Raw(CRLF)][1..] == [] && KidsOf([Raw(CRLF)]) == [];
    assert [Escaped(name)][1..] == [] && name + "" == name;
    assert KidsOf([Escaped(name)]) == [] && TextOf([Escaped(name)]) == name;
    assert KidsOf(content) == [Elem("methodName", name, []), Elem("params", TextOf(paramsTag.content), ParamElems(params, dialect))];
  }

  lemma CallWellFormed(name: string, params: seq<Value>, dialect: Dialect)
    requires IsXmlText(name) && AllReadable(params) && AllPrintable(params)
    ensures WellFormed(Tag("methodCall", Xmlns(dialect), CallContent(name, params, dialect)))
  {
    hide IsName, IsRaw, IsXmlText, XmlReadable, XmlPrintable, ParamListMarkup, Attribute;
    MessageNames();
    CrlfIsRaw();
    ParamsWellFormed(params, dialect);
    ContainerWellFormed("params", ParamListMarkup(params, dialect));
    assert WellFormed(Escaped(name));
    TagWellFormed("methodName", [Escaped(name)]);
    var nameTag := Tag("methodName", "", [Escaped(name)]);
    assert nameTag in [nameTag] && WellFormed(nameTag);
    assert WellFormed(Raw(CRLF));
    assert AllWellFormed(CallContent(name, params, dialect));
  }

  /** A printed call that is not too long reads back, for both dialects, as the same
      method name and parameters if no parameter is too deep and the name and all texts
      are valid; otherwise the first of these faults refuses it. */
  lemma CallRoundTrip(lib: Lib, limits: Limits, name: string, params: seq<Value>, dialect: Dialect)
    requires IsXmlText(name) && AllReadable(params)
    ensures AllPrintable(params)
    ensures var r := ParseCall(lib, limits, CallText(name, params, dialect));
      if |CallText(name, params, dialect)| > limits.size then r == Fault(LimitExceeded)
      else
        && r == ReadResult(Earlier(TextFault(name), ItemsFault(params, limits.nesting)), Call(name, NormalItems(params)))
        && (r.Ok? <==> ItemsDepth(params) <= limits.nesting && ValidUtf8(name) && AllTextsValid(params))
  {
    hide XmlReadable, KidsOf, TextOf, ElemValue, XmlNormal, DocumentText, ReadXml, IsName, CallContent, XmlPrintable,
      ParamElems, ItemsDepth, NormalItems, ParamsFold, ItemsFault, ValidUtf8, AllTextsValid;
    AllReadablePrints(params);
    CallWellFormed(name, params, dialect);
    DocumentReadsBack("methodCall", Xmlns(dialect), CallContent(name, params, dialect));
    CallKids(name, params, dialect);
    var text :| KidsOf(CallContent(name, params, dialect))
        == [Elem("methodName", name, []), Elem("params", text, ParamElems(params, dialect))];
    ParamsReadBack(lib, params, dialect, limits.nesting);
    ItemsFaultSplit(params, limits.nesting);
    CallReads(lib, limits.nesting, TextOf(CallContent(name, params, dialect)), name, Elem("params", text, ParamElems(params, dialect)));
  }

  lemma CallReads(lib: Lib, maxNest: nat, text: string, name: string, params: Elem)
    requires params.name == "params"
    ensures CallOf(lib, maxNest, Elem("methodCall", text, [Elem("methodName", name, []), params]))
              == var p := ParamValues(lib, maxNest, params);
                 if !ValidUtf8(name) then Fault(InvalidUtf8) else if p.Fault? then Fault(p.code) else Ok(Call(name, p.value))
  {
    hide ParamValues, ValidUtf8;
    var es := [Elem("methodName", name, []), params];
    assert es[1..] == [params];
    assert FirstNamed(es, "methodName") == Some(es[0]);
    assert FirstNamed([params], "params") == Some(params);
    assert FirstNamed(es, "params") == Some(params);
  }

  // ---------------------------------------------------------------------
  // Responses

  lemma OuterKids(inner: Markup)
    requires inner.Tag?
    ensures KidsOf([Raw(CRLF), inner, Raw(CRLF)]) == [Elem(inner.name, TextOf(inner.content), KidsOf(inner.content))]
  {
    KidsOfPiece([], inner);
    assert [] + [inner, Raw(CRLF)] == [inner, Raw(CRLF)];
    assert [Raw(CRLF)] + [inner, Raw(CRLF)] == [Raw(CRLF), inner, Raw(CRLF)];
    KidsOfPiece([inner, Raw(CRLF)], inner);
    assert KidsOf([]) == [];
  }

  lemma OuterWellFormed(name: string, attribute: string, inner: Markup)
    requires IsName(name) && WellFormed(inner) && (attribute == "" || attribute == XMLNS_APACHE)
    ensures WellFormed(Tag(name, attribute, [Raw(CRLF), inner, Raw(CRLF)]))
  {
    hide IsName, IsRaw;
    CrlfIsRaw();
    assert WellFormed(Raw(CRLF));
    assert AllWellFormed([Raw(CRLF), inner, Raw(CRLF)]);
  }

  /** A printed response reads back as a result, and as no fault of the server. */
  lemma ResponseRoundTrip(lib: Lib, limits: Limits, v: Value, dialect: Dialect)
    requires XmlReadable(v)
    ensures XmlPrintable(v)
    ensures var r := ParseResponse(lib, limits, ResponseText(v, dialect));
      if |ResponseText(v, dialect)| > limits.size then r == Fault(LimitExceeded)
      else
        && r == ReadResult(ReadFault(v, limits.nesting), Success(XmlNormal(v)))
        && (r.Ok? <==> Depth(v) <= limits.nesting && TextsValid(v))
  {
    hide XmlReadable, KidsOf, TextOf, ElemValue, XmlNormal, DocumentText, ReadXml, IsName, XmlPrintable, Depth,
      ParamMarkup, Attribute, IsRaw, ReadFault, TextsValid;
    ReadFaultSplit(v, limits.nesting);
    ReadablePrints(v);
    MessageNames();
    ParamWellFormed(v, dialect);
    ParamKids(v, dialect);
    var param := ParamMarkup(v, dialect);
    var inner := Tag("params", "", [Raw(CRLF), param, Raw(CRLF)]);
    OuterWellFormed("params", "", param);
    OuterWellFormed("methodResponse", Xmlns(dialect), inner);
    OuterKids(param);
    OuterKids(inner);
    DocumentReadsBack("methodResponse", Xmlns(dialect), ResponseContent(v, dialect));
    ValueReadsBack(lib, v, dialect, limits.nesting);
    var e := ParamElem(v, dialect);
    assert [e][..0] == [];
    assert ParamsFold(lib, limits.nesting, []) == ParamState([], None);
    OneParam(lib, limits.nesting, e);
  }

  lemma OneParam(lib: Lib, maxNest: nat, e: Elem)
    requires e.name == "param" && |e.children| == 1 && e.children[0].name == "value"
    ensures var r := ElemValue(lib, maxNest, e.children[0]);
      ParamsFold(lib, maxNest, [e]) == if r.Fault? then ParamState([], Some(r.code)) else ParamState([r.value], None)
  {
    hide ElemValue;
    assert [e][..0] == [];
    assert ParamsFold(lib, maxNest, []) == ParamState([], None);
  }

  lemma {:induction false} AsciiIsXmlText(s: string)
    requires forall c :: c in s ==> ' ' <= c <= '~'
    ensures IsXmlText(s)
    decreases |s|
  {
    if s != "" {
      HeadAndTail(s);
      AsciiIsXmlText(s[1..]);
      assert CharLen(s) == 1;
    }
  }

  /** Normalised text is legal if the text is. */
  lemma {:induction false} NormaliseLegal(s: string)
    requires IsXmlText(s)
    ensures IsXmlText(Normalise(s))
    decreases |s|
  {
    hide CharLen;
    if s != "" {
      var n := CharLen(s);
      if s[0] == CR {
        LegalStep(s);
        var rest := AfterCr(s, 0);
        assert s[1..] == s[n..];
        if |s| > 1 && s[1] == LF { LegalStep(s[1..]); assert s[1..][1..] == s[2..]; }
        NormaliseLegal(rest);
        CrHead(s);
        AsciiThen(LF, Normalise(rest));
      } else {
        NormaliseLegal(s[n..]);
        PlainChar(s);
        CharThen(s[..n], Normalise(s[n..]), s);
      }
    }
  }


  lemma LegalStep(s: string)
    requires s != "" && IsXmlText(s) && s[0] as int < 0x80
    ensures CharLen(s) == 1 && IsXmlText(s[1..])
  {}

  lemma AsciiThen(c: char, rest: string)
    requires c as int < 0x80 && IsXmlChar(c as int) && IsXmlText(rest)
    ensures IsXmlText([c] + rest)
  {
    assert ([c] + rest)[1..] == rest;
    assert CharLen([c] + rest) == 1;
  }

  lemma PlainChar(s: string)
    requires CharLen(s) > 0 && s[0] != CR
    ensures Normalise(s) == s[..CharLen(s)] + Normalise(s[CharLen(s)..])
  {
    hide Normalise;
    var n := CharLen(s);
    forall i | 0 <= i < n ensures s[..n][i] != CR {
      if n > 1 { LongCharOctets(s); }
    }
    PlainRun(s, n);
  }

  lemma CharThen(c: string, rest: string, s: string)
    requires 0 < CharLen(s) == |c| && c == s[..|c|] && IsXmlText(rest)
    ensures IsXmlText(c + rest)
  {
    hide CharLen;
    assert (c + rest)[..|c|] == c && (c + rest)[|c|..] == rest;
    CharLenLocal(s, c + rest);
  }

  lemma {:induction false} NoNulInText(s: string)
    requires IsXmlText(s)
    ensures '\0' !in s
    decreases |s|
  {
    if s != "" {
      var n := CharLen(s);
      NoNulInText(s[n..]);
      assert s == s[..n] + s[n..];
      if n > 1 { LongCharOctets(s); }
      assert '\0' !in s[..n];
    }
  }

  lemma FaultReadable(code: Int32, text: string)
    requires IsXmlText(text)
    ensures XmlReadable(FaultStruct(code, text)) && XmlPrintable(FaultStruct(code, text))
    ensures Depth(FaultStruct(code, text)) == 2
    ensures XmlNormal(FaultStruct(code, text)) == FaultStruct(code, text)
  {
    hide Normalise, IsXmlText, NormalMembers, MembersDepth;
    NormaliseLegal(text);
    NormaliseTwice(text);
    FaultKeys();
    var v := FaultStruct(code, text);
    assert XmlReadable(v.members[0].value) && XmlReadable(v.members[1].value);
    ReadablePrints(v);
    TwoMembers(v.members[0], v.members[1]);
  }

  lemma TwoMembers(a: Member, b: Member)
    requires IsXmlText(a.key) && IsXmlText(b.key) && XmlReadable(a.value) && XmlReadable(b.value)
    requires Normalise(a.key) == a.key && Normalise(b.key) == b.key && a.key != b.key
    requires XmlNormal(a.value) == a.value && XmlNormal(b.value) == b.value && Depth(a.value) == Depth(b.value) == 1
    ensures MembersReadable([a, b]) && NormalMembers([a, b]) == [a, b] && MembersDepth([a, b]) == 1
  {
    hide Normalise, IsXmlText, XmlReadable, XmlNormal, Depth;
    assert [a, b][..1] == [a] && [a][..0] == [];
    assert MembersDepth([]) == 0 && MembersDepth([a]) == 1;
    assert NormalMembers([]) == [];
    assert NormalMembers([a]) == [a];
    SetNewMember([a], b.key, b.value);
    assert [a] + [b] == [a, b];
  }

  lemma FaultKeys()
    ensures IsXmlText("faultCode") && IsXmlText("faultString") && "faultCode" != "faultString"
    ensures Normalise("faultCode") == "faultCode" && Normalise("faultString") == "faultString"
  {
    hide IsXmlText, Normalise;
    AsciiIsXmlText("faultCode");
    AsciiIsXmlText("faultString");
    CrFreeStays("faultCode");
    CrFreeStays("faultString");
  }

  lemma FaultInterpreted(code: Int32, text: string)
    requires '\0' !in Normalise(text)
    ensures FaultOf(FaultStruct(code, text)) == Ok(Failure(code, Normalise(text)))
  {
    var members := FaultStruct(code, text).members;
    assert members[1..] == [members[1]];
    assert ValueAt(members[1..], "faultString") == Some(members[1].value);
  }

  /** Normalising changes ASCII characters only. */
  lemma {:induction false} NormaliseOctets(s: string, c: char)
    ensures c as int >= 0x80 ==> (c in Normalise(s) <==> c in s)
    decreases |s|
  {
    if s != "" {
      var rest := if s[0] != CR then s[1..] else AfterCr(s, 0);
      NormaliseOctets(rest, c);
      assert s == [s[0]] + s[1..];
      if s[0] == CR && |s| > 1 && s[1] == LF { assert s == [CR, LF] + s[2..]; }
    }
  }

  lemma NormaliseValid(s: string)
    requires IsXmlText(s)
    ensures IsXmlText(Normalise(s)) && (ValidUtf8(Normalise(s)) <==> ValidUtf8(s))
  {
    hide IsXmlText, Normalise, ValidUtf8;
    NormaliseLegal(s);
    ValidIffBasicPlane(s);
    ValidIffBasicPlane(Normalise(s));
    forall c | c as int >= 0xF0 ensures c in Normalise(s) <==> c in s { NormaliseOctets(s, c); }
  }

  /** Nothing but the depth and the text can be wrong with a fault struct. */
  lemma FaultOfFault(code: Int32, text: string, nesting: nat)
    requires IsXmlText(text)
    ensures ReadFault(FaultStruct(code, text), nesting) == if nesting < 2 then Some(ParseError) else TextFault(text)
  {
    hide IsXmlText, Normalise, ValidUtf8;
    NormaliseValid(text);
    AsciiIsXmlText("faultCode");
    AsciiIsXmlText("faultString");
    ValidIffBasicPlane("faultCode");
    ValidIffBasicPlane("faultString");
    if nesting > 0 {
      var a, b := Member("faultCode", Int(code)), Member("faultString", Str(Normalise(text)));
      assert [a, b][..1] == [a] && [a][..0] == [];
      assert MembersFault([a], nesting - 1) == Earlier(Earlier(MembersFault([], nesting - 1), None), ReadFault(a.value, nesting - 1));
      assert MembersFault([a, b], nesting - 1) == Earlier(Earlier(MembersFault([a], nesting - 1), None), ReadFault(b.value, nesting - 1));
    }
  }

  /** A printed fault reads back as that code and text, and never as a result. Its text
      has LF for line ends. (A fault whose text is not valid cannot be serialized.) */
  lemma FaultRoundTrip(lib: Lib, limits: Limits, code: Int32, text: string)
    requires IsXmlText(text)
    ensures XmlPrintable(FaultStruct(code, text))
    ensures ParseResponse(lib, limits, FaultText(code, text)) ==
              if |FaultText(code, text)| > limits.size then Fault(LimitExceeded)
              else if limits.nesting < 2 then Fault(ParseError)
              else ReadResult(TextFault(text), Failure(code, Normalise(text)))
  {
    hide XmlReadable, KidsOf, TextOf, ElemValue, XmlNormal, DocumentText, ReadXml, IsName, XmlPrintable, Depth,
      Attribute, IsRaw, FaultOf, FaultStruct, IsXmlText, Normalise, ContentOf, ReadFault, TextFault;
    var v := FaultStruct(code, text);
    FaultReadable(code, text);
    NormaliseLegal(text);
    NoNulInText(Normalise(text));
    FaultInterpreted(code, text);
    FaultOfFault(code, text, limits.nesting);
    MessageNames();
    ParamWellFormed(v, I8Dialect);
    var m := MarkupOf(v, I8Dialect);
    NoLooseText(v, I8Dialect);
    var inner := Tag("fault", "", [Raw(CRLF), m, Raw(CRLF)]);
    OuterWellFormed("fault", "", m);
    OuterWellFormed("methodResponse", "", inner);
    OuterKids(m);
    OuterKids(inner);
    DocumentReadsBack("methodResponse", "", FaultContent(code, text));
    ValueReadsBack(lib, v, I8Dialect, limits.nesting);
  }
}
