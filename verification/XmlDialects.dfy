/** Which element names the serializer uses: those of its dialect, each for its type of
value, and names with a prefix only where the prefix is declared. */
module XmlDialects {
  import opened Text
  import opened Values
  import opened Lines
  import opened Doubles
  import opened Datetimes
  import opened XmlReader
  import opened XmlReadBack
  import opened XmlPrinter
  import opened XmlRoundTrip
  import opened Messages

  // ---------------------------------------------------------------------
  // Names in a document

  const COMMON_NAMES := {
    "value", "i4", "boolean", "double", "dateTime.iso8601", "string", "base64", "array", "data", "struct", "member", "name",
    "methodCall", "methodName", "params", "param", "methodResponse", "fault"}

  /** The names of one dialect only. */
  function OwnNames(dialect: Dialect): set<string> { if dialect == ApacheDialect then {"ex:i8", "ex:nil"} else {"i8", "nil"} }

  ghost predicate NameOk(name: string, dialect: Dialect) { name in COMMON_NAMES || name in OwnNames(dialect) }

  ghost predicate EventOk(e: Event, dialect: Dialect) { e.Chars? || NameOk(e.name, dialect) }

  ghost predicate EventsOk(es: seq<Event>, dialect: Dialect) { forall e :: e in es ==> EventOk(e, dialect) }

  /** Markup with names of the dialect and no declarations. */
  ghost predicate InDialect(m: Markup, dialect: Dialect)
    decreases m, 0
  {
    match m
    case Tag(name, attribute, content) => NameOk(name, dialect) && attribute == "" && AllInDialect(content, dialect)
    case Empty(name) => NameOk(name, dialect)
    case _ => true
  }

  ghost predicate AllInDialect(ms: seq<Markup>, dialect: Dialect)
    decreases ms, 0
  {
    forall m :: m in ms ==> InDialect(m, dialect)
  }

  /** A name with the prefix belongs to the Apache dialect, and a name of the one dialect
      is not in the other. */
  lemma PrefixIsApache(name: string, dialect: Dialect)
    requires NameOk(name, dialect)
    ensures "ex:" <= name ==> dialect == ApacheDialect
    ensures dialect == ApacheDialect ==> name != "i8" && name != "nil"
    ensures dialect == I8Dialect ==> name != "ex:i8" && name != "ex:nil"
  {
    assert forall n :: n in COMMON_NAMES ==> n[0] != 'e';
    assert forall n :: n in COMMON_NAMES ==> n !in {"i8", "nil", "ex:i8", "ex:nil"};
    if "ex:" <= name { assert name[0] == "ex:"[0] == 'e' && "i8"[0] == 'i' && "nil"[0] == 'n'; }
  }

  lemma TagInDialect(name: string, content: seq<Markup>, dialect: Dialect)
    requires NameOk(name, dialect) && AllInDialect(content, dialect)
    ensures InDialect(Tag(name, "", content), dialect)
  {
    hide NameOk;
  }

  lemma TextInDialect(text: string, dialect: Dialect)
    ensures InDialect(Raw(text), dialect) && InDialect(Escaped(text), dialect)
  {}

  lemma {:induction false} TextIsChars(s: string, dialect: Dialect)
    ensures EventsOk(TextEvents(s), dialect)
    decreases |s|
  {
    if s != "" {
      var n := if CharLen(s) > 0 then CharLen(s) else |s|;
      TextIsChars(s[n..], dialect);
    }
  }

  lemma {:induction false} EventsInDialect(m: Markup, dialect: Dialect)
    requires InDialect(m, dialect)
    ensures EventsOk(EventsOf(m), dialect)
    decreases m, 0
  {
    hide NameOk, TextEvents, ContentEvents;
    match m
    case Tag(name, _, content) =>
      ContentInDialect(content, dialect);
      assert EventOk(Start(name), dialect) && EventOk(End(name), dialect);
    case Empty(name) => assert EventOk(Start(name), dialect) && EventOk(End(name), dialect);
    case Escaped(text) => TextIsChars(text, dialect);
    case Raw(text) => TextIsChars(Normalise(text), dialect);
  }

  lemma {:induction false} ContentInDialect(ms: seq<Markup>, dialect: Dialect)
    requires AllInDialect(ms, dialect)
    ensures EventsOk(ContentEvents(ms), dialect)
    decreases ms, 0
  {
    hide EventsOf, EventOk, InDialect;
    if ms != [] {
      EventsInDialect(ms[0], dialect);
      ContentInDialect(ms[1..], dialect);
    }
  }

  // ---------------------------------------------------------------------
  // Values

  lemma {:induction false} ValueInDialect(v: Value, dialect: Dialect)
    requires XmlPrintable(v)
    ensures InDialect(MarkupOf(v, dialect), dialect)
    decreases v, 1
  {
    hide InDialect, NameOk, ItemsMarkup, MembersMarkup, Signed, FloatText, DatetimeText, Printable;
    CommonOk(dialect);
    TextInDialect(CRLF, dialect);
    if v.Array? {
      ItemsInDialect(v.items, dialect);
      TagInDialect("data", [Raw(CRLF)] + ItemsMarkup(v.items, dialect), dialect);
      TagInDialect("array", [Tag("data", "", [Raw(CRLF)] + ItemsMarkup(v.items, dialect))], dialect);
    } else if v.Struct? {
      MembersInDialect(v.members, dialect);
      TagInDialect("struct", [Raw(CRLF)] + MembersMarkup(v.members, dialect), dialect);
    } else {
      ScalarInDialect(v, dialect);
    }
    TagInDialect("value", ContentOf(v, dialect), dialect);
  }

  lemma CommonOk(dialect: Dialect)
    ensures forall name :: name in COMMON_NAMES ==> NameOk(name, dialect)
    ensures {"value", "array", "data", "struct", "member", "name"} <= COMMON_NAMES
    ensures {"methodCall", "methodName", "params", "param", "methodResponse", "fault"} <= COMMON_NAMES
  {}

  lemma ScalarInDialect(v: Value, dialect: Dialect)
    requires XmlPrintable(v) && !v.Array? && !v.Struct?
    ensures AllInDialect(ContentOf(v, dialect), dialect)
  {
    hide Signed, FloatText, DatetimeText, Printable, InDialect;
    var m := ContentOf(v, dialect)[0];
    assert ContentOf(v, dialect) == [m];
    if m.Tag? {
      forall x | x in m.content ensures InDialect(x, dialect) { TextInDialect(x.text, dialect); }
      TagInDialect(m.name, m.content, dialect);
    } else {
      EmptyInDialect(m.name, dialect);
    }
  }

  lemma EmptyInDialect(name: string, dialect: Dialect)
    requires NameOk(name, dialect)
    ensures InDialect(Empty(name), dialect)
  {}

  lemma {:induction false} ItemsInDialect(items: seq<Value>, dialect: Dialect)
    requires AllPrintable(items)
    ensures AllInDialect(ItemsMarkup(items, dialect), dialect)
    decreases items, 0
  {
    hide InDialect, ContentOf, XmlPrintable, MarkupOf, NameOk;
    if items != [] {
      var n := |items| - 1;
      assert items[n] in items;
      ItemsInDialect(items[..n], dialect);
      ValueInDialect(items[n], dialect);
      TextInDialect(CRLF, dialect);
    }
  }

  lemma {:induction false} MembersInDialect(members: seq<Member>, dialect: Dialect)
    requires MembersPrintable(members)
    ensures AllInDialect(MembersMarkup(members, dialect), dialect)
    decreases members, 0
  {
    hide InDialect, ContentOf, XmlPrintable, MarkupOf, NameOk;
    if members != [] {
      var n := |members| - 1;
      assert members[n] in members;
      MembersInDialect(members[..n], dialect);
      MemberInDialect(members[n], dialect);
      TextInDialect(CRLF, dialect);
    }
  }

  lemma {:induction false} MemberInDialect(m: Member, dialect: Dialect)
    requires XmlPrintable(m.value)
    ensures InDialect(MemberMarkup(m, dialect), dialect)
    decreases m, 2
  {
    hide InDialect, ContentOf, XmlPrintable, MarkupOf, NameOk;
    CommonOk(dialect);
    ValueInDialect(m.value, dialect);
    TextInDialect(CRLF, dialect);
    TextInDialect(m.key, dialect);
    TagInDialect("name", [Escaped(m.key)], dialect);
    TagInDialect("member", [Tag("name", "", [Escaped(m.key)]), Raw(CRLF), MarkupOf(m.value, dialect)], dialect);
  }

  // ---------------------------------------------------------------------
  // Messages

  lemma {:induction false} ParamListInDialect(params: seq<Value>, dialect: Dialect)
    requires AllPrintable(params)
    ensures AllInDialect(ParamListMarkup(params, dialect), dialect)
  {
    hide InDialect, MarkupOf, XmlPrintable, NameOk;
    if params != [] {
      var n := |params| - 1;
      assert params[n] in params;
      ParamListInDialect(params[..n], dialect);
      ParamInDialect(params[n], dialect);
      TextInDialect(CRLF, dialect);
    }
  }

  lemma ParamInDialect(v: Value, dialect: Dialect)
    requires XmlPrintable(v)
    ensures InDialect(ParamMarkup(v, dialect), dialect)
  {
    hide InDialect, MarkupOf, XmlPrintable, NameOk;
    CommonOk(dialect);
    ValueInDialect(v, dialect);
    TagInDialect("param", [MarkupOf(v, dialect)], dialect);
  }

  /** The prefix is declared by the root element, exactly in the Apache dialect. */
  ghost predicate Declares(root: Markup) { root.Tag? && root.attribute == XMLNS_APACHE }

  /** A whole document keeps to its dialect: the names are its own, and a name has the
      prefix only if the root declares it. */
  ghost predicate KeepsTo(root: Markup, dialect: Dialect) {
    && EventsOk(EventsOf(root), dialect) && (Declares(root) <==> dialect == ApacheDialect)
    && forall e :: e in EventsOf(root) && !e.Chars? && "ex:" <= e.name ==> Declares(root)
  }

  lemma RootKeeps(name: string, content: seq<Markup>, dialect: Dialect)
    requires NameOk(name, dialect) && AllInDialect(content, dialect)
    ensures KeepsTo(Tag(name, Xmlns(dialect), content), dialect)
  {
    hide NameOk, AllInDialect, ContentEvents;
    ContentInDialect(content, dialect);
    assert EventOk(Start(name), dialect) && EventOk(End(name), dialect);
    var root := Tag(name, Xmlns(dialect), content);
    DeclaredOrNot();
    forall e | e in EventsOf(root) && !e.Chars? && "ex:" <= e.name ensures Declares(root) {
      assert EventOk(e, dialect);
      PrefixIsApache(e.name, dialect);
    }
  }

  lemma DeclaredOrNot()
    ensures XMLNS_APACHE != ""
  {}

  /** The document of a call. */
  lemma CallKeeps(name: string, params: seq<Value>, dialect: Dialect)
    requires AllPrintable(params)
    ensures CallText(name, params, dialect) == DocumentText(Tag("methodCall", Xmlns(dialect), CallContent(name, params, dialect)))
    ensures KeepsTo(Tag("methodCall", Xmlns(dialect), CallContent(name, params, dialect)), dialect)
  {
    hide InDialect, NameOk, ParamListMarkup, XmlPrintable, DocumentText, KeepsTo;
    CommonOk(dialect);
    TextInDialect(CRLF, dialect);
    TextInDialect(name, dialect);
    ParamListInDialect(params, dialect);
    TagInDialect("methodName", [Escaped(name)], dialect);
    TagInDialect("params", [Raw(CRLF)] + ParamListMarkup(params, dialect), dialect);
    RootKeeps("methodCall", CallContent(name, params, dialect), dialect);
  }

  /** The document of a response. */
  lemma ResponseKeeps(v: Value, dialect: Dialect)
    requires XmlPrintable(v)
    ensures ResponseText(v, dialect) == DocumentText(Tag("methodResponse", Xmlns(dialect), ResponseContent(v, dialect)))
    ensures KeepsTo(Tag("methodResponse", Xmlns(dialect), ResponseContent(v, dialect)), dialect)
  {
    hide InDialect, NameOk, ParamMarkup, XmlPrintable, DocumentText, KeepsTo;
    CommonOk(dialect);
    TextInDialect(CRLF, dialect);
    ParamInDialect(v, dialect);
    TagInDialect("params", [Raw(CRLF), ParamMarkup(v, dialect), Raw(CRLF)], dialect);
    RootKeeps("methodResponse", ResponseContent(v, dialect), dialect);
  }

  /** A fault response declares nothing, and needs nothing declared. */
  lemma FaultKeeps(code: Int32, text: string)
    requires XmlPrintable(FaultStruct(code, text))
    ensures FaultText(code, text) == DocumentText(Tag("methodResponse", "", FaultContent(code, text)))
    ensures KeepsTo(Tag("methodResponse", "", FaultContent(code, text)), I8Dialect)
  {
    hide InDialect, NameOk, MarkupOf, XmlPrintable, DocumentText, KeepsTo;
    CommonOk(I8Dialect);
    TextInDialect(CRLF, I8Dialect);
    ValueInDialect(FaultStruct(code, text), I8Dialect);
    TagInDialect("fault", [Raw(CRLF), MarkupOf(FaultStruct(code, text), I8Dialect), Raw(CRLF)], I8Dialect);
    RootKeeps("methodResponse", FaultContent(code, text), I8Dialect);
  }

  // ---------------------------------------------------------------------
  // Each type of value has its element

  /** The element a type of value is printed as. */
  ghost predicate TypeName(v: Value, dialect: Dialect, name: string) {
    match v
    case Int(_) => name == "i4"
    case I8(_) => name == if dialect == ApacheDialect then "ex:i8" else "i8"
    case Bool(_) => name == "boolean"
    case Double(_) => name == "double"
    case DateTime(_) => name == "dateTime.iso8601"
    case Str(_) => name == "string"
    case Base64(_) => name == "base64"
    case Array(_) => name == "array"
    case Struct(_) => name == "struct"
    case Nil => name == if dialect == ApacheDialect then "ex:nil" else "nil"
    case _ => false
  }

  /** `e` shows `v`, at all depths: a value element around the element of the type, with
      the items or the members in order. */
  ghost predicate Shows(e: Elem, v: Value, dialect: Dialect)
    decreases v, 0
  {
    && e.name == "value" && |e.children| == 1 && TypeName(v, dialect, e.children[0].name)
    && var child := e.children[0];
      if v.Array? then
        && |child.children| == 1 && child.children[0].name == "data" && AllShow(child.children[0].children, v.items, dialect)
      else if v.Struct? then MembersShow(child.children, v.members, dialect)
      else child.children == []
  }

  ghost predicate AllShow(es: seq<Elem>, items: seq<Value>, dialect: Dialect)
    decreases items, 0
  {
    |es| == |items| && forall i :: 0 <= i < |items| ==> Shows(es[i], items[i], dialect)
  }

  ghost predicate MembersShow(es: seq<Elem>, members: seq<Member>, dialect: Dialect)
    decreases members, 0
  {
    |es| == |members| && forall i :: 0 <= i < |members| ==> MemberShows(es[i], members[i], dialect)
  }

  ghost predicate MemberShows(e: Elem, m: Member, dialect: Dialect)
    decreases m, 0
  {
    e.name == "member" && |e.children| == 2 && e.children[0] == Elem("name", m.key, []) && Shows(e.children[1], m.value, dialect)
  }

  lemma {:induction false} PrintedShows(v: Value, dialect: Dialect)
    requires XmlPrintable(v)
    ensures Shows(ValueElem(v, dialect), v, dialect)
    decreases v, 1
  {
    match v
    case Array(items) =>
      hide ItemsMarkup, XmlPrintable, KidsOf, TextOf, AllShow;
      PrintableParts(v);
      ItemsShow(items, dialect);
      var around, inner := ArrayKids(items, dialect);
    case Struct(members) =>
      hide MembersMarkup, XmlPrintable, KidsOf, TextOf, MembersShow;
      PrintableParts(v);
      MembersShown(members, dialect);
      var around := StructKids(members, dialect);
    case _ => ScalarShows(v, dialect);
  }

  lemma PrintableParts(v: Value)
    requires XmlPrintable(v)
    ensures v.Array? ==> AllPrintable(v.items)
    ensures v.Struct? ==> MembersPrintable(v.members)
  {}

  lemma ArrayKids(items: seq<Value>, dialect: Dialect) returns (around: string, inner: string)
    requires XmlPrintable(Array(items)) && AllPrintable(items)
    ensures KidsOf(ContentOf(Array(items), dialect)) == [Elem("array", around, [Elem("data", inner, ItemElems(items, dialect))])]
  {
    hide ItemsMarkup, XmlPrintable;
    var content := [Raw(CRLF)] + ItemsMarkup(items, dialect);
    var data := Tag("data", "", content);
    var outer := Tag("array", "", [data]);
    KidsOfPiece(ItemsMarkup(items, dialect), data);
    assert [data][1..] == [] && [outer][1..] == [];
    assert KidsOf([data]) == [Elem("data", TextOf(content), KidsOf(content))];
    assert KidsOf([outer]) == [Elem("array", TextOf([data]), KidsOf([data]))];
    around, inner := TextOf([data]), TextOf(content);
  }

  lemma StructKids(members: seq<Member>, dialect: Dialect) returns (around: string)
    requires XmlPrintable(Struct(members)) && MembersPrintable(members)
    ensures KidsOf(ContentOf(Struct(members), dialect)) == [Elem("struct", around, MemberElems(members, dialect))]
  {
    hide MembersMarkup, XmlPrintable;
    var content := [Raw(CRLF)] + MembersMarkup(members, dialect);
    var tag := Tag("struct", "", content);
    KidsOfPiece(MembersMarkup(members, dialect), tag);
    assert [tag][1..] == [];
    assert KidsOf([tag]) == [Elem("struct", TextOf(content), KidsOf(content))];
    around := TextOf(content);
  }

  lemma ScalarShows(v: Value, dialect: Dialect)
    requires XmlPrintable(v) && !v.Array? && !v.Struct?
    ensures Shows(ValueElem(v, dialect), v, dialect)
  {
    hide Signed, FloatText, DatetimeText, Printable, TextOf;
    var m := ContentOf(v, dialect)[0];
    assert ContentOf(v, dialect) == [m] && [m][1..] == [];
    if m.Tag? {
      NoKids(m.content);
      assert KidsOf([m]) == [Elem(m.name, TextOf(m.content), [])];
    } else {
      assert KidsOf([m]) == [Elem(m.name, "", [])];
    }
  }

  lemma {:induction false} NoKids(ms: seq<Markup>)
    requires forall m :: m in ms ==> m.Raw? || m.Escaped?
    ensures KidsOf(ms) == []
  {
    if ms != [] {
      HeadAndTail(ms);
      NoKids(ms[1..]);
    }
  }

  lemma {:induction false} ItemsShow(items: seq<Value>, dialect: Dialect)
    requires AllPrintable(items)
    ensures AllShow(ItemElems(items, dialect), items, dialect)
    decreases items, 0
  {
    hide XmlPrintable, ContentOf, KidsOf, ItemElems, Shows;
    if items == [] {
      NothingPrinted(dialect);
    } else {
      var n := |items| - 1;
      assert items[n] in items;
      ItemsShow(items[..n], dialect);
      PrintedShows(items[n], dialect);
      ItemElemsStep(items, dialect);
    }
  }

  lemma {:induction false} MembersShown(members: seq<Member>, dialect: Dialect)
    requires MembersPrintable(members)
    ensures MembersShow(MemberElems(members, dialect), members, dialect)
    decreases members, 0
  {
    hide XmlPrintable, ContentOf, KidsOf, MemberElems, Shows;
    if members == [] {
      NothingPrinted(dialect);
    } else {
      var n := |members| - 1;
      assert members[n] in members;
      MembersShown(members[..n], dialect);
      PrintedShows(members[n].value, dialect);
      MemberElemsStep(members, dialect);
    }
  }

  lemma NothingPrinted(dialect: Dialect)
    ensures ItemElems([], dialect) == [] && MemberElems([], dialect) == []
  {}

  /** Reading a printed value back as XML gives an element that shows the value, with the
      names of the dialect. */
  lemma DocumentShows(v: Value, dialect: Dialect)
    requires XmlReadable(v)
    ensures XmlPrintable(v)
    ensures var e := ReadXml(DocumentText(MarkupOf(v, dialect))); e.Some? && Shows(e.value, v, dialect)
  {
    hide XmlReadable, XmlPrintable, ContentOf, ReadXml, DocumentText, Shows, KidsOf, TextOf;
    ReadablePrints(v);
    ContentWellFormed(v, dialect);
    ValueIsAName();
    assert WellFormed(MarkupOf(v, dialect));
    DocumentReadsBack("value", "", ContentOf(v, dialect));
    NoLooseText(v, dialect);
    PrintedShows(v, dialect);
  }

  lemma ValueIsAName()
    ensures IsName("value")
  {}
}
