/** The round trip of values through XML: what the serializer prints reads back as the
same value, up to line delimiters and the precision of doubles, if and only if it
nests no deeper than the parser allows. */
module XmlRoundTrip {
  import opened Text
  import opened Base64Text
  import opened Utf8Text
  import opened Values
  import opened Numerals
  import opened Lines
  import opened Doubles
  import opened Datetimes
  import opened XmlText
  import opened XmlReader
  import opened XmlReadBack
  import opened XmlPrinter
  import opened XmlGrammar

  /** Values that XML can carry: texts of legal characters, octets, datetimes in range
      with a year of four digits, doubles that print. */
  ghost predicate XmlReadable(v: Value)
    decreases v, 0
  {
    match v
    case Array(items) => AllReadable(items)
    case Struct(members) => MembersReadable(members)
    case Double(d) => Printable(d) && StrictDouble(FloatText(d)).Some?
    case DateTime(dt) => InRange(dt) && 1000 <= dt.Y <= 9999
    case Str(s) => IsXmlText(s)
    case Base64(bytes) => AreOctets(bytes)
    case CPtr => false
    case Dead => false
    case _ => true
  }

  ghost predicate AllReadable(items: seq<Value>)
    decreases items, 0
  {
    forall x :: x in items ==> XmlReadable(x)
  }

  ghost predicate MembersReadable(members: seq<Member>)
    decreases members, 0
  {
    forall m :: m in members ==> IsXmlText(m.key) && XmlReadable(m.value)
  }

  /** How deep a value nests. */
  function Depth(v: Value): (d: nat)
    ensures d >= 1
    decreases v, 0
  {
    match v
    case Array(items) => 1 + ItemsDepth(items)
    case Struct(members) => 1 + MembersDepth(members)
    case _ => 1
  }

  function ItemsDepth(items: seq<Value>): nat
    decreases items, 0
  {
    if items == [] then 0
    else
      var n := |items| - 1;
      Larger(ItemsDepth(items[..n]), Depth(items[n]))
  }

  function MembersDepth(members: seq<Member>): nat
    decreases members, 0
  {
    if members == [] then 0
    else
      var n := |members| - 1;
      Larger(MembersDepth(members[..n]), Depth(members[n].value))
  }

  function Larger(a: nat, b: nat): nat { if a < b then b else a }

  // ---------------------------------------------------------------------
  // What the parser refuses

  /** The characters of every text and key are ones of UCS-2. */
  ghost predicate TextsValid(v: Value)
    decreases v, 0
  {
    match v
    case Str(s) => ValidUtf8(s)
    case Array(items) => AllTextsValid(items)
    case Struct(members) => MemberTextsValid(members)
    case _ => true
  }

  ghost predicate AllTextsValid(items: seq<Value>)
    decreases items, 0
  {
    forall x :: x in items ==> TextsValid(x)
  }

  ghost predicate MemberTextsValid(members: seq<Member>)
    decreases members, 0
  {
    forall m :: m in members ==> ValidUtf8(m.key) && TextsValid(m.value)
  }

  /** The first fault, in the order of the document, of parsing what is printed for `v`:
      a value that nests too deep or a text that is not accepted. */
  ghost function ReadFault(v: Value, maxRecursion: nat): Option<FaultCode>
    decreases v, 0
  {
    if maxRecursion == 0 then Some(ParseError)
    else match v
      case Str(s) => TextFault(s)
      case Array(items) => ItemsFault(items, maxRecursion - 1)
      case Struct(members) => MembersFault(members, maxRecursion - 1)
      case _ => None
  }

  ghost function TextFault(s: string): Option<FaultCode> { if ValidUtf8(s) then None else Some(InvalidUtf8) }

  ghost function Earlier(a: Option<FaultCode>, b: Option<FaultCode>): Option<FaultCode> { if a.Some? then a else b }

  ghost function ItemsFault(items: seq<Value>, maxRecursion: nat): Option<FaultCode>
    decreases items, 0
  {
    if items == [] then None
    else
      var n := |items| - 1;
      Earlier(ItemsFault(items[..n], maxRecursion), ReadFault(items[n], maxRecursion))
  }

  ghost function MembersFault(members: seq<Member>, maxRecursion: nat): Option<FaultCode>
    decreases members, 0
  {
    if members == [] then None
    else
      var n := |members| - 1;
      Earlier(Earlier(MembersFault(members[..n], maxRecursion), TextFault(members[n].key)), ReadFault(members[n].value, maxRecursion))
  }

  /** Nothing is refused if and only if the value is shallow enough and its texts are
      valid; what is refused otherwise is the one or the other. */
  ghost predicate FaultSplit(f: Option<FaultCode>, shallow: bool, valid: bool) {
    && (f == None <==> shallow && valid)
    && (f.Some? ==> f.value == ParseError || f.value == InvalidUtf8)
    && (shallow ==> f != Some(ParseError)) && (valid ==> f != Some(InvalidUtf8))
  }

  lemma {:induction false} ReadFaultSplit(v: Value, maxRecursion: nat)
    ensures FaultSplit(ReadFault(v, maxRecursion), Depth(v) <= maxRecursion, TextsValid(v))
    decreases v, 1
  {
    hide ValidUtf8;
    if maxRecursion > 0 {
      match v
      case Array(items) => ItemsFaultSplit(items, maxRecursion - 1);
      case Struct(members) => MembersFaultSplit(members, maxRecursion - 1);
      case _ =>
    }
  }

  lemma {:induction false} ItemsFaultSplit(items: seq<Value>, maxRecursion: nat)
    ensures FaultSplit(ItemsFault(items, maxRecursion), ItemsDepth(items) <= maxRecursion, AllTextsValid(items))
    decreases items, 0
  {
    hide ReadFault, Depth, TextsValid;
    if items != [] {
      var n := |items| - 1;
      assert items[n] in items && items == items[..n] + [items[n]];
      ItemsFaultSplit(items[..n], maxRecursion);
      ReadFaultSplit(items[n], maxRecursion);
    }
  }

  lemma {:induction false} MembersFaultSplit(members: seq<Member>, maxRecursion: nat)
    ensures FaultSplit(MembersFault(members, maxRecursion), MembersDepth(members) <= maxRecursion, MemberTextsValid(members))
    decreases members, 0
  {
    hide ReadFault, Depth, TextsValid, ValidUtf8;
    if members != [] {
      var n := |members| - 1;
      assert members[n] in members && members == members[..n] + [members[n]];
      MembersFaultSplit(members[..n], maxRecursion);
      ReadFaultSplit(members[n].value, maxRecursion);
    }
  }

  /** A text of legal XML characters is accepted if and only if none of them takes four
      octets: those are beyond UCS-2. */
  lemma {:induction false} ValidIffBasicPlane(s: string)
    requires IsXmlText(s)
    ensures ValidUtf8(s) <==> forall c :: c in s ==> c as int < 0xF0
    decreases |s|
  {
    if s != "" {
      var n := CharLen(s);
      hide IsXmlText;
      assert IsXmlText(s[n..]) && n > 0 by { RestLegal(s); }
      ValidIffBasicPlane(s[n..]);
      OneCharValid(s);
      hide Ucs2Front;
      if n == 4 {
        assert s[0] in s && !ValidUtf8(s);
      } else {
        assert ValidUtf8(s) <==> ValidUtf8(s[n..]);
        assert s == s[..n] + s[n..];
        assert forall c :: c in s <==> c in s[..n] || c in s[n..];
      }
    }
  }

  lemma RestLegal(s: string)
    requires IsXmlText(s) && s != ""
    ensures CharLen(s) > 0 && IsXmlText(s[CharLen(s)..])
  {}

  lemma OneCharValid(s: string)
    requires CharLen(s) > 0
    ensures var n := CharLen(s);
      && (n == 4 ==> Ucs2Front(s) == None && s[0] as int >= 0xF0)
      && (n != 4 ==> Ucs2Front(s).Some? && Ucs2Front(s).value.1 == n && forall c :: c in s[..n] ==> c as int < 0xF0)
  {
    var n := CharLen(s);
    if n != 4 {
      forall c | c in s[..n] ensures c as int < 0xF0 {
        var i :| 0 <= i < n && s[i] == c;
      }
    }
  }

  /** The value that comes back: line delimiters are LF, doubles are as exact as they
      print, and keys that have become equal share one member. */
  ghost function XmlNormal(v: Value): Value
    requires XmlReadable(v)
    decreases v, 0
  {
    match v
    case Str(s) => Str(Normalise(s))
    case Double(d) => Double(StrictDouble(FloatText(d)).value)
    case Array(items) => Array(NormalItems(items))
    case Struct(members) => Struct(NormalMembers(members))
    case _ => v
  }

  ghost function NormalItems(items: seq<Value>): seq<Value>
    requires AllReadable(items)
    decreases items, 0
  {
    if items == [] then []
    else
      var n := |items| - 1;
      NormalItems(items[..n]) + [XmlNormal(items[n])]
  }

  ghost function NormalMembers(members: seq<Member>): seq<Member>
    requires MembersReadable(members)
    decreases members, 0
  {
    if members == [] then []
    else
      var n := |members| - 1;
      SetMember(NormalMembers(members[..n]), Normalise(members[n].key), XmlNormal(members[n].value))
  }

  // ---------------------------------------------------------------------
  // Raw texts

  lemma DigitsAreRaw(s: string)
    requires forall c :: c in s ==> IsDigit(c) || c in {'-', '.', ':', 'T'}
    ensures IsRaw(s) && Normalise(s) == s
  {
    if s != "" { assert s[|s| - 1] in s; }
    CrFreeStays(s);
  }

  lemma InDigits(s: string, c: char)
    requires AllDigits(s) && c in s
    ensures IsDigit(c)
  {
    var i :| 0 <= i < |s| && s[i] == c;
  }

  lemma SignedIsRaw(n: int)
    ensures IsRaw(Signed(n)) && Normalise(Signed(n)) == Signed(n)
  {
    forall c | c in Signed(n) ensures IsDigit(c) || c == '-' {
      if c != '-' { InDigits(Decimal(if n < 0 then -n else n), c); }
    }
    DigitsAreRaw(Signed(n));
  }

  lemma BodyChars(s: string, c: char)
    requires IsFloatBody(s) && c in s
    ensures IsDigit(c) || c == '.'
  {
    var i :| 0 <= i < |s| && s[i] == c;
  }

  lemma FloatIsRaw(d: real)
    requires Printable(d)
    ensures IsRaw(FloatText(d)) && Normalise(FloatText(d)) == FloatText(d)
  {
    hide IsFloatBody, MagnitudeText, WholeDigits, WholeAmount, Precision;
    assert Abs(d) >= 0.0 && Printable(Abs(d));
    MagnitudeAccurate(Abs(d));
    forall c | c in FloatText(d) ensures IsDigit(c) || c in {'-', '.'} {
      if c != '-' || c in MagnitudeText(Abs(d)) { BodyChars(MagnitudeText(Abs(d)), c); }
    }
    DigitsAreRaw(FloatText(d));
  }

  lemma PadIsDigits(n: nat, c: char)
    requires c in Pad2(n)
    ensures IsDigit(c)
  {
    if c != '0' { InDigits(Decimal(n), c); }
  }

  lemma DatetimeIsRaw(dt: Datetime)
    ensures IsRaw(DatetimeText(dt)) && Normalise(DatetimeText(dt)) == DatetimeText(dt)
  {
    hide Decimal, Pad2, PadTo;
    forall c | c in DatetimeText(dt) ensures IsDigit(c) || c in {'.', ':', 'T'} {
      DatetimeChars(dt, c);
    }
    DigitsAreRaw(DatetimeText(dt));
  }

  lemma DatetimeChars(dt: Datetime, c: char)
    requires c in DatetimeText(dt)
    ensures IsDigit(c) || c in {'.', ':', 'T'}
  {
    hide Decimal, Pad2, PadTo;
    if c in Decimal(dt.Y) { InDigits(Decimal(dt.Y), c); }
    else if c in Pad2(dt.M) { PadIsDigits(dt.M, c); }
    else if c in Pad2(dt.D) { PadIsDigits(dt.D, c); }
    else if c in Pad2(dt.h) { PadIsDigits(dt.h, c); }
    else if c in Pad2(dt.m) { PadIsDigits(dt.m, c); }
    else if c in Pad2(dt.s) { PadIsDigits(dt.s, c); }
    else if c in PadTo(dt.u, 6) { InDigits(PadTo(dt.u, 6), c); }
  }

  lemma EncodedIsRaw(b: string)
    ensures IsRaw(Encode64(b))
  {
    hide EncodedLines;
    var t := Encode64(b);
    forall c | c in t ensures (' ' <= c <= '~' || c == CR || c == LF) && c !in {'<', '>', '&'} { EncodedChars(b, c); }
    LinesEnd(b, [CR, LF]);
  }

  lemma CrlfIsRaw()
    ensures IsRaw(CRLF) && Normalise(CRLF) == [LF]
  {
    assert CRLF[2..] == "";
  }

  // ---------------------------------------------------------------------
  // The markup of a value is well formed

  lemma {:induction false} ReadablePrints(v: Value)
    requires XmlReadable(v)
    ensures XmlPrintable(v)
    decreases v
  {
    match v
    case Array(items) => forall x | x in items ensures XmlPrintable(x) { ReadablePrints(x); }
    case Struct(members) => forall m | m in members ensures XmlPrintable(m.value) { ReadablePrints(m.value); }
    case _ =>
  }

  lemma NamesAreNames()
    ensures IsName("value") && IsName("i4") && IsName("i8") && IsName("ex:i8") && IsName("boolean") && IsName("double")
    ensures IsName("string") && IsName("base64") && IsName("array") && IsName("data") && IsName("struct")
    ensures IsName("member") && IsName("name") && IsName("nil") && IsName("ex:nil") && IsName("dateTime.iso8601")
  {}

  lemma SimpleWellFormed(name: string, text: string)
    requires IsName(name) && IsRaw(text)
    ensures AllWellFormed(Simple(name, text))
  {
    hide IsName, IsRaw;
    assert WellFormed(Raw(text));
    TagWellFormed(name, [Raw(text)]);
  }

  lemma TagWellFormed(name: string, content: seq<Markup>)
    requires IsName(name) && forall m :: m in content ==> WellFormed(m)
    ensures AllWellFormed([Tag(name, "", content)])
  {
    hide IsName;
    assert AllWellFormed(content);
    assert WellFormed(Tag(name, "", content));
  }

  lemma {:induction false} ContentWellFormed(v: Value, dialect: Dialect)
    requires XmlReadable(v) && XmlPrintable(v)
    ensures AllWellFormed(ContentOf(v, dialect))
    decreases v, 1
  {
    hide IsName, IsRaw, IsXmlText, ItemsMarkup, MembersMarkup, Signed, FloatText, DatetimeText, Printable, InRange;
    NamesAreNames();
    CrlfIsRaw();
    match v
    case Int(i) => SignedIsRaw(i); SimpleWellFormed("i4", Signed(i));
    case I8(i) =>
      SignedIsRaw(i);
      SimpleWellFormed(if dialect == ApacheDialect then "ex:i8" else "i8", Signed(i));
    case Bool(b) =>
      DigitsAreRaw(if b then "1" else "0");
      SimpleWellFormed("boolean", if b then "1" else "0");
    case Double(d) => FloatIsRaw(d); SimpleWellFormed("double", FloatText(d));
    case DateTime(dt) => DatetimeIsRaw(dt); SimpleWellFormed("dateTime.iso8601", DatetimeText(dt));
    case Str(s) =>
      assert WellFormed(Escaped(s));
      TagWellFormed("string", [Escaped(s)]);
    case Base64(bytes) =>
      EncodedIsRaw(bytes);
      assert WellFormed(Raw(CRLF)) && WellFormed(Raw(Encode64(bytes)));
      TagWellFormed("base64", [Raw(CRLF), Raw(Encode64(bytes))]);
    case Array(items) =>
      ItemsWellFormed(items, dialect);
      ContainerWellFormed("data", ItemsMarkup(items, dialect));
      TagWellFormed("array", [Tag("data", "", [Raw(CRLF)] + ItemsMarkup(items, dialect))]);
    case Struct(members) =>
      MembersWellFormed(members, dialect);
      ContainerWellFormed("struct", MembersMarkup(members, dialect));
    case Nil =>
  }

  lemma ContainerWellFormed(name: string, ms: seq<Markup>)
    requires IsName(name) && AllWellFormed(ms) && IsRaw(CRLF)
    ensures WellFormed(Tag(name, "", [Raw(CRLF)] + ms))
  {
    hide IsName, IsRaw;
    forall m | m in [Raw(CRLF)] + ms ensures WellFormed(m) {
      if m !in ms { assert m == Raw(CRLF); }
    }
  }

  lemma {:induction false} ItemsWellFormed(items: seq<Value>, dialect: Dialect)
    requires AllReadable(items) && AllPrintable(items)
    ensures AllWellFormed(ItemsMarkup(items, dialect))
    decreases items, 0
  {
    hide IsName, IsRaw, IsXmlText, ContentOf, XmlReadable, XmlPrintable;
    if items != [] {
      var n := |items| - 1;
      assert items[n] in items;
      ItemsWellFormed(items[..n], dialect);
      ContentWellFormed(items[n], dialect);
      NamesAreNames();
      CrlfIsRaw();
      assert WellFormed(Raw(CRLF)) && WellFormed(MarkupOf(items[n], dialect));
    }
  }

  lemma {:induction false} MembersWellFormed(members: seq<Member>, dialect: Dialect)
    requires MembersReadable(members) && MembersPrintable(members)
    ensures AllWellFormed(MembersMarkup(members, dialect))
    decreases members, 0
  {
    hide IsName, IsRaw, IsXmlText, ContentOf, XmlReadable, XmlPrintable;
    if members != [] {
      var n := |members| - 1;
      var m := members[n];
      assert m in members;
      MembersWellFormed(members[..n], dialect);
      ContentWellFormed(m.value, dialect);
      NamesAreNames();
      CrlfIsRaw();
      assert WellFormed(Raw(CRLF)) && WellFormed(MarkupOf(m.value, dialect));
      assert WellFormed(Escaped(m.key));
      assert WellFormed(Tag("name", "", [Escaped(m.key)]));
      assert WellFormed(MemberMarkup(m, dialect));
    }
  }

  // ---------------------------------------------------------------------
  // The parser takes the element back to the value

  /** The element of a value. */
  ghost function ValueElem(v: Value, dialect: Dialect): Elem
    requires XmlPrintable(v)
  {
    Elem("value", "", KidsOf(ContentOf(v, dialect)))
  }

  lemma NoLooseText(v: Value, dialect: Dialect)
    requires XmlPrintable(v)
    ensures TextOf(ContentOf(v, dialect)) == ""
  {
    hide ItemsMarkup, MembersMarkup, Signed, FloatText, DatetimeText;
    var ms := ContentOf(v, dialect);
    assert ms[1..] == [];
  }

  lemma SimpleKids(name: string, text: string)
    requires Normalise(text) == text
    ensures KidsOf(Simple(name, text)) == [Elem(name, text, [])]
  {
    var inner := [Raw(text)];
    assert inner[1..] == [] && Simple(name, text)[1..] == [];
    assert text + "" == text;
    assert KidsOf(inner) == [] && TextOf(inner) == text;
  }

  lemma OneChild(lib: Lib, maxRecursion: nat, child: Elem)
    requires maxRecursion >= 1 && child.name != "struct" && child.name != "array" && child.children == []
    ensures ElemValue(lib, maxRecursion, Elem("value", "", [child])) == SimpleValue(lib, child.name, child.cdata)
  {}

  lemma {:induction false} KidsSplit(a: seq<Markup>, b: seq<Markup>)
    ensures KidsOf(a + b) == KidsOf(a) + KidsOf(b)
  {
    if a == [] {
      assert a + b == b;
    } else {
      KidsSplit(a[1..], b);
      assert (a + b)[1..] == a[1..] + b;
    }
  }

  lemma KidsOfPiece(before: seq<Markup>, tag: Markup)
    requires tag.Tag?
    ensures KidsOf(before + [tag, Raw(CRLF)])
              == KidsOf(before) + [Elem(tag.name, TextOf(tag.content), KidsOf(tag.content))]
    ensures KidsOf([Raw(CRLF)] + before) == KidsOf(before)
  {
    KidsSplit(before, [tag, Raw(CRLF)]);
    KidsSplit([Raw(CRLF)], before);
    assert [tag, Raw(CRLF)][1..] == [Raw(CRLF)] && [Raw(CRLF)][1..] == [];
    assert KidsOf([Raw(CRLF)]) == [];
  }

  ghost function ItemElems(items: seq<Value>, dialect: Dialect): seq<Elem>
    requires AllPrintable(items)
  {
    KidsOf(ItemsMarkup(items, dialect))
  }

  ghost function MemberElems(members: seq<Member>, dialect: Dialect): seq<Elem>
    requires MembersPrintable(members)
  {
    KidsOf(MembersMarkup(members, dialect))
  }

  lemma ItemElemsStep(items: seq<Value>, dialect: Dialect)
    requires AllPrintable(items) && items != []
    ensures var n := |items| - 1;
      XmlPrintable(items[n])
      && ItemElems(items, dialect) == ItemElems(items[..n], dialect) + [ValueElem(items[n], dialect)]
  {
    hide ContentOf, XmlPrintable, KidsOf, TextOf;
    var n := |items| - 1;
    assert items[n] in items;
    NoLooseText(items[n], dialect);
    KidsOfPiece(ItemsMarkup(items[..n], dialect), MarkupOf(items[n], dialect));
  }

  ghost function MemberElem(m: Member, dialect: Dialect): Elem
    requires XmlPrintable(m.value)
  {
    Elem("member", [LF], [Elem("name", m.key, []), ValueElem(m.value, dialect)])
  }

  lemma MemberKids(m: Member, dialect: Dialect)
    requires XmlPrintable(m.value)
    ensures var t := MemberMarkup(m, dialect);
      Elem(t.name, TextOf(t.content), KidsOf(t.content)) == MemberElem(m, dialect)
  {
    hide ContentOf, XmlPrintable;
    var name, nl, value := Tag("name", "", [Escaped(m.key)]), Raw(CRLF), MarkupOf(m.value, dialect);
    var content := [name, nl, value];
    assert content[1..] == [nl, value] && [nl, value][1..] == [value] && [value][1..] == [];
    assert [Escaped(m.key)][1..] == [];
    assert m.key + "" == m.key;
    NoLooseText(m.value, dialect);
    CrlfIsRaw();
    assert TextOf([value]) == "" && TextOf([nl, value]) == [LF] + "" && TextOf(content) == [LF] + "";
    assert KidsOf([value]) == [ValueElem(m.value, dialect)] && KidsOf([nl, value]) == KidsOf([value]);
    assert KidsOf([Escaped(m.key)]) == [] && TextOf([Escaped(m.key)]) == m.key;
  }

  lemma MemberElemsStep(members: seq<Member>, dialect: Dialect)
    requires MembersPrintable(members) && members != []
    ensures var n := |members| - 1;
      XmlPrintable(members[n].value)
      && MemberElems(members, dialect) == MemberElems(members[..n], dialect) + [MemberElem(members[n], dialect)]
  {
    hide MemberMarkup, XmlPrintable, KidsOf, TextOf;
    var n := |members| - 1;
    assert members[n] in members;
    MemberKids(members[n], dialect);
    assert MemberMarkup(members[n], dialect).Tag? by { IsTag(members[n], dialect); }
    KidsOfPiece(MembersMarkup(members[..n], dialect), MemberMarkup(members[n], dialect));
  }

  lemma IsTag(m: Member, dialect: Dialect)
    requires XmlPrintable(m.value)
    ensures MemberMarkup(m, dialect).Tag?
  {}

  /** Parsing one more item after a list of items. */
  lemma {:induction false} ItemsThenOne(lib: Lib, maxRecursion: nat, es: seq<Elem>, e: Elem, done: seq<Value>)
    requires maxRecursion >= 1
    ensures var r := ItemValues(lib, maxRecursion, es, done);
      && (r.Ok? ==> r.value.Array?)
      && ItemValues(lib, maxRecursion, es + [e], done)
           == if r.Fault? then r
              else if e.name != "value" then Fault(ParseError)
              else match ElemValue(lib, maxRecursion - 1, e)
                case Fault(c) => Fault(c)
                case Ok(v) => Ok(Array(r.value.items + [v]))
    decreases |es|
  {
    hide ElemValue;
    if es == [] {
      assert es + [e] == [e] && [e][1..] == [];
    } else {
      assert (es + [e])[1..] == es[1..] + [e];
      if es[0].name == "value" && ElemValue(lib, maxRecursion - 1, es[0]).Ok? {
        ItemsThenOne(lib, maxRecursion, es[1..], e, done + [ElemValue(lib, maxRecursion - 1, es[0]).value]);
      }
    }
  }

  lemma {:induction false} MembersThenOne(lib: Lib, maxRecursion: nat, es: seq<Elem>, e: Elem, done: seq<Member>)
    requires maxRecursion >= 1
    ensures var r := MemberValues(lib, maxRecursion, es, done);
      && (r.Ok? ==> r.value.Struct?)
      && MemberValues(lib, maxRecursion, es + [e], done)
           == if r.Fault? then r else MemberValues(lib, maxRecursion, [e], r.value.members)
    decreases |es|
  {
    hide ElemValue, MemberKeyOf, FirstNamed, SetMember;
    if es == [] {
      assert es + [e] == [e];
    } else {
      assert (es + [e])[1..] == es[1..] + [e];
      if es[0].name == "member" && MemberKeyOf(es[0]).Ok? && FirstNamed(es[0].children, "value").Some? {
        var key := MemberKeyOf(es[0]).value.str;
        var v := ElemValue(lib, maxRecursion - 1, FirstNamed(es[0].children, "value").value);
        if v.Ok? {
          MembersThenOne(lib, maxRecursion, es[1..], e, SetMember(done, key, v.value));
        }
      }
    }
  }

  lemma OneMember(lib: Lib, maxRecursion: nat, m: Member, dialect: Dialect, done: seq<Member>)
    requires XmlPrintable(m.value) && maxRecursion >= 1
    ensures var r := ElemValue(lib, maxRecursion - 1, ValueElem(m.value, dialect));
      MemberValues(lib, maxRecursion, [MemberElem(m, dialect)], done)
        == if !ValidUtf8(m.key) then Fault(InvalidUtf8)
           else if r.Fault? then Fault(r.code)
           else Ok(Struct(SetMember(done, Normalise(m.key), r.value)))
  {
    hide ElemValue, ContentOf, SetMember, Normalise, XmlPrintable, KidsOf, ValidUtf8;
    var e := MemberElem(m, dialect);
    var name, value := Elem("name", m.key, []), ValueElem(m.value, dialect);
    assert e.children == [name, value] && [name, value][1..] == [value];
    assert FirstNamed([name, value], "name") == Some(name);
    assert FirstNamed([value], "value") == Some(value);
    assert FirstNamed([name, value], "value") == Some(value);
    assert [e][1..] == [];
  }

  lemma IntReadsBack(n: int)
    requires -0x8000_0000 <= n <= 0x7fff_ffff
    ensures IntValue(Signed(n)) == Some(Int(n))
  {
    DecimalRoundTrip(if n < 0 then -n else n);
    if n < 0 { assert Signed(n)[1..] == Decimal(-n); }
  }

  lemma I8ReadsBack(n: Int64)
    ensures I8Value(Signed(n)) == Some(I8(n))
  {
    SignedRoundTrip(n);
    assert n >= 0 ==> IsDigit(Signed(n)[0]);
  }

  lemma NumberReadsBack(lib: Lib, v: Value, dialect: Dialect, maxRecursion: nat)
    requires XmlPrintable(v) && XmlReadable(v) && maxRecursion >= 1
    requires v.Int? || v.I8? || v.Bool? || v.Double? || v.DateTime?
    ensures ElemValue(lib, maxRecursion, ValueElem(v, dialect)) == Ok(XmlNormal(v))
  {
    hide Signed, FloatText, DatetimeText, Printable, InRange, StrictDouble, IntValue, I8Value, ParseDatetime,
      KidsOf, TextOf, ElemValue, Normalise, IsXmlText;
    match v
    case Int(i) =>
      SignedIsRaw(i); SimpleKids("i4", Signed(i)); IntReadsBack(i);
      OneChild(lib, maxRecursion, Elem("i4", Signed(i), []));
    case I8(i) =>
      var name := if dialect == ApacheDialect then "ex:i8" else "i8";
      SignedIsRaw(i); SimpleKids(name, Signed(i)); I8ReadsBack(i);
      OneChild(lib, maxRecursion, Elem(name, Signed(i), []));
    case Bool(b) =>
      var text := if b then "1" else "0";
      DigitsAreRaw(text); SimpleKids("boolean", text);
      OneChild(lib, maxRecursion, Elem("boolean", text, []));
    case Double(d) =>
      FloatIsRaw(d); SimpleKids("double", FloatText(d));
      OneChild(lib, maxRecursion, Elem("double", FloatText(d), []));
    case DateTime(dt) =>
      DatetimeIsRaw(dt); SimpleKids("dateTime.iso8601", DatetimeText(dt)); GoodReadsBack(dt);
      OneChild(lib, maxRecursion, Elem("dateTime.iso8601", DatetimeText(dt), []));
  }

  lemma TextReadsBack(lib: Lib, v: Value, dialect: Dialect, maxRecursion: nat)
    requires XmlPrintable(v) && XmlReadable(v) && maxRecursion >= 1
    requires v.Str? || v.Base64? || v.Nil?
    ensures ElemValue(lib, maxRecursion, ValueElem(v, dialect)) == ReadResult(ReadFault(v, maxRecursion), XmlNormal(v))
  {
    hide KidsOf, TextOf, ElemValue, Normalise, IsXmlText, Encode64, Decode64, ValidUtf8;
    match v
    case Str(s) =>
      StringKids(s);
      OneChild(lib, maxRecursion, Elem("string", s, []));
    case Base64(bytes) =>
      Base64Kids(bytes);
      Base64RoundTrip(bytes);
      OneChild(lib, maxRecursion, Elem("base64", [LF] + Normalise(Encode64(bytes)), []));
    case Nil =>
      var name := if dialect == ApacheDialect then "ex:nil" else "nil";
      EmptyKids(name);
      OneChild(lib, maxRecursion, Elem(name, "", []));
  }

  lemma StringKids(s: string)
    ensures KidsOf([Tag("string", "", [Escaped(s)])]) == [Elem("string", s, [])]
  {
    var inner := [Escaped(s)];
    assert inner[1..] == [] && [Tag("string", "", inner)][1..] == [];
    assert s + "" == s;
    assert KidsOf(inner) == [] && TextOf(inner) == s;
  }

  lemma EmptyKids(name: string)
    ensures KidsOf([Empty(name)]) == [Elem(name, "", [])]
  {
    assert [Empty(name)][1..] == [];
  }

  lemma Base64Kids(bytes: string)
    ensures KidsOf([Tag("base64", "", [Raw(CRLF), Raw(Encode64(bytes))])])
              == [Elem("base64", [LF] + Normalise(Encode64(bytes)), [])]
  {
    hide Normalise;
    var inner, last := [Raw(CRLF), Raw(Encode64(bytes))], [Raw(Encode64(bytes))];
    CrlfIsRaw();
    assert inner[1..] == last && last[1..] == [] && [Tag("base64", "", inner)][1..] == [];
    assert Normalise(Encode64(bytes)) + "" == Normalise(Encode64(bytes));
    assert TextOf(last) == Normalise(Encode64(bytes));
    assert TextOf(inner) == [LF] + TextOf(last);
    assert inner[0] == Raw(CRLF) && KidsOf(inner) == KidsOf(inner[1..]);
    assert KidsOf(last) == [] && KidsOf(inner) == [];
  }

  ghost function ReadResult<T>(f: Option<FaultCode>, v: T): Result<T> { if f.Some? then Fault(f.value) else Ok(v) }

  /** For both dialects: the element printed for a value parses to the value in its
      normal form, or gives the first fault there is. */
  lemma {:induction false} ValueReadsBack(lib: Lib, v: Value, dialect: Dialect, maxRecursion: nat)
    requires XmlReadable(v) && XmlPrintable(v)
    ensures ElemValue(lib, maxRecursion, ValueElem(v, dialect)) == ReadResult(ReadFault(v, maxRecursion), XmlNormal(v))
    decreases v, 1
  {
    hide ItemsMarkup, MembersMarkup, KidsOf, ItemValues, MemberValues;
    if maxRecursion >= 1 {
      match v
      case Array(items) =>
        ItemsReadBack(lib, items, dialect, maxRecursion);
        ArrayKids(ItemsMarkup(items, dialect));
      case Struct(members) =>
        MembersReadBack(lib, members, dialect, maxRecursion);
        StructKids(MembersMarkup(members, dialect));
      case _ =>
        if v.Str? || v.Base64? || v.Nil? {
          TextReadsBack(lib, v, dialect, maxRecursion);
        } else {
          NumberReadsBack(lib, v, dialect, maxRecursion);
        }
    }
  }

  lemma ArrayKids(ms: seq<Markup>)
    ensures var es := KidsOf([Tag("array", "", [Tag("data", "", [Raw(CRLF)] + ms)])]);
      && |es| == 1 && es[0].name == "array" && |es[0].children| == 1
      && es[0].children[0].name == "data" && es[0].children[0].children == KidsOf(ms)
  {
    var data := Tag("data", "", [Raw(CRLF)] + ms);
    KidsOfPiece(ms, data);
    assert [data][1..] == [] && [Tag("array", "", [data])][1..] == [];
    assert KidsOf([data]) == [Elem("data", TextOf([Raw(CRLF)] + ms), KidsOf(ms))] + [];
  }

  lemma StructKids(ms: seq<Markup>)
    ensures var es := KidsOf([Tag("struct", "", [Raw(CRLF)] + ms)]);
      |es| == 1 && es[0].name == "struct" && es[0].children == KidsOf(ms)
  {
    var t := Tag("struct", "", [Raw(CRLF)] + ms);
    KidsOfPiece(ms, t);
    assert [t][1..] == [];
  }

  lemma {:induction false} ItemsReadBack(lib: Lib, items: seq<Value>, dialect: Dialect, maxRecursion: nat)
    requires AllReadable(items) && AllPrintable(items) && maxRecursion >= 1
    ensures ItemValues(lib, maxRecursion, ItemElems(items, dialect), [])
              == ReadResult(ItemsFault(items, maxRecursion - 1), Array(NormalItems(items)))
    decreases items, 0
  {
    hide XmlReadable, XmlPrintable, ContentOf, KidsOf, ElemValue, XmlNormal, ReadFault, ItemValues, ItemElems;
    if items != [] {
      var n := |items| - 1;
      assert items[n] in items;
      ItemsReadBack(lib, items[..n], dialect, maxRecursion);
      ItemElemsStep(items, dialect);
      ItemsThenOne(lib, maxRecursion, ItemElems(items[..n], dialect), ValueElem(items[n], dialect), []);
      ValueReadsBack(lib, items[n], dialect, maxRecursion - 1);
    } else {
      NoMarkup(lib, dialect, maxRecursion);
    }
  }

  lemma NoMarkup(lib: Lib, dialect: Dialect, maxRecursion: nat)
    requires maxRecursion >= 1
    ensures ItemElems([], dialect) == [] && MemberElems([], dialect) == []
    ensures ItemValues(lib, maxRecursion, [], []) == Ok(Array([])) && MemberValues(lib, maxRecursion, [], []) == Ok(Struct([]))
  {}

  lemma {:induction false} MembersReadBack(lib: Lib, members: seq<Member>, dialect: Dialect, maxRecursion: nat)
    requires MembersReadable(members) && MembersPrintable(members) && maxRecursion >= 1
    ensures MemberValues(lib, maxRecursion, MemberElems(members, dialect), [])
              == ReadResult(MembersFault(members, maxRecursion - 1), Struct(NormalMembers(members)))
    decreases members, 0
  {
    hide XmlReadable, XmlPrintable, ContentOf, KidsOf, ElemValue, XmlNormal, ReadFault, SetMember, IsXmlText, MemberValues, ValidUtf8,
      MemberElem, ValueElem, Normalise, MemberElems;
    if members != [] {
      var n := |members| - 1;
      assert members[n] in members;
      MembersReadBack(lib, members[..n], dialect, maxRecursion);
      MemberElemsStep(members, dialect);
      MembersThenOne(lib, maxRecursion, MemberElems(members[..n], dialect), MemberElem(members[n], dialect), []);
      if MembersFault(members[..n], maxRecursion - 1) == None {
        OneMember(lib, maxRecursion, members[n], dialect, NormalMembers(members[..n]));
      }
      ValueReadsBack(lib, members[n].value, dialect, maxRecursion - 1);
    } else {
      NoMarkup(lib, dialect, maxRecursion);
    }
  }

  /** The whole round trip, through the bytes. A document that holds the printed value is
      well formed. What it says parses if and only if the value is not too deep and its
      texts are valid, and then to the value in its normal form; if only the one is not
      so, the fault says which. */
  lemma XmlRoundTrip(lib: Lib, v: Value, dialect: Dialect, maxRecursion: nat)
    requires XmlReadable(v)
    ensures XmlPrintable(v)
    ensures var e := ReadXml(DocumentText(MarkupOf(v, dialect)));
      && e.Some?
      && var r := ElemValue(lib, maxRecursion, e.value);
         && r == ReadResult(ReadFault(v, maxRecursion), XmlNormal(v))
         && (r.Ok? <==> Depth(v) <= maxRecursion && TextsValid(v))
         && (r.Ok? ==> r.value == XmlNormal(v))
         && (Depth(v) <= maxRecursion && !TextsValid(v) ==> r == Fault(InvalidUtf8))
         && (Depth(v) > maxRecursion && TextsValid(v) ==> r == Fault(ParseError))
  {
    hide XmlReadable, ContentOf, KidsOf, TextOf, ElemValue, XmlNormal, Depth, DocumentText, ReadXml, IsName, TextsValid, ReadFault;
    ReadablePrints(v);
    ContentWellFormed(v, dialect);
    NamesAreNames();
    NoLooseText(v, dialect);
    DocumentReadsBack("value", "", ContentOf(v, dialect));
    ValueReadsBack(lib, v, dialect, maxRecursion);
    ReadFaultSplit(v, maxRecursion);
  }

  // ---------------------------------------------------------------------
  // What the normal form changes

  /** No CR in a text or key, no key twice in a struct, and only doubles that print
      exactly. */
  ghost predicate Stable(v: Value)
    decreases v, 0
  {
    match v
    case Str(s) => CR !in s
    case Double(d) => Printable(d) && StrictDouble(FloatText(d)) == Some(d)
    case Array(items) => forall x :: x in items ==> Stable(x)
    case Struct(members) => DistinctKeys(members) && forall m :: m in members ==> CR !in m.key && Stable(m.value)
    case _ => true
  }

  lemma {:induction false} SetLength(members: seq<Member>, key: string, value: Value)
    ensures |SetMember(members, key, value)| <= |members| + 1
    ensures |SetMember(members, key, value)| == |members| + 1 <==> forall m :: m in members ==> m.key != key
  {
    if members != [] {
      HeadAndTail(members);
      assert members == [members[0]] + members[1..];
      SetLength(members[1..], key, value);
    }
  }

  lemma {:induction false} NormalLength(members: seq<Member>)
    requires MembersReadable(members)
    ensures |NormalMembers(members)| <= |members|
    decreases |members|
  {
    hide XmlReadable, IsXmlText, XmlNormal, Normalise, SetMember;
    if members != [] {
      var n := |members| - 1;
      assert members[n] in members;
      NormalLength(members[..n]);
      SetLength(NormalMembers(members[..n]), Normalise(members[n].key), XmlNormal(members[n].value));
    }
  }

  ghost predicate EachSame(members: seq<Member>)
    requires MembersReadable(members)
  {
    DistinctKeys(members) && forall m :: m in members ==> Normalise(m.key) == m.key && XmlNormal(m.value) == m.value
  }

  lemma EachSameSplit(front: seq<Member>, last: Member)
    requires MembersReadable(front + [last]) && MembersReadable(front) && XmlReadable(last.value)
    ensures EachSame(front + [last]) <==>
              && EachSame(front) && Normalise(last.key) == last.key && XmlNormal(last.value) == last.value
              && forall m :: m in front ==> m.key != last.key
  {
    hide XmlReadable, IsXmlText, XmlNormal, Normalise;
    var all := front + [last];
    if EachSame(all) {
      assert all[|front|] == last && last in all;
      forall i, j | 0 <= i < j < |front| ensures front[i].key != front[j].key { assert all[i] == front[i] && all[j] == front[j]; }
      forall m | m in front ensures m.key != last.key && m in all {
        var i :| 0 <= i < |front| && front[i] == m;
        assert all[i] == m;
      }
    }
  }

  /** A list of members comes back unchanged just when each key and value does and no
      key occurs twice. */
  lemma {:induction false} MembersSame(members: seq<Member>)
    requires MembersReadable(members)
    ensures NormalMembers(members) == members <==> EachSame(members)
    decreases |members|
  {
    hide XmlReadable, IsXmlText, XmlNormal, Normalise, SetMember, EachSame;
    if members == [] {
      NoMembersSame(members);
    } else {
      var n := |members| - 1;
      var front, last := members[..n], members[n];
      assert last in members && members == front + [last];
      MembersSame(front);
      EachSameSplit(front, last);
      NormalLength(front);
      var key, value := Normalise(last.key), XmlNormal(last.value);
      SetLength(NormalMembers(front), key, value);
      if forall m :: m in NormalMembers(front) ==> m.key != key {
        SetNewMember(NormalMembers(front), key, value);
        LastSame(NormalMembers(front), front, Member(key, value), last);
      }
    }
  }

  lemma NoMembersSame(members: seq<Member>)
    requires members == []
    ensures MembersReadable(members) && EachSame(members)
  {}

  lemma LastSame(a: seq<Member>, b: seq<Member>, x: Member, y: Member)
    ensures a + [x] == b + [y] <==> a == b && x == y
  {
    if a + [x] == b + [y] {
      assert |a| == |b| && (a + [x])[..|a|] == a && (b + [y])[..|b|] == b;
      assert (a + [x])[|a|] == x && (b + [y])[|b|] == y;
    }
  }

  lemma {:induction false} ItemsSame(items: seq<Value>)
    requires AllReadable(items)
    ensures |NormalItems(items)| == |items|
    ensures NormalItems(items) == items <==> forall x :: x in items ==> XmlNormal(x) == x
    decreases |items|
  {
    hide XmlReadable, XmlNormal;
    if items != [] {
      var n := |items| - 1;
      assert items[n] in items && items == items[..n] + [items[n]];
      ItemsSame(items[..n]);
      if NormalItems(items) == items {
        assert NormalItems(items)[..n] == items[..n] && NormalItems(items)[n] == items[n];
      }
    }
  }

  /** Exactly the stable values come back unchanged. */
  lemma {:induction false} SameIffStable(v: Value)
    requires XmlReadable(v)
    ensures XmlNormal(v) == v <==> Stable(v)
    decreases v
  {
    hide IsXmlText, Normalise, InRange, Printable, FloatText, StrictDouble;
    match v
    case Str(s) => StaysIffCrFree(s);
    case Array(items) =>
      ItemsSame(items);
      forall x | x in items ensures XmlNormal(x) == x <==> Stable(x) { SameIffStable(x); }
    case Struct(members) =>
      MembersSame(members);
      forall m | m in members
        ensures (Normalise(m.key) == m.key <==> CR !in m.key) && (XmlNormal(m.value) == m.value <==> Stable(m.value))
      {
        StaysIffCrFree(m.key);
        SameIffStable(m.value);
      }
    case _ =>
  }
}
