/** The language of value elements, as a grammar of its own: every way to write a value,
what each means, and that the parser of xmlrpc-c/src/parse_value.c takes exactly these. */
module XmlSyntax {
  import opened Text
  import opened Base64Text
  import opened Utf8Text
  import opened Values
  import opened Lines
  import opened Doubles
  import opened NumeralForms
  import opened Datetimes
  import opened DatetimeForms
  import opened XmlReader
  import opened XmlReadBack
  import opened XmlGrammar

  /** A value element as it can be written. Character data around elements is ignored;
      a member may give its value before its name. */
  datatype Syntax =
    | Untyped(text: string)
    | Typed(outer: string, name: string, text: string)
    | ArrayX(outer: string, around: string, inner: string, items: seq<Syntax>)
    | StructX(outer: string, around: string, members: seq<MemberX>)

  datatype MemberX = MemberX(around: string, keyFirst: bool, key: string, value: Syntax)

  function Spelled(x: Syntax): Elem
    decreases x, 0
  {
    match x
    case Untyped(text) => Elem("value", text, [])
    case Typed(outer, name, text) => Elem("value", outer, [Elem(name, text, [])])
    case ArrayX(outer, around, inner, items) =>
      Elem("value", outer, [Elem("array", around, [Elem("data", inner, SpelledAll(items))])])
    case StructX(outer, around, members) => Elem("value", outer, [Elem("struct", around, SpelledMembers(members))])
  }

  function SpelledAll(xs: seq<Syntax>): (es: seq<Elem>)
    ensures |es| == |xs|
    decreases xs, 0
  {
    if xs == [] then [] else [Spelled(xs[0])] + SpelledAll(xs[1..])
  }

  function SpelledMember(m: MemberX): Elem
    decreases m, 0
  {
    var key, value := Elem("name", m.key, []), Spelled(m.value);
    Elem("member", m.around, if m.keyFirst then [key, value] else [value, key])
  }

  function SpelledMembers(ms: seq<MemberX>): (es: seq<Elem>)
    ensures |es| == |ms|
    decreases ms, 0
  {
    if ms == [] then [] else [SpelledMember(ms[0])] + SpelledMembers(ms[1..])
  }

  /** `text` stands for the string `s`: legal characters of UCS-2, with line delimiters
      as LF. */
  ghost predicate IsText(text: string, s: string) { ValidUtf8(text) && s == Normalise(text) }

  /** What a simple element with this name and text can mean, by the types of values. */
  ghost predicate Means(lib: Lib, name: string, text: string, v: Value) {
    match v
    case Int(i) => name in {"int", "i4", "i1", "i2", "ex:i1", "ex:i2"} && IsNumeral(text, i)
    case I8(i) => name in {"i8", "ex:i8"} && IsNumeral(text, i)
    case Bool(b) => name == "boolean" && text == if b then "1" else "0"
    case Double(d) => name == "double" && IsDouble(lib, text, d)
    case DateTime(dt) => name == "dateTime.iso8601" && IsDatetime(text, dt)
    case Str(s) => name == "string" && IsText(text, s)
    case Base64(bytes) => name == "base64" && Decode64(text) == Some(bytes)
    case Nil => name in {"nil", "ex:nil"}
    case _ => false
  }

  /** A decimal within the range of doubles, or else whatever strtod() takes it for. */
  ghost predicate IsDouble(lib: Lib, text: string, d: real) {
    var max := MaxDouble();
    (IsSignedDecimal(text, d) && -max <= d <= max)
    || ((forall x :: IsSignedDecimal(text, x) ==> !(-max <= x <= max)) && lib.strtod(text) == Some(d))
  }

  /** `x` means `v`. Of two members with equal keys the later one counts, at the place of
      the first. */
  ghost predicate Denotes(lib: Lib, x: Syntax, v: Value)
    decreases x, 0
  {
    match x
    case Untyped(text) => v.Str? && IsText(text, v.str)
    case Typed(_, name, text) => Means(lib, name, text, v)
    case ArrayX(_, _, _, items) => v.Array? && AllDenote(lib, items, v.items)
    case StructX(_, _, members) => v.Struct? && MembersDenote(lib, members, v.members)
  }

  ghost predicate AllDenote(lib: Lib, xs: seq<Syntax>, vs: seq<Value>)
    decreases xs, 0
  {
    |xs| == |vs| && forall i :: 0 <= i < |xs| ==> Denotes(lib, xs[i], vs[i])
  }

  ghost predicate MembersDenote(lib: Lib, ms: seq<MemberX>, members: seq<Member>)
    decreases ms, 1
  {
    exists named: seq<Member> :: EachDenotes(lib, ms, named) && members == AllSet([], named)
  }

  ghost predicate EachDenotes(lib: Lib, ms: seq<MemberX>, named: seq<Member>)
    decreases ms, 0
  {
    |ms| == |named| && forall i :: 0 <= i < |ms| ==> IsText(ms[i].key, named[i].key) && Denotes(lib, ms[i].value, named[i].value)
  }

  /** How deep the value elements nest. */
  function Height(x: Syntax): (h: nat)
    ensures h >= 1
    decreases x, 0
  {
    match x
    case ArrayX(_, _, _, items) => 1 + HeightAll(items)
    case StructX(_, _, members) => 1 + HeightMembers(members)
    case _ => 1
  }

  function HeightAll(xs: seq<Syntax>): nat
    decreases xs, 0
  {
    if xs == [] then 0 else if Height(xs[0]) > HeightAll(xs[1..]) then Height(xs[0]) else HeightAll(xs[1..])
  }

  function HeightMembers(ms: seq<MemberX>): nat
    decreases ms, 0
  {
    if ms == [] then 0
    else if Height(ms[0].value) > HeightMembers(ms[1..]) then Height(ms[0].value) else HeightMembers(ms[1..])
  }

  // ---------------------------------------------------------------------
  // Simple elements

  lemma IntExact(s: string, i: Int32)
    ensures IntValue(s) == Some(Int(i)) <==> IsNumeral(s, i)
  {
    hide DecimalValue;
    NumeralIsRead(s, i);
  }

  lemma I8Exact(s: string, i: Int64)
    ensures I8Value(s) == Some(I8(i)) <==> IsNumeral(s, i)
  {
    hide ParseInt64;
    if s != "" && !IsSpace(s[0]) {
      Int64Exact(s, i);
    } else if IsNumeral(s, i) {
      NumeralStarts(s, i);
    }
  }

  lemma NumeralStarts(s: string, n: int)
    requires IsNumeral(s, n)
    ensures s != "" && !IsSpace(s[0])
  {
    var digits :| NumeralOf(s, n, digits);
    assert IsDigit(digits[0]);
  }

  lemma DoubleExact(lib: Lib, s: string, d: real)
    ensures DoubleOf(lib, s) == Some(Double(d)) <==> IsDouble(lib, s, d)
  {
    hide StrictDouble, IsSignedDecimal, MaxDouble;
    StrictDoubleExact(s, d);
    match StrictDouble(s)
    case Some(x) => StrictDoubleExact(s, x);
    case None =>
      forall x ensures IsSignedDecimal(s, x) ==> !(-MaxDouble() <= x <= MaxDouble()) { StrictDoubleExact(s, x); }
  }

  lemma NumberExact(lib: Lib, name: string, text: string, v: Value)
    requires v.Int? || v.I8? || v.Bool? || v.Double?
    ensures SimpleValue(lib, name, text) == Ok(v) <==> Means(lib, name, text, v)
  {
    hide IntValue, I8Value, DoubleOf, ParseDatetime, Decode64, NewString, IsDouble, IsNumeral;
    TypesOfReaders(lib, text);
    match v
    case Int(i) => IntExact(text, i);
    case I8(i) => I8Exact(text, i);
    case Double(d) => DoubleExact(lib, text, d);
    case _ =>
  }

  lemma TextExact(lib: Lib, name: string, text: string, v: Value)
    requires v.DateTime? || v.Str? || v.Base64? || v.Nil?
    ensures SimpleValue(lib, name, text) == Ok(v) <==> Means(lib, name, text, v)
  {
    hide IntValue, I8Value, DoubleOf, ParseDatetime, IsDatetime, Decode64, NewString, ValidUtf8, Normalise;
    TypesOfReaders(lib, text);
    if v.DateTime? { DatetimeExact(text, v.dt); }
  }

  /** parseSimpleValueCdata() takes what an element can mean, by its name, and nothing
      else. */
  lemma SimpleExact(lib: Lib, name: string, text: string, v: Value)
    ensures SimpleValue(lib, name, text) == Ok(v) <==> Means(lib, name, text, v)
  {
    hide SimpleValue, Means;
    if v.Int? || v.I8? || v.Bool? || v.Double? {
      NumberExact(lib, name, text, v);
    } else if v.DateTime? || v.Str? || v.Base64? || v.Nil? {
      TextExact(lib, name, text, v);
    } else {
      NothingElse(lib, name, text, v);
    }
  }

  lemma NothingElse(lib: Lib, name: string, text: string, v: Value)
    requires v.Array? || v.Struct? || v.CPtr? || v.Dead?
    ensures SimpleValue(lib, name, text) != Ok(v) && !Means(lib, name, text, v)
  {
    hide IntValue, I8Value, DoubleOf, ParseDatetime, Decode64, ValidUtf8, Normalise;
    TypesOfReaders(lib, text);
  }

  /** Each reader makes values of its own type. */
  lemma TypesOfReaders(lib: Lib, s: string)
    ensures IntValue(s).Some? ==> IntValue(s).value.Int?
    ensures I8Value(s).Some? ==> I8Value(s).value.I8?
    ensures DoubleOf(lib, s).Some? ==> DoubleOf(lib, s).value.Double?
    ensures NewString(s) == if ValidUtf8(s) then Ok(Str(Normalise(s))) else Fault(InvalidUtf8)
  {
    hide ParseInt64, StrictDouble, DecimalValue, ValidUtf8, Normalise;
  }

  // ---------------------------------------------------------------------
  // What is written is read

  lemma {:induction false} WrittenIsRead(lib: Lib, n: nat, x: Syntax, v: Value)
    requires Denotes(lib, x, v) && Height(x) <= n
    ensures ElemValue(lib, n, Spelled(x)) == Ok(v)
    decreases x, 1
  {
    hide SimpleValue, Means, SpelledAll, SpelledMembers, HeightAll, HeightMembers, ItemValues, MemberValues, AllDenote, MembersDenote,
      ValidUtf8, Normalise;
    match x
    case Untyped(text) =>
    case Typed(_, name, text) =>
      SimpleExact(lib, name, text, v);
      SimpleName(lib, name, text, v);
    case ArrayX(_, _, inner, items) =>
      ItemsWritten(lib, n, items, v.items, []);
      assert [] + v.items == v.items;
    case StructX(_, _, members) =>
      var named := MembersNamed(lib, members, v.members);
      MembersWritten(lib, n, members, named, []);
  }

  lemma SimpleName(lib: Lib, name: string, text: string, v: Value)
    requires Means(lib, name, text, v)
    ensures name != "struct" && name != "array"
  {
    hide IsDouble, IsNumeral, IsDatetime, IsText, Decode64;
  }

  lemma MembersNamed(lib: Lib, ms: seq<MemberX>, members: seq<Member>) returns (named: seq<Member>)
    requires MembersDenote(lib, ms, members)
    ensures EachDenotes(lib, ms, named) && members == AllSet([], named)
  {
    hide EachDenotes, AllSet;
    named :| EachDenotes(lib, ms, named) && members == AllSet([], named);
  }

  lemma SpelledIsValue(x: Syntax)
    ensures Spelled(x).name == "value"
  {}

  lemma {:induction false} ItemsWritten(lib: Lib, n: nat, xs: seq<Syntax>, vs: seq<Value>, done: seq<Value>)
    requires AllDenote(lib, xs, vs) && HeightAll(xs) <= n - 1
    ensures ItemValues(lib, n, SpelledAll(xs), done) == Ok(Array(done + vs))
    decreases xs, 0
  {
    hide Denotes, Height, Spelled, ElemValue;
    if xs == [] {
      assert done + vs == done;
    } else {
      SpelledIsValue(xs[0]);
      WrittenIsRead(lib, n - 1, xs[0], vs[0]);
      ItemsWritten(lib, n, xs[1..], vs[1..], done + [vs[0]]);
      assert (done + [vs[0]]) + vs[1..] == done + vs;
      assert SpelledAll(xs)[1..] == SpelledAll(xs[1..]);
    }
  }

  lemma MemberIsRead(m: MemberX)
    ensures var e := SpelledMember(m);
      MemberKeyOf(e) == NewString(m.key) && FirstNamed(e.children, "value") == Some(Spelled(m.value))
  {
    hide Spelled, NewString;
    SpelledIsValue(m.value);
    var key, value := Elem("name", m.key, []), Spelled(m.value);
    assert [key, value][1..] == [value] && [value, key][1..] == [key];
    assert FirstNamed([key], "name") == Some(key) && FirstNamed([value], "value") == Some(value);
    assert FirstNamed([key, value], "name") == Some(key) && FirstNamed([value, key], "name") == Some(key);
    assert FirstNamed([key, value], "value") == Some(value) && FirstNamed([value, key], "value") == Some(value);
  }

  lemma {:induction false} MembersWritten(lib: Lib, n: nat, ms: seq<MemberX>, named: seq<Member>, done: seq<Member>)
    requires EachDenotes(lib, ms, named) && HeightMembers(ms) <= n - 1
    ensures MemberValues(lib, n, SpelledMembers(ms), done) == Ok(Struct(AllSet(done, named)))
    decreases ms, 0
  {
    hide Denotes, Height, Spelled, ElemValue, MemberKeyOf, FirstNamed, SetMember, ValidUtf8, Normalise;
    if ms != [] {
      MemberIsRead(ms[0]);
      WrittenIsRead(lib, n - 1, ms[0].value, named[0].value);
      MembersWritten(lib, n, ms[1..], named[1..], SetMember(done, named[0].key, named[0].value));
      assert SpelledMembers(ms)[1..] == SpelledMembers(ms[1..]);
    }
  }

  // ---------------------------------------------------------------------
  // What is read was written so

  lemma {:induction false} ReadWasWritten(lib: Lib, n: nat, e: Elem, v: Value) returns (x: Syntax)
    requires ElemValue(lib, n, e) == Ok(v)
    ensures Spelled(x) == e && Denotes(lib, x, v) && Height(x) <= n
    decreases e, 3
  {
    hide SimpleValue, Means, SpelledAll, SpelledMembers, HeightAll, HeightMembers, ItemValues, MemberValues, AllDenote, MembersDenote,
      ValidUtf8, Normalise;
    if e.children == [] {
      x := Untyped(e.cdata);
    } else {
      var child := e.children[0];
      assert e.children == [child];
      if child.name == "struct" {
        var ms, named := MembersRead(lib, n, child.children, [], v);
        x := StructX(e.cdata, child.cdata, ms);
        NamedDenote(lib, ms, named, v.members);
      } else if child.name == "array" {
        var data := child.children[0];
        assert child.children == [data];
        var xs := ItemsRead(lib, n, data.children, [], v);
        x := ArrayX(e.cdata, child.cdata, data.cdata, xs);
        assert v.items[0..] == v.items;
      } else {
        assert child == Elem(child.name, child.cdata, []);
        SimpleExact(lib, child.name, child.cdata, v);
        x := Typed(e.cdata, child.name, child.cdata);
      }
    }
  }

  lemma NamedDenote(lib: Lib, ms: seq<MemberX>, named: seq<Member>, members: seq<Member>)
    requires EachDenotes(lib, ms, named) && members == AllSet([], named)
    ensures MembersDenote(lib, ms, members)
  {
    hide EachDenotes, AllSet;
  }

  lemma {:induction false} ItemsRead(lib: Lib, n: nat, es: seq<Elem>, done: seq<Value>, v: Value) returns (xs: seq<Syntax>)
    requires n >= 1 && ItemValues(lib, n, es, done) == Ok(v)
    ensures v.Array? && |done| <= |v.items| && v.items[..|done|] == done
    ensures SpelledAll(xs) == es && AllDenote(lib, xs, v.items[|done|..]) && HeightAll(xs) <= n - 1
    decreases es, 0
  {
    hide Denotes, Height, Spelled, ElemValue;
    if es == [] {
      xs := [];
    } else {
      var item := ElemValue(lib, n - 1, es[0]).value;
      var x := ReadWasWritten(lib, n - 1, es[0], item);
      var rest := ItemsRead(lib, n, es[1..], done + [item], v);
      xs := [x] + rest;
      assert xs[1..] == rest && es == [es[0]] + es[1..];
      var k := |done|;
      assert v.items[..k] == v.items[..k + 1][..k] == done && v.items[k] == v.items[..k + 1][k] == item;
      assert v.items[k..] == [item] + v.items[k + 1..];
    }
  }

  lemma MemberWasWritten(lib: Lib, e: Elem, value: Elem, x: Syntax) returns (m: MemberX)
    requires e.name == "member" && MemberKeyOf(e).Ok? && FirstNamed(e.children, "value") == Some(value) && Spelled(x) == value
    ensures SpelledMember(m) == e && m.value == x && IsText(m.key, MemberKeyOf(e).value.str)
  {
    hide Spelled, ValidUtf8, Normalise;
    var key := FirstNamed(e.children, "name").value;
    TwoNamed(e.children, key, value);
    var keyFirst := e.children[0] == key;
    m := MemberX(e.cdata, keyFirst, key.cdata, x);
    assert key == Elem("name", key.cdata, []);
  }

  lemma TwoNamed(es: seq<Elem>, key: Elem, value: Elem)
    requires |es| == 2 && FirstNamed(es, "name") == Some(key) && FirstNamed(es, "value") == Some(value)
    ensures es == [key, value] || es == [value, key]
  {
    assert key.name == "name" && value.name == "value";
    assert es == [es[0], es[1]] && es[1..] == [es[1]] && es[1..][1..] == [];
  }

  lemma {:induction false} MembersRead(lib: Lib, n: nat, es: seq<Elem>, done: seq<Member>, v: Value)
    returns (ms: seq<MemberX>, named: seq<Member>)
    requires n >= 1 && MemberValues(lib, n, es, done) == Ok(v)
    ensures v.Struct? && SpelledMembers(ms) == es && EachDenotes(lib, ms, named) && v.members == AllSet(done, named)
    ensures HeightMembers(ms) <= n - 1
    decreases es, 0
  {
    hide Denotes, Height, Spelled, ElemValue, MemberKeyOf, FirstNamed, SetMember, IsText, SpelledMember;
    if es == [] {
      ms, named := [], [];
    } else {
      var key, e := MemberKeyOf(es[0]).value.str, FirstNamed(es[0].children, "value").value;
      SmallerChild(es, e);
      var value := ElemValue(lib, n - 1, e).value;
      var x := ReadWasWritten(lib, n - 1, e, value);
      var m := MemberWasWritten(lib, es[0], e, x);
      var rest, others := MembersRead(lib, n, es[1..], SetMember(done, key, value), v);
      ms, named := [m] + rest, [Member(key, value)] + others;
      assert ms[1..] == rest && named[1..] == others && es == [es[0]] + es[1..];
    }
  }

  lemma SmallerChild(es: seq<Elem>, e: Elem)
    requires es != [] && e in es[0].children
    ensures e < es[0]
  {}

  /** `e` is a way to write `v`. */
  ghost predicate IsWritten(lib: Lib, maxRecursion: nat, e: Elem, v: Value) {
    exists x :: Spelled(x) == e && Denotes(lib, x, v) && Height(x) <= maxRecursion
  }

  /** The parser takes exactly the value elements of this grammar that nest no deeper than
      allowed, and each as what it means. */
  lemma ParsesExactly(lib: Lib, maxRecursion: nat, e: Elem, v: Value)
    ensures ElemValue(lib, maxRecursion, e) == Ok(v) <==> IsWritten(lib, maxRecursion, e, v)
  {
    hide ElemValue, Spelled, Denotes, Height;
    if ElemValue(lib, maxRecursion, e) == Ok(v) { var x := ReadWasWritten(lib, maxRecursion, e, v); }
    if IsWritten(lib, maxRecursion, e, v) {
      var x :| Spelled(x) == e && Denotes(lib, x, v) && Height(x) <= maxRecursion;
      WrittenIsRead(lib, maxRecursion, x, v);
    }
  }

  // ---------------------------------------------------------------------
  // What is refused

  /** Every text in the element is one of UCS-2 characters. */
  ghost predicate TextsOk(e: Elem)
    decreases e
  {
    ValidUtf8(e.cdata) && forall c :: c in e.children ==> TextsOk(c)
  }

  ghost predicate RefusedAs(r: Result<Value>, textsOk: bool) {
    r.Fault? ==> r.code == ParseError || (r.code == InvalidUtf8 && !textsOk)
  }

  lemma SimpleRefused(lib: Lib, name: string, text: string)
    ensures RefusedAs(SimpleValue(lib, name, text), ValidUtf8(text))
  {
    hide IntValue, I8Value, DoubleOf, ParseDatetime, Decode64, ValidUtf8, Normalise;
  }

  /** What is refused is a parse fault, or an invalid text where there is one. */
  lemma {:induction false} RefusedCode(lib: Lib, n: nat, e: Elem)
    ensures RefusedAs(ElemValue(lib, n, e), TextsOk(e))
    decreases e, 3
  {
    hide SimpleValue, ItemValues, MemberValues, ValidUtf8, Normalise;
    if n >= 1 && |e.children| == 1 {
      var child := e.children[0];
      assert TextsOk(e) ==> TextsOk(child);
      if child.name == "struct" {
        MembersRefused(lib, n, child.children, []);
      } else if child.name == "array" {
        if |child.children| == 1 {
          var data := child.children[0];
          assert TextsOk(child) ==> TextsOk(data);
          ItemsRefused(lib, n, data.children, []);
        }
      } else {
        SimpleRefused(lib, child.name, child.cdata);
      }
    }
  }

  lemma {:induction false} ItemsRefused(lib: Lib, n: nat, es: seq<Elem>, done: seq<Value>)
    requires n >= 1
    ensures RefusedAs(ItemValues(lib, n, es, done), forall e :: e in es ==> TextsOk(e))
    decreases es, 0
  {
    hide ElemValue, TextsOk;
    if es != [] {
      HeadAndTail(es);
      RefusedCode(lib, n - 1, es[0]);
      var r := ElemValue(lib, n - 1, es[0]);
      if r.Ok? { ItemsRefused(lib, n, es[1..], done + [r.value]); }
    }
  }

  lemma KeyRefused(e: Elem)
    ensures var r := MemberKeyOf(e); r.Fault? ==> r.code == ParseError || (r.code == InvalidUtf8 && !TextsOk(e))
  {
    hide ValidUtf8, Normalise, FirstNamed;
    if FirstNamed(e.children, "name").Some? {
      var name := FirstNamed(e.children, "name").value;
      assert TextsOk(e) ==> TextsOk(name);
    }
  }

  lemma {:induction false} MembersRefused(lib: Lib, n: nat, es: seq<Elem>, done: seq<Member>)
    requires n >= 1
    ensures RefusedAs(MemberValues(lib, n, es, done), forall e :: e in es ==> TextsOk(e))
    decreases es, 0
  {
    hide ElemValue, MemberKeyOf, FirstNamed, SetMember, ValidUtf8;
    if es != [] {
      HeadAndTail(es);
      KeyRefused(es[0]);
      var value := FirstNamed(es[0].children, "value");
      if MemberKeyOf(es[0]).Ok? && value.Some? {
        SmallerChild(es, value.value);
        assert TextsOk(es[0]) ==> TextsOk(value.value);
        RefusedCode(lib, n - 1, value.value);
        var r := ElemValue(lib, n - 1, value.value);
        if r.Ok? { MembersRefused(lib, n, es[1..], SetMember(done, MemberKeyOf(es[0]).value.str, r.value)); }
      }
    }
  }

  /** Of the items of an array the first bad one tells the fault. */
  lemma {:induction false} FirstBadItem(lib: Lib, n: nat, es: seq<Elem>, k: nat, done: seq<Value>)
    requires n >= 1 && k < |es| && forall i :: 0 <= i < k ==> es[i].name == "value" && ElemValue(lib, n - 1, es[i]).Ok?
    requires ElemValue(lib, n - 1, es[k]).Fault?
    ensures ItemValues(lib, n, es, done) == Fault(ElemValue(lib, n - 1, es[k]).code)
    decreases es
  {
    if es[0].name != "value" {
      OnlyValues(lib, n - 1, es[k]);
    } else if k > 0 {
      hide ElemValue;
      FirstBadItem(lib, n, es[1..], k - 1, done + [ElemValue(lib, n - 1, es[0]).value]);
    }
  }

  lemma OnlyValues(lib: Lib, n: nat, e: Elem)
    requires e.name != "value"
    ensures ElemValue(lib, n, e) == Fault(ParseError)
  {}

  /** Why a member is bad: it is no member element with a name and a value, or its name or
      else its value is bad. */
  ghost predicate BadMember(lib: Lib, n: nat, e: Elem, c: FaultCode) {
    var name, value := FirstNamed(e.children, "name"), FirstNamed(e.children, "value");
    if e.name != "member" || |e.children| != 2 || name.None? || name.value.children != [] then c == ParseError
    else if !ValidUtf8(name.value.cdata) then c == InvalidUtf8
    else if value.None? then c == ParseError
    else ElemValue(lib, n, value.value) == Fault(c)
  }

  /** A member with a name and a value that are both read. */
  ghost predicate GoodMember(lib: Lib, n: nat, e: Elem) {
    var name, value := FirstNamed(e.children, "name"), FirstNamed(e.children, "value");
    && e.name == "member" && |e.children| == 2 && name.Some? && name.value.children == [] && ValidUtf8(name.value.cdata)
    && value.Some? && ElemValue(lib, n, value.value).Ok?
  }

  /** Of the members of a struct the first bad one tells the fault. */
  lemma {:induction false} FirstBadMember(lib: Lib, n: nat, es: seq<Elem>, k: nat, c: FaultCode, done: seq<Member>)
    requires n >= 1 && k < |es| && BadMember(lib, n - 1, es[k], c)
    requires forall i :: 0 <= i < k ==> GoodMember(lib, n - 1, es[i])
    ensures MemberValues(lib, n, es, done) == Fault(c)
    decreases es
  {
    hide ElemValue, ValidUtf8, Normalise, SetMember;
    if k > 0 {
      assert GoodMember(lib, n - 1, es[0]);
      var key := Normalise(FirstNamed(es[0].children, "name").value.cdata);
      var value := ElemValue(lib, n - 1, FirstNamed(es[0].children, "value").value).value;
      FirstBadMember(lib, n, es[1..], k - 1, c, SetMember(done, key, value));
    }
  }

  /** Of the simple elements only a string has the UTF-8 fault. */
  lemma SimpleFault(lib: Lib, name: string, text: string)
    ensures SimpleValue(lib, name, text) == Fault(InvalidUtf8) <==> name == "string" && !ValidUtf8(text)
  {
    hide IntValue, I8Value, DoubleOf, ParseDatetime, Decode64, ValidUtf8, Normalise;
  }

  // ---------------------------------------------------------------------
  // A value without a type

  /** An untyped value is a string: it means what the typed one means, or is refused the
      same. */
  lemma UntypedIsString(lib: Lib, maxRecursion: nat, text: string, outer: string)
    ensures ElemValue(lib, maxRecursion, Elem("value", text, []))
              == ElemValue(lib, maxRecursion, Elem("value", outer, [Elem("string", text, [])]))
    ensures maxRecursion >= 1 ==>
              ElemValue(lib, maxRecursion, Elem("value", text, []))
                == if ValidUtf8(text) then Ok(Str(Normalise(text))) else Fault(InvalidUtf8)
  {
    hide ValidUtf8, Normalise;
  }

  /** The same from the bytes of the document. */
  lemma UntypedReadsBack(lib: Lib, maxRecursion: nat, text: string)
    requires IsXmlText(text) && maxRecursion >= 1
    ensures var e := ReadXml(DocumentText(Tag("value", "", [Escaped(text)])));
      e.Some? && ElemValue(lib, maxRecursion, e.value) == if ValidUtf8(text) then Ok(Str(Normalise(text))) else Fault(InvalidUtf8)
  {
    hide ValidUtf8, Normalise, IsXmlText, ReadXml, DocumentText, ElemValue;
    var content := [Escaped(text)];
    assert content[1..] == [] && text + "" == text;
    assert TextOf(content) == text && KidsOf(content) == [];
    assert WellFormed(Escaped(text)) && AllWellFormed(content);
    DocumentReadsBack("value", "", content);
    UntypedIsString(lib, maxRecursion, text, "");
  }
}
