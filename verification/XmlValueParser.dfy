/** The parser of xmlrpc-c/src/parse_value.c, which builds reference-counted values
from XML elements. */
module XmlValueParser {
  import opened Text
  import opened Base64Text
  import opened Utf8Text
  import opened Values
  import opened Cells
  import opened Structs
  import opened ValueStores
  import opened Trees
  import opened Lines
  import opened Doubles
  import opened Datetimes
  import opened XmlReader
  import opened XmlGrammar

  /** The result of parsing a value. */
  ghost predicate Outcome(p: Result<Value>, base: Memory, held: multiset<Id>, now: Memory, held': multiset<Id>, r: Result<Id>) {
    && (p.Fault? <==> r.Fault?) && (p.Fault? ==> r == Fault(p.code))
    && Alone(if p.Ok? then Some(p.value) else None, base, held, now, held', if r.Ok? then Some(r.value) else None)
  }

  lemma FaultOutcome(base: Memory, held: multiset<Id>, code: FaultCode)
    ensures Outcome(Fault(code), base, held, base, held, Fault(code))
  {
    StartsGrown(base);
  }

  /** stringNew(), which copies with the line delimiters normalised if there is a CR. */
  method StringText(s: string) returns (r: Option<string>)
    ensures r == if ValidUtf8(s) then Some(Normalise(s)) else None
  {
    var characters := DecodeUtf8(s);
    if characters.None? { return None; }
    if CR in s {
      var src := new char[|s| + 1](i => if 0 <= i < |s| then s[i] else '\0');
      var dst, size := CopyLines(src, |s|);
      assert src[..|s|] == s;
      assert dst[..size - 1] == dst[..size][..size - 1] == Normalise(s);
      r := Some(dst[..size - 1]);
    } else {
      CrFreeStays(s);
      r := Some(s);
    }
  }

  /** xmlrpc_string_new_lp() */
  method StringNewLp(s: string, store: ValueStore) returns (r: Result<Id>)
    requires store.Valid()
    modifies store
    ensures store.Valid()
    ensures Outcome(NewString(s), old(store.mem), old(store.held), store.mem, store.held, r)
    ensures r.Ok? ==> IsString(store.mem, r.value) && KeyText(store.mem, r.value) == Normalise(s)
  {
    hide Sound, Alone;
    var text := StringText(s);
    if text.None? {
      FaultOutcome(store.mem, store.held, InvalidUtf8);
      return Fault(InvalidUtf8);
    }
    LeafAlone(store.mem, store.held, Str(text.value));
    var id := store.New(Leaf(Str(text.value)));
    r := Ok(id);
  }

  /** A scalar of a simple element, or a parse fault. */
  method NewScalar(v: Option<Scalar>, store: ValueStore) returns (r: Result<Id>)
    requires store.Valid()
    modifies store
    ensures store.Valid()
    ensures Outcome(AsResult(v), old(store.mem), old(store.held), store.mem, store.held, r)
  {
    hide Sound, Alone, Create;
    match v {
      case None =>
        FaultOutcome(store.mem, store.held, ParseError);
        r := Fault(ParseError);
      case Some(x) =>
        LeafAlone(store.mem, store.held, x);
        var id := store.New(Leaf(x));
        r := Ok(id);
    }
  }

  /** parseDouble() */
  method ParseDouble(lib: Lib, s: string, store: ValueStore) returns (r: Result<Id>)
    requires store.Valid()
    modifies store
    ensures store.Valid()
    ensures Outcome(AsResult(DoubleOf(lib, s)), old(store.mem), old(store.held), store.mem, store.held, r)
  {
    hide Sound, Outcome, StrictDouble;
    var strict := ParseDoubleString(s);
    if strict.None? { strict := lib.strtod(s); }
    r := NewScalar(if strict.Some? then Some(Double(strict.value)) else None, store);
  }

  /** parseSimpleValueCdata() */
  method ParseSimpleValueCdata(lib: Lib, name: string, cdata: string, store: ValueStore) returns (r: Result<Id>)
    requires store.Valid()
    modifies store
    ensures store.Valid()
    ensures Outcome(SimpleValue(lib, name, cdata), old(store.mem), old(store.held), store.mem, store.held, r)
  {
    hide Sound, Outcome, IntValue, BoolValue, DoubleOf, DatetimeValue, I8Value, Base64Value, NewString, AsResult;
    if name in INT_NAMES { r := NewScalar(IntValue(cdata), store); }
    else if name == "boolean" { r := NewScalar(BoolValue(cdata), store); }
    else if name == "double" { r := ParseDouble(lib, cdata, store); }
    else if name == "dateTime.iso8601" { r := ParseDatetimeElement(cdata, store); }
    else if name == "string" { r := StringNewLp(cdata, store); }
    else if name == "base64" { r := ParseBase64(cdata, store); }
    else if name == "nil" || name == "ex:nil" { r := NilNew(store); }
    else if name == "i8" || name == "ex:i8" { r := NewScalar(I8Value(cdata), store); }
    else {
      FaultOutcome(store.mem, store.held, ParseError);
      r := Fault(ParseError);
    }
  }

  /** parseBase64() */
  method ParseBase64(s: string, store: ValueStore) returns (r: Result<Id>)
    requires store.Valid()
    modifies store
    ensures store.Valid()
    ensures Outcome(AsResult(Base64Value(s)), old(store.mem), old(store.held), store.mem, store.held, r)
  {
    hide Sound, Outcome, Decode64;
    var decoded := Base64Decode(s);
    r := NewScalar(if decoded.Some? then Some(Base64(decoded.value)) else None, store);
  }

  method NilNew(store: ValueStore) returns (r: Result<Id>)
    requires store.Valid()
    modifies store
    ensures store.Valid()
    ensures Outcome(Ok(Nil), old(store.mem), old(store.held), store.mem, store.held, r)
  {
    hide Sound, Outcome;
    r := NewScalar(Some(Nil), store);
  }

  method ParseDatetimeElement(s: string, store: ValueStore) returns (r: Result<Id>)
    requires store.Valid()
    modifies store
    ensures store.Valid()
    ensures Outcome(AsResult(DatetimeValue(s)), old(store.mem), old(store.held), store.mem, store.held, r)
  {
    hide Sound, Outcome, ParseDatetime;
    var dt := ParseDatetimeString(s);
    r := NewScalar(if dt.Some? then Some(DateTime(dt.value)) else None, store);
  }

  /** getNameChild() and getValueChild(): the first child with the name. */
  method GetChild(es: seq<Elem>, name: string) returns (r: Option<Elem>)
    ensures r == FirstNamed(es, name)
  {
    r := None;
    var i := 0;
    assert es[0..] == es;
    while i < |es| && r.None?
      invariant i <= |es|
      invariant FirstNamed(es, name) == if r.Some? then r else FirstNamed(es[i..], name)
    {
      assert es[i..][0] == es[i] && es[i..][1..] == es[i + 1..];
      if es[i].name == name { r := Some(es[i]); }
      i := i + 1;
    }
    if r.None? { assert es[i..] == []; }
  }

  /** parseArrayDataChild(): one item is parsed, appended and given back. */
  method ParseArrayDataChild(lib: Lib, e: Elem, maxRecursion: nat, arr: Id, store: ValueStore, ghost base: Memory)
    returns (fault: Option<FaultCode>)
    requires maxRecursion >= 1 && store.Valid() && Grown(base, store.mem)
    requires |base| <= arr && IsArray(store.mem, arr) && arr in store.held
    modifies store
    ensures store.Valid() && Grown(base, store.mem) && store.held == old(store.held) && IsArray(store.mem, arr)
    ensures Denote(old(store.mem), arr).Array?
    ensures if e.name != "value" then fault == Some(ParseError)
            else var p := ElemValue(lib, maxRecursion - 1, e);
              && fault == (if p.Fault? then Some(p.code) else None)
              && (p.Ok? ==> Denote(store.mem, arr) == Array(Denote(old(store.mem), arr).items + [p.value]))
    decreases e, 4
  {
    hide HeldCount, HashKey, Denote, Drop, Structs.AppendItem, StructsOk, Conserved, NoneDying, Upward, ElemValue;
    ghost var mem, held := store.mem, store.held;
    DenoteArray(mem, arr);
    if e.name != "value" { return Some(ParseError); }
    var item := ParseValue(lib, maxRecursion - 1, e, store);
    match item {
      case Fault(c) =>
        GrownTwice(base, mem, held, store.mem, store.held);
        fault := Some(c);
      case Ok(id) =>
        ItemParsed(base, mem, held, arr, store.mem, id, ElemValue(lib, maxRecursion - 1, e).value);
        var ok := store.AppendItem(arr, id);
        store.Decref(id);
        assert held + multiset{id} - multiset{id} == held;
        fault := None;
    }
  }

  lemma ItemsStep(lib: Lib, maxRecursion: nat, es: seq<Elem>, done: seq<Value>)
    requires maxRecursion >= 1
    ensures ItemValues(lib, maxRecursion, es, done) ==
              if es == [] then Ok(Array(done))
              else if es[0].name != "value" then Fault(ParseError)
              else
                var r := ElemValue(lib, maxRecursion - 1, es[0]);
                if r.Fault? then r else ItemValues(lib, maxRecursion, es[1..], done + [r.value])
  {
    hide ElemValue;
  }

  /** parseArray() */
  method ParseArray(lib: Lib, maxRecursion: nat, e: Elem, store: ValueStore) returns (r: Result<Id>)
    requires maxRecursion >= 1 && store.Valid()
    modifies store
    ensures store.Valid()
    ensures Outcome(ArrayValue(lib, maxRecursion, e), old(store.mem), old(store.held), store.mem, store.held, r)
    decreases e, 2
  {
    hide HeldCount, HashKey, Denote, Drop, StructsOk, Conserved, NoneDying, Upward, ElemValue, ItemValues;
    ghost var base, held := store.mem, store.held;
    StartsGrown(base);
    CreateGrows(base, base, held, ArrayBody([]));
    var arr := store.New(ArrayBody([]));
    var fault: Option<FaultCode> := None;
    if |e.children| != 1 {
      fault := Some(ParseError);
    } else if e.children[0].name != "data" {
      fault := Some(ParseError);
    } else {
      var values := e.children[0].children;
      ghost var total, done := ItemValues(lib, maxRecursion, values, []), [];
      var i := 0;
      assert values[0..] == values;
      while i < |values| && fault.None?
        invariant i <= |values| && store.Valid() && Grown(base, store.mem)
        invariant store.held == held + multiset{arr} && IsArray(store.mem, arr)
        invariant fault.None? ==> Denote(store.mem, arr) == Array(done) && total == ItemValues(lib, maxRecursion, values[i..], done)
        invariant fault.Some? ==> total == Fault(fault.value)
        decreases |values| - i, fault.None?
      {
        ItemsStep(lib, maxRecursion, values[i..], done);
        assert values[i..][0] == values[i] && values[i..][1..] == values[i + 1..];
        fault := ParseArrayDataChild(lib, values[i], maxRecursion, arr, store, base);
        if fault.None? {
          done := done + [ElemValue(lib, maxRecursion - 1, values[i]).value];
        }
        i := i + 1;
      }
      ItemsStep(lib, maxRecursion, values[i..], done);
    }
    if fault.Some? {
      AllGivenBack(base, store.mem, held, arr);
      store.Decref(arr);
      assert held + multiset{arr} - multiset{arr} == held;
      r := Fault(fault.value);
    } else {
      r := Ok(arr);
    }
  }

  /** parseName() */
  method ParseName(e: Elem, store: ValueStore) returns (r: Result<Id>)
    requires store.Valid()
    modifies store
    ensures store.Valid()
    ensures Outcome(if |e.children| > 0 then Fault(ParseError) else NewString(e.cdata),
                    old(store.mem), old(store.held), store.mem, store.held, r)
    ensures r.Ok? ==> IsString(store.mem, r.value) && KeyText(store.mem, r.value) == Normalise(e.cdata)
  {
    hide Sound, Outcome, NewString;
    if |e.children| > 0 {
      FaultOutcome(store.mem, store.held, ParseError);
      return Fault(ParseError);
    }
    r := StringNewLp(e.cdata, store);
  }

  /** What parsing a member comes to: its key and its value. */
  ghost function MemberResult(lib: Lib, maxRecursion: nat, e: Elem): Result<(string, Value)>
    requires maxRecursion >= 1
  {
    match MemberKeyOf(e)
    case Fault(c) => Fault(c)
    case Ok(key) =>
      match FirstNamed(e.children, "value")
      case None => Fault(ParseError)
      case Some(x) =>
        match ElemValue(lib, maxRecursion - 1, x)
        case Fault(c) => Fault(c)
        case Ok(v) => Ok((key.str, v))
  }

  ghost function PairHeld(r: Result<(Id, Id)>): multiset<Id> {
    if r.Ok? then multiset{r.value.0} + multiset{r.value.1} else multiset{}
  }

  /** The key is still there when the value has been parsed. */
  lemma KeyKept(base: Memory, mem: Memory, held: multiset<Id>, key: Id, now: Memory, held': multiset<Id>)
    requires Sound(mem, held + multiset{key}) && Grown(base, mem) && |base| <= key && IsString(mem, key)
    requires Sound(now, held') && Grown(mem, now)
    ensures Grown(base, now) && IsString(now, key) && KeyText(now, key) == KeyText(mem, key)
  {
    hide HeldCount, HashKey, Denote, StructsOk, NoneDying, Upward;
    HeldStaysLive(mem, held + multiset{key}, key);
    GrownTwice(base, mem, held + multiset{key}, now, held');
  }

  /** The second half of parseMember(): the key is held, and given back on a fault. */
  method ParseMemberValue(lib: Lib, e: Elem, maxRecursion: nat, key: Id, store: ValueStore, ghost base: Memory, ghost held: multiset<Id>)
    returns (r: Result<Id>)
    requires maxRecursion >= 1 && store.Valid() && Grown(base, store.mem)
    requires store.held == held + multiset{key} && |base| <= key && IsString(store.mem, key)
    modifies store
    ensures store.Valid() && Grown(base, store.mem)
    ensures var x := FirstNamed(e.children, "value");
      var p := if x.None? then Fault(ParseError) else ElemValue(lib, maxRecursion - 1, x.value);
      if p.Fault? then r == Fault(p.code) && store.held == held
      else
        && r.Ok? && store.held == held + (multiset{key} + multiset{r.value})
        && IsString(store.mem, key) && KeyText(store.mem, key) == KeyText(old(store.mem), key)
        && Built(old(store.mem), store.mem, r.value, p.value)
    decreases e, 0
  {
    hide HeldCount, HashKey, Denote, Drop, StructsOk, Conserved, NoneDying, Upward, ElemValue, FirstNamed;
    ghost var mem := store.mem;
    StartsGrown(mem);
    var value := GetChild(e.children, "value");
    if value.None? {
      r := Fault(ParseError);
    } else {
      r := ParseValue(lib, maxRecursion - 1, value.value, store);
    }
    KeyKept(base, mem, held, key, store.mem, store.held);
    if r.Fault? {
      AllGivenBack(base, store.mem, held, key);
      store.Decref(key);
      assert held + multiset{key} - multiset{key} == held;
    } else {
      assert held + multiset{key} + multiset{r.value} == held + (multiset{key} + multiset{r.value});
    }
  }

  /** parseMember(): the caller gets a reference to the key and one to the value. */
  method ParseMember(lib: Lib, e: Elem, maxRecursion: nat, store: ValueStore) returns (r: Result<(Id, Id)>)
    requires maxRecursion >= 1 && store.Valid()
    modifies store
    ensures store.Valid() && Grown(old(store.mem), store.mem)
    ensures store.held == old(store.held) + PairHeld(r)
    ensures var p := MemberResult(lib, maxRecursion, e);
      if p.Fault? then r == Fault(p.code)
      else
        && r.Ok? && var (key, value) := r.value;
        && old(|store.mem|) <= key && IsString(store.mem, key) && KeyText(store.mem, key) == p.value.0
        && Built(old(store.mem), store.mem, value, p.value.1)
    decreases e, 1
  {
    hide HeldCount, HashKey, Denote, Drop, StructsOk, Conserved, NoneDying, Upward, ElemValue, FirstNamed, Normalise;
    ghost var base, held := store.mem, store.held;
    StartsGrown(base);
    if |e.children| != 2 { return Fault(ParseError); }
    var name := GetChild(e.children, "name");
    if name.None? { return Fault(ParseError); }
    var key := ParseName(name.value, store);
    if key.Fault? { return Fault(key.code); }
    var value := ParseMemberValue(lib, e, maxRecursion, key.value, store, base, held);
    r := if value.Fault? then Fault(value.code) else Ok((key.value, value.value));
  }

  lemma MembersStep(lib: Lib, maxRecursion: nat, es: seq<Elem>, done: seq<Member>)
    requires maxRecursion >= 1
    ensures MemberValues(lib, maxRecursion, es, done) ==
              if es == [] then Ok(Struct(done))
              else if es[0].name != "member" then Fault(ParseError)
              else
                var r := MemberResult(lib, maxRecursion, es[0]);
                if r.Fault? then Fault(r.code)
                else MemberValues(lib, maxRecursion, es[1..], SetMember(done, r.value.0, r.value.1))
  {
    hide ElemValue, MemberKeyOf, FirstNamed, SetMember;
  }

  /** The body of the loop of parseStruct(): a member is parsed, set and given back. */
  method ParseStructMember(lib: Lib, e: Elem, maxRecursion: nat, struct: Id, store: ValueStore, ghost base: Memory)
    returns (fault: Option<FaultCode>)
    requires maxRecursion >= 1 && store.Valid() && Grown(base, store.mem)
    requires |base| <= struct && IsStruct(store.mem, struct) && struct in store.held
    modifies store
    ensures store.Valid() && Grown(base, store.mem) && store.held == old(store.held) && IsStruct(store.mem, struct)
    ensures Denote(old(store.mem), struct).Struct?
    ensures if e.name != "member" then fault == Some(ParseError)
            else var p := MemberResult(lib, maxRecursion, e);
              && fault == (if p.Fault? then Some(p.code) else None)
              && (p.Ok? ==> Denote(store.mem, struct)
                              == Struct(SetMember(Denote(old(store.mem), struct).members, p.value.0, p.value.1)))
    decreases e, 2
  {
    hide HeldCount, HashKey, Denote, Drop, StructsOk, Conserved, NoneDying, Upward, MemberResult, SetMember, WithValue, StructOk;
    ghost var mem, held := store.mem, store.held;
    DenoteStruct(mem, struct);
    if e.name != "member" { return Some(ParseError); }
    var pair := ParseMember(lib, e, maxRecursion, store);
    GrownTwice(base, mem, held, store.mem, store.held);
    match pair {
      case Fault(c) =>
        fault := Some(c);
      case Ok((key, value)) =>
        fault := None;
        ghost var now, p := store.mem, MemberResult(lib, maxRecursion, e).value;
        PairParsed(base, mem, held, struct, now, key, value, p.0, p.1);
        var ok := store.SetValue(struct, key, value);
        ghost var set' := store.mem;
        assert held + (multiset{key} + multiset{value}) == held + multiset{value} + multiset{key};
        GivenBack(base, set', held + multiset{value}, struct, key);
        store.Decref(key);
        assert held + multiset{value} + multiset{key} - multiset{key} == held + multiset{value};
        GivenBack(base, store.mem, held, struct, value);
        store.Decref(value);
        assert held + multiset{value} - multiset{value} == held;
    }
  }

  /** A member's key and value were parsed and set; both are still held. */
  lemma PairParsed(base: Memory, mem: Memory, held: multiset<Id>, struct: Id, now: Memory, key: Id, value: Id, k: string, v: Value)
    requires Sound(mem, held) && Grown(base, mem) && |base| <= struct && IsStruct(mem, struct) && struct in held
    requires Sound(now, held + (multiset{key} + multiset{value})) && Grown(mem, now)
    requires |mem| <= key && IsString(now, key) && KeyText(now, key) == k && Built(mem, now, value, v)
    ensures Grown(base, now)
    ensures IsStruct(now, struct) && IsLive(now, key) && IsLive(now, value) && StructOk(now, now[struct].body.members)
    ensures Denote(mem, struct).Struct?
    ensures var set' := WithValue(now, struct, key, value);
      && Sound(set', held + (multiset{key} + multiset{value})) && Grown(base, set') && IsStruct(set', struct)
      && Denote(set', struct) == Struct(SetMember(Denote(mem, struct).members, k, v))
  {
    hide HeldCount, HashKey, Denote, Drop, WithValue, StructsOk, StructOk, NoneDying, Upward, SetMember;
    var held' := held + (multiset{key} + multiset{value});
    HeldStaysLive(now, held', key);
    GrownTwice(base, mem, held, now, held');
    SetBuilds(base, now, held', struct, key, value);
  }

  /** parseStruct() */
  method ParseStruct(lib: Lib, maxRecursion: nat, e: Elem, store: ValueStore) returns (r: Result<Id>)
    requires maxRecursion >= 1 && store.Valid()
    modifies store
    ensures store.Valid()
    ensures Outcome(StructValue(lib, maxRecursion, e), old(store.mem), old(store.held), store.mem, store.held, r)
    decreases e, 2
  {
    hide HeldCount, HashKey, Denote, Drop, StructsOk, Conserved, NoneDying, Upward, MemberResult, MemberValues, SetMember;
    ghost var base, held := store.mem, store.held;
    StartsGrown(base);
    CreateGrows(base, base, held, StructBody([]));
    var struct := store.New(StructBody([]));
    var fault: Option<FaultCode> := None;
    var members := e.children;
    ghost var total, done := MemberValues(lib, maxRecursion, members, []), [];
    var i := 0;
    assert members[0..] == members;
    while i < |members| && fault.None?
      invariant i <= |members| && store.Valid() && Grown(base, store.mem)
      invariant store.held == held + multiset{struct} && IsStruct(store.mem, struct)
      invariant fault.None? ==> Denote(store.mem, struct) == Struct(done) && total == MemberValues(lib, maxRecursion, members[i..], done)
      invariant fault.Some? ==> total == Fault(fault.value)
      decreases |members| - i, fault.None?
    {
      MembersStep(lib, maxRecursion, members[i..], done);
      assert members[i..][0] == members[i] && members[i..][1..] == members[i + 1..];
      fault := ParseStructMember(lib, members[i], maxRecursion, struct, store, base);
      if fault.None? {
        ghost var p := MemberResult(lib, maxRecursion, members[i]).value;
        done := SetMember(done, p.0, p.1);
      }
      i := i + 1;
    }
    MembersStep(lib, maxRecursion, members[i..], done);
    if fault.Some? {
      AllGivenBack(base, store.mem, held, struct);
      store.Decref(struct);
      assert held + multiset{struct} - multiset{struct} == held;
      r := Fault(fault.value);
    } else {
      r := Ok(struct);
    }
  }

  /** xmlrpc_parseValue(): the result is the value of the element. On a fault every
      value created on the way has been freed again; otherwise the caller gets the one
      new reference, to the root. */
  method ParseValue(lib: Lib, maxRecursion: nat, e: Elem, store: ValueStore) returns (r: Result<Id>)
    requires store.Valid()
    modifies store
    ensures store.Valid()
    ensures Outcome(ElemValue(lib, maxRecursion, e), old(store.mem), old(store.held), store.mem, store.held, r)
    ensures r.Fault? ==> forall j :: old(|store.mem|) <= j < |store.mem| ==> store.mem[j] == Freed
    decreases e, 3
  {
    hide Sound, Denote, Built, Upward, StructValue, ArrayValue, SimpleValue, NewString, Conserved, StructsOk, NoneDying, HeldCount;
    ghost var base, held := store.mem, store.held;
    FaultOutcome(base, held, ParseError);
    if maxRecursion < 1 || e.name != "value" {
      r := Fault(ParseError);
    } else {
      var childCount := |e.children|;
      if childCount == 0 {
        r := StringNewLp(e.cdata, store);
      } else if childCount > 1 {
        r := Fault(ParseError);
      } else {
        var child := e.children[0];
        if child.name == "struct" {
          r := ParseStruct(lib, maxRecursion, child, store);
        } else if child.name == "array" {
          r := ParseArray(lib, maxRecursion, child, store);
        } else if |child.children| > 0 {
          r := Fault(ParseError);
        } else {
          r := ParseSimpleValueCdata(lib, child.name, child.cdata, store);
        }
      }
    }
    if r.Fault? {
      NothingLeft(base, held, store.mem);
    }
  }
}
