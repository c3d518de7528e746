/** The parsers for calls and responses of xmlrpc-c/src/xmlrpc_parse.c, which build
reference-counted values. */
module MessageParser {
  import opened Text
  import opened Utf8Text
  import opened Values
  import opened Cells
  import opened Structs
  import opened ValueStores
  import opened Trees
  import opened XmlReader
  import opened XmlReadBack
  import opened XmlGrammar
  import opened XmlValueParser
  import opened TreeBuilder
  import opened Messages

  // ---------------------------------------------------------------------
  // From bytes to elements

  /** The events close the open elements `open`, innermost first, and nothing else. */
  ghost predicate Nests(es: seq<Event>, open: seq<string>)
    decreases |open|
  {
    if open == [] then es == []
    else
      var i := Inner(es);
      i.Inside? && i.rest != [] && i.rest[0] == End(open[0]) && Nests(i.rest[1..], open[1..])
  }

  /** The reader only lets well-nested streams through. */
  lemma {:induction false} ContentNests(r: string, open: seq<string>)
    requires Content(r, open).Some?
    ensures Nests(Content(r, open).value, open)
    decreases |r|
  {
    hide NextItem, AllBlank, Inner;
    if open != [] {
      match NextItem(r)
      case StartTag(name, rest) =>
        var es := Content(rest, [name] + open).value;
        ContentNests(rest, [name] + open);
        assert ([name] + open)[1..] == open;
        var after := Inner(es).rest[1..];
        assert Inner(es).rest == [End(name)] + after;
        InnerElement(name, es, after);
      case EmptyTag(name, rest) =>
        var es := Content(rest, open).value;
        ContentNests(rest, open);
        InnerEnd(name, es);
        InnerElement(name, [End(name)] + es, es);
        assert [Start(name)] + ([End(name)] + es) == [Start(name), End(name)] + es;
      case EndTag(name, rest) =>
        var es := Content(rest, open[1..]).value;
        ContentNests(rest, open[1..]);
        InnerEnd(name, es);
        assert ([End(name)] + es)[1..] == es;
      case Data(text, rest) =>
        ContentNests(rest, open);
        InnerChars(text, Content(rest, open).value);
    }
  }

  lemma DocumentNests(r: string)
    requires Document(r).Some?
    ensures ElementOf(Document(r).value).Some?
  {
    hide NextItem, Inner, Content, AfterDeclaration, BlankFront;
    var b := if "<?xml " <= r then AfterDeclaration(r[6..]).value else r;
    match NextItem(b[BlankFront(b)..])
    case StartTag(name, rest) =>
      var es := Content(rest, [name]).value;
      ContentNests(rest, [name]);
      assert [name][1..] == [];
      assert ([Start(name)] + es)[1..] == es;
      assert Inner(es).rest == [End(name)] + Inner(es).rest[1..];
    case EmptyTag(name, rest) =>
      ContentNests(rest, []);
      InnerEnd(name, []);
      assert [End(name)] + [] == [End(name)];
      assert ([Start(name), End(name)] + [])[1..] == [End(name)];
  }

  /** xml_parse(): the reader drives the handlers, which leave the element behind. */
  method XmlParse(xml: string) returns (r: Option<Elem>)
    ensures r == ReadXml(xml)
  {
    hide Document, Run, ElementOf, TreeBuilder.Denote, Linked;
    var events := Document(xml);
    if events.None? { return None; }
    DocumentNests(xml);
    HandlersBuildTheTree(events.value);
    var context := new ParseContext();
    var ok := context.Drive(events.value);
    r := Some(TreeBuilder.Denote(context.nodes, context.rootP.value));
  }

  // ---------------------------------------------------------------------
  // Calls

  function AsArray(r: Result<seq<Value>>): Result<Value> {
    if r.Ok? then Ok(Array(r.value)) else Fault(r.code)
  }

  /** The body of the loop in convertParams(). */
  method ConvertParam(lib: Lib, maxNest: nat, e: Elem, fault0: Option<FaultCode>, arr: Id, store: ValueStore, ghost base: Memory)
    returns (fault: Option<FaultCode>)
    requires store.Valid() && Grown(base, store.mem) && |base| <= arr && IsArray(store.mem, arr) && arr in store.held
    modifies store
    ensures store.Valid() && Grown(base, store.mem) && store.held == old(store.held) && IsArray(store.mem, arr)
    ensures Trees.Denote(old(store.mem), arr).Array?
    ensures var s := ParamStep(lib, maxNest, ParamState(Trees.Denote(old(store.mem), arr).items, fault0), e);
      fault == s.fault && Trees.Denote(store.mem, arr) == Array(s.done)
  {
    hide HeldCount, HashKey, Trees.Denote, Drop, Structs.AppendItem, StructsOk, Conserved, NoneDying, Upward, ElemValue;
    ghost var mem, held := store.mem, store.held;
    fault := fault0;
    DenoteArray(mem, arr);
    if e.name != "param" {
      fault := Some(ParseError);
    } else if fault.None? {
      if |e.children| != 1 {
        fault := Some(ParseError);
      } else if e.children[0].name != "value" {
        fault := Some(ParseError);
      } else {
        var item := ParseValue(lib, maxNest, e.children[0], store);
        match item {
          case Fault(c) =>
            GrownTwice(base, mem, held, store.mem, store.held);
            HeldStaysLive(mem, held, arr);
            fault := Some(c);
          case Ok(id) =>
            ItemParsed(base, mem, held, arr, store.mem, id, ElemValue(lib, maxNest, e.children[0]).value);
            var ok := store.AppendItem(arr, id);
            store.Decref(id);
            assert held + multiset{id} - multiset{id} == held;
        }
      }
    }
  }

  /** convertParams() */
  method ConvertParams(lib: Lib, maxNest: nat, e: Elem, store: ValueStore) returns (r: Result<Id>)
    requires store.Valid()
    modifies store
    ensures store.Valid()
    ensures Outcome(AsArray(ParamValues(lib, maxNest, e)), old(store.mem), old(store.held), store.mem, store.held, r)
  {
    hide HeldCount, HashKey, Trees.Denote, Drop, StructsOk, Conserved, NoneDying, Upward, ParamsFold, ParamStep;
    ghost var base, held := store.mem, store.held;
    StartsGrown(base);
    CreateGrows(base, base, held, ArrayBody([]));
    var arr := store.New(ArrayBody([]));
    var fault: Option<FaultCode> := None;
    if e.name != "params" {
      fault := Some(ParseError);
    } else {
      var params := e.children;
      ghost var s := ParamState([], None);
      var i := 0;
      NoParamsFolded(lib, maxNest, params[..0]);
      while i < |params|
        invariant i <= |params| && store.Valid() && Grown(base, store.mem)
        invariant store.held == held + multiset{arr} && IsArray(store.mem, arr)
        invariant s == ParamsFold(lib, maxNest, params[..i]) && fault == s.fault
        invariant Trees.Denote(store.mem, arr) == Array(s.done)
      {
        OneParamFolded(lib, maxNest, params, i);
        fault := ConvertParam(lib, maxNest, params[i], fault, arr, store, base);
        s := ParamStep(lib, maxNest, s, params[i]);
        i := i + 1;
      }
      assert params[..i] == params;
    }
    if fault.Some? {
      AllGivenBack(base, store.mem, held, arr);
      store.Decref(arr);
      assert held + multiset{arr} - multiset{arr} == held;
      r := Fault(fault.value);
    } else {
      r := Ok(arr);
    }
  }

  lemma NoParamsFolded(lib: Lib, maxNest: nat, es: seq<Elem>)
    requires es == []
    ensures ParamsFold(lib, maxNest, es) == ParamState([], None)
  {}

  lemma OneParamFolded(lib: Lib, maxNest: nat, es: seq<Elem>, i: nat)
    requires i < |es|
    ensures ParamsFold(lib, maxNest, es[..i + 1]) == ParamStep(lib, maxNest, ParamsFold(lib, maxNest, es[..i]), es[i])
  {
    hide ParamStep;
    assert es[..i + 1][..i] == es[..i];
  }

  /** The parameter array of a call. */
  method ParseCallParams(lib: Lib, maxNest: nat, e: Elem, store: ValueStore) returns (r: Result<Id>)
    requires store.Valid()
    modifies store
    ensures store.Valid()
    ensures Outcome(AsArray(CallParams(lib, maxNest, e)), old(store.mem), old(store.held), store.mem, store.held, r)
  {
    hide HeldCount, HashKey, Trees.Denote, StructsOk, Conserved, NoneDying, Upward, ParamValues, FirstNamed;
    StartsGrown(store.mem);
    if |e.children| > 1 {
      var params := GetChild(e.children, "params");
      if params.None? {
        r := Fault(ParseError);
      } else {
        r := ConvertParams(lib, maxNest, params.value, store);
      }
    } else {
      CreateGrows(store.mem, store.mem, store.held, ArrayBody([]));
      var arr := store.New(ArrayBody([]));
      r := Ok(arr);
    }
  }

  /** parseCallXml() and parseCallChildren(): the caller gets a reference to the array of
      parameters. On a fault nothing that was created is left. */
  method ParseCallElement(lib: Lib, maxNest: nat, e: Elem, store: ValueStore) returns (r: Result<(string, Id)>)
    requires store.Valid()
    modifies store
    ensures store.Valid()
    ensures var p := CallOf(lib, maxNest, e);
      if p.Fault? then
        && r == Fault(p.code) && store.held == old(store.held)
        && forall j :: old(|store.mem|) <= j < |store.mem| ==> store.mem[j] == Freed
      else
        && r.Ok? && r.value.0 == p.value.name
        && Built(old(store.mem), store.mem, r.value.1, Array(p.value.params))
        && store.held == old(store.held) + multiset{r.value.1}
    ensures Grown(old(store.mem), store.mem)
  {
    hide HeldCount, HashKey, Trees.Denote, Drop, StructsOk, Conserved, NoneDying, Upward, CallParams, FirstNamed;
    ghost var base, held := store.mem, store.held;
    StartsGrown(base);
    r := Fault(ParseError);
    if e.name == "methodCall" {
      var nameElem := GetChild(e.children, "methodName");
      if nameElem.Some? {
        if |nameElem.value.children| == 0 {
          var characters := DecodeUtf8(nameElem.value.cdata);
          if characters.None? {
            r := Fault(InvalidUtf8);
          } else {
            var params := ParseCallParams(lib, maxNest, e, store);
            if params.Fault? {
              r := Fault(params.code);
            } else if |e.children| > 2 {
              AllGivenBack(base, store.mem, held, params.value);
              store.Decref(params.value);
              assert held + multiset{params.value} - multiset{params.value} == held;
            } else {
              r := Ok((nameElem.value.cdata, params.value));
            }
          }
        }
      }
    }
    if r.Fault? {
      NothingLeft(base, held, store.mem);
    }
  }

  /** xmlrpc_parse_call() */
  method ParseCallText(lib: Lib, limits: Limits, xml: string, store: ValueStore) returns (r: Result<(string, Id)>)
    requires store.Valid()
    modifies store
    ensures store.Valid() && Grown(old(store.mem), store.mem)
    ensures var p := ParseCall(lib, limits, xml);
      if p.Fault? then
        && r == Fault(p.code) && store.held == old(store.held)
        && forall j :: old(|store.mem|) <= j < |store.mem| ==> store.mem[j] == Freed
      else
        && r.Ok? && r.value.0 == p.value.name
        && Built(old(store.mem), store.mem, r.value.1, Array(p.value.params))
        && store.held == old(store.held) + multiset{r.value.1}
  {
    hide HeldCount, HashKey, Trees.Denote, StructsOk, Conserved, NoneDying, Upward, CallOf, ReadXml;
    StartsGrown(store.mem);
    if |xml| > limits.size { return Fault(LimitExceeded); }
    var e := XmlParse(xml);
    if e.None? { return Fault(ParseError); }
    r := ParseCallElement(lib, limits.nesting, e.value, store);
  }

  // ---------------------------------------------------------------------
  // Responses

  datatype Reply = Returned(id: Id) | Failed(code: Int32, text: string)

  /** Looking a key up in memory is looking it up in what the struct denotes. */
  lemma LookupDenotes(mem: Memory, held: multiset<Id>, low: Id, struct: Id, key: string)
    requires Sound(mem, held) && Upward(mem, low) && low <= struct && IsStruct(mem, struct)
    ensures StructOk(mem, mem[struct].body.members) && Trees.Denote(mem, struct).Struct?
    ensures var x := ValueOf(mem, struct, key);
      var v := ValueAt(Trees.Denote(mem, struct).members, key);
      && x.Ok? && (x.value.Some? <==> v.Some?)
      && (x.value.Some? ==> IsLive(mem, x.value.value) && struct < x.value.value && Trees.Denote(mem, x.value.value) == v.value)
  {
    hide HeldCount, HashKey, Trees.Denote, StructsOk, NoneDying, Upward, Conserved;
    MembersLive(mem, held, low, struct);
    var members := mem[struct].body.members;
    var vs := Slots(mem, members);
    match FindKey(mem, members, key)
    case Some(i) => ValueAtIndex(vs, i);
    case None => NotThere(vs, key);
  }

  lemma RetainedDenotes(mem: Memory, held: multiset<Id>, low: Id, id: Id)
    requires Sound(mem, held) && Upward(mem, low) && low <= id && IsLive(mem, id)
    ensures Trees.Denote(Retain(mem, id), id) == Trees.Denote(mem, id)
  {
    hide HeldCount, HashKey, Trees.Denote;
    RetainSound(mem, held, id);
    DenoteAgrees(mem, held, Retain(mem, id), held + multiset{id}, id);
  }

  /** A value read, looked at and given back changes nothing. */
  method ReadMemberValue(store: ValueStore, struct: Id, key: string, ghost base: Memory) returns (r: Option<Value>)
    requires store.Valid() && Grown(base, store.mem) && |base| <= struct && IsStruct(store.mem, struct) && struct in store.held
    modifies store
    ensures store.Valid() && store.mem == old(store.mem) && store.held == old(store.held)
    ensures Trees.Denote(store.mem, struct).Struct?
    ensures r == ValueAt(Trees.Denote(store.mem, struct).members, key)
  {
    hide HeldCount, HashKey, Trees.Denote, Drop, StructsOk, NoneDying, Conserved, StructOk, ValueOf, Upward, Retain;
    LookupDenotes(store.mem, store.held, |base|, struct, key);
    ghost var mem, held := store.mem, store.held;
    var value := store.ReadValue(struct, key);
    if value.Fault? { return None; }
    RetainedDenotes(mem, held, |base|, value.value);
    r := Some(Trees.Denote(store.mem, value.value));
    RetainThenDrop(mem, value.value);
    store.Decref(value.value);
    assert held + multiset{value.value} - multiset{value.value} == held;
  }

  /** interpretFaultValue() */
  method InterpretFaultValue(store: ValueStore, v: Id, ghost base: Memory) returns (r: Result<Reply>)
    requires store.Valid() && Grown(base, store.mem) && |base| <= v && IsLive(store.mem, v) && v in store.held
    modifies store
    ensures store.Valid() && store.mem == old(store.mem) && store.held == old(store.held)
    ensures var p := FaultOf(Trees.Denote(store.mem, v));
      if p.Fault? then r == Fault(p.code) else p.value.Failure? && r == Ok(Failed(p.value.code, p.value.text))
  {
    hide HeldCount, HashKey, Trees.Denote, StructsOk, NoneDying, Conserved, Upward, ValueAt;
    StructOrNot(store.mem, v);
    if !store.mem[v].body.StructBody? { return Fault(ParseError); }
    var code := ReadMemberValue(store, v, "faultCode", base);
    if code.None? || !code.value.Int? { return Fault(ParseError); }
    var text := ReadMemberValue(store, v, "faultString", base);
    if text.None? || !text.value.Str? || '\0' in text.value.str { return Fault(ParseError); }
    r := Ok(Failed(code.value.i, text.value.str));
  }

  lemma StructOrNot(mem: Memory, v: Id)
    requires IsLive(mem, v)
    ensures mem[v].body.StructBody? <==> Trees.Denote(mem, v).Struct?
  {}

  /** parseFaultElement() */
  method ParseFaultElement(lib: Lib, maxNest: nat, e: Elem, store: ValueStore) returns (r: Result<Reply>)
    requires store.Valid() && e.name == "fault"
    modifies store
    ensures store.Valid() && Grown(old(store.mem), store.mem) && store.held == old(store.held)
    ensures var p := FaultElement(lib, maxNest, e);
      if p.Fault? then r == Fault(p.code) else p.value.Failure? && r == Ok(Failed(p.value.code, p.value.text))
  {
    hide HeldCount, HashKey, Trees.Denote, Drop, StructsOk, NoneDying, Conserved, Upward, FaultOf, ElemValue;
    ghost var base, held := store.mem, store.held;
    StartsGrown(base);
    if |e.children| != 1 { return Fault(ParseError); }
    if e.children[0].name != "value" { return Fault(ParseError); }
    var v := ParseValue(lib, maxNest, e.children[0], store);
    if v.Fault? { return Fault(v.code); }
    r := InterpretFaultValue(store, v.value, base);
    AllGivenBack(base, store.mem, held, v.value);
    store.Decref(v.value);
    assert held + multiset{v.value} - multiset{v.value} == held;
  }

  /** What a fault element comes to. */
  ghost function FaultElement(lib: Lib, maxNest: nat, e: Elem): (r: Result<Response>)
    ensures e.name == "fault" ==> ResponseOf(lib, maxNest, Elem("methodResponse", "", [e])) == r
  {
    if |e.children| != 1 || e.children[0].name != "value" then Fault(ParseError)
    else match ElemValue(lib, maxNest, e.children[0])
      case Fault(c) => Fault(c)
      case Ok(v) => FaultOf(v)
  }

  /** The only item of an array, read with a reference of its own. */
  lemma OnlyItem(base: Memory, mem: Memory, held: multiset<Id>, arr: Id, params: seq<Value>)
    requires Sound(mem, held + multiset{arr}) && Grown(base, mem) && |base| <= arr && IsArray(mem, arr)
    requires Trees.Denote(mem, arr) == Array(params)
    ensures |mem[arr].body.items| == |params|
    ensures |params| == 1 ==>
              var item := mem[arr].body.items[0];
              && IsLive(mem, item) && |base| <= item
              && var now := Drop(Retain(mem, item), [arr]);
                 Sound(now, held + multiset{item}) && Grown(base, now) && Built(base, now, item, params[0])
  {
    hide HeldCount, HashKey, Trees.Denote, Drop;
    DenoteArray(mem, arr);
    if |params| == 1 {
      var item := mem[arr].body.items[0];
      RefOfLive(mem, held + multiset{arr}, |base|, arr, item);
      ItemRetained(base, mem, held, arr, item);
      assert DenoteItems(mem, arr, mem[arr].body.items)[0] == Trees.DenoteAbove(mem, arr, item);
      InRange(mem, arr, item);
    }
  }

  lemma InRange(mem: Memory, low: Id, x: Id)
    requires low < x < |mem|
    ensures Trees.DenoteAbove(mem, low, x) == Trees.Denote(mem, x)
  {}

  lemma ItemRetained(base: Memory, mem: Memory, held: multiset<Id>, arr: Id, item: Id)
    requires Sound(mem, held + multiset{arr}) && Grown(base, mem) && |base| <= arr < item && IsLive(mem, item) && IsLive(mem, arr)
    ensures var now := Drop(Retain(mem, item), [arr]);
      Sound(now, held + multiset{item}) && Grown(base, now) && Built(base, now, item, Trees.Denote(mem, item))
  {
    hide HeldCount, HashKey, Trees.Denote, Drop, Conserved, StructsOk, NoneDying;
    RetainSound(mem, held + multiset{arr}, item);
    RetainedDenotes(mem, held + multiset{arr}, |base|, item);
    var retained := Retain(mem, item);
    forall p: Id, x: Id | |base| <= p < |retained| && x in CellRefs(retained[p]) ensures p < x {
      assert x in CellRefs(mem[p]);
    }
    assert retained[..|base|] == base;
    assert held + multiset{arr} + multiset{item} == held + multiset{item} + multiset{arr};
    GivenBack(base, retained, held + multiset{item}, item, arr);
  }

  /** The array of parameters is checked to have one item, which is read, and given
      back. */
  method OnlyParam(store: ValueStore, arr: Id, ghost base: Memory, ghost held: multiset<Id>, ghost values: seq<Value>)
    returns (r: Result<Id>)
    requires store.Valid() && Grown(base, store.mem) && store.held == held + multiset{arr}
    requires Built(base, store.mem, arr, Array(values))
    modifies store
    ensures store.Valid()
    ensures Outcome(if |values| != 1 then Fault(ParseError) else Ok(values[0]), base, held, store.mem, store.held, r)
  {
    hide HeldCount, HashKey, Trees.Denote, Drop, StructsOk, NoneDying, Conserved, Upward, Retain;
    ArrayOrNot(store.mem, arr);
    OnlyItem(base, store.mem, held, arr, values);
    if |store.mem[arr].body.items| != 1 {
      AllGivenBack(base, store.mem, held, arr);
      store.Decref(arr);
      assert held + multiset{arr} - multiset{arr} == held;
      r := Fault(ParseError);
    } else {
      r := store.ReadItem(arr, 0);
      store.Decref(arr);
      assert held + multiset{arr} + multiset{r.value} - multiset{arr} == held + multiset{r.value};
    }
  }

  /** parseParamsElement(): the one parameter is the result. */
  method ParseParamsElement(lib: Lib, maxNest: nat, e: Elem, store: ValueStore) returns (r: Result<Id>)
    requires store.Valid()
    modifies store
    ensures store.Valid()
    ensures var p := ParamValues(lib, maxNest, e);
      Outcome(if p.Fault? then Fault(p.code) else if |p.value| != 1 then Fault(ParseError) else Ok(p.value[0]),
              old(store.mem), old(store.held), store.mem, store.held, r)
  {
    hide HeldCount, HashKey, Trees.Denote, Drop, StructsOk, NoneDying, Conserved, Upward, ParamValues, Built, Grown;
    ghost var base, held := store.mem, store.held;
    var params := ConvertParams(lib, maxNest, e, store);
    if params.Fault? { return Fault(params.code); }
    r := OnlyParam(store, params.value, base, held, ParamValues(lib, maxNest, e).value);
  }

  lemma ArrayOrNot(mem: Memory, v: Id)
    requires IsLive(mem, v) && Trees.Denote(mem, v).Array?
    ensures IsArray(mem, v)
  {}

  /** parseMethodResponseElt(): a result comes with one reference, a fault with none, and
      otherwise nothing is left. */
  method ParseMethodResponseElt(lib: Lib, maxNest: nat, e: Elem, store: ValueStore) returns (r: Result<Reply>)
    requires store.Valid()
    modifies store
    ensures store.Valid() && Grown(old(store.mem), store.mem)
    ensures var p := ResponseOf(lib, maxNest, e);
      if p.Fault? then r == Fault(p.code) && store.held == old(store.held)
      else if p.value.Failure? then r == Ok(Failed(p.value.code, p.value.text)) && store.held == old(store.held)
      else
        && r.Ok? && r.value.Returned? && Built(old(store.mem), store.mem, r.value.id, p.value.result)
        && store.held == old(store.held) + multiset{r.value.id}
    ensures !(r.Ok? && r.value.Returned?) ==> forall j :: old(|store.mem|) <= j < |store.mem| ==> store.mem[j] == Freed
  {
    hide HeldCount, HashKey, Trees.Denote, StructsOk, NoneDying, Conserved, Upward, ParamValues, FaultOf, ElemValue;
    ghost var base, held := store.mem, store.held;
    StartsGrown(base);
    r := Fault(ParseError);
    if e.name == "methodResponse" && |e.children| == 1 {
      var child := e.children[0];
      if child.name == "params" {
        var result := ParseParamsElement(lib, maxNest, child, store);
        r := if result.Ok? then Ok(Returned(result.value)) else Fault(result.code);
      } else if child.name == "fault" {
        r := ParseFaultElement(lib, maxNest, child, store);
      }
    }
    if !(r.Ok? && r.value.Returned?) {
      NothingLeft(base, held, store.mem);
    }
  }

  /** xmlrpc_parse_response2() */
  method ParseResponseText(lib: Lib, limits: Limits, xml: string, store: ValueStore) returns (r: Result<Reply>)
    requires store.Valid()
    modifies store
    ensures store.Valid() && Grown(old(store.mem), store.mem)
    ensures var p := ParseResponse(lib, limits, xml);
      if p.Fault? then r == Fault(p.code) && store.held == old(store.held)
      else if p.value.Failure? then r == Ok(Failed(p.value.code, p.value.text)) && store.held == old(store.held)
      else
        && r.Ok? && r.value.Returned? && Built(old(store.mem), store.mem, r.value.id, p.value.result)
        && store.held == old(store.held) + multiset{r.value.id}
    ensures !(r.Ok? && r.value.Returned?) ==> forall j :: old(|store.mem|) <= j < |store.mem| ==> store.mem[j] == Freed
  {
    hide HeldCount, HashKey, Trees.Denote, StructsOk, Conserved, NoneDying, Upward, ResponseOf, ReadXml;
    StartsGrown(store.mem);
    if |xml| > limits.size { return Fault(LimitExceeded); }
    var e := XmlParse(xml);
    if e.None? { return Fault(ParseError); }
    r := ParseMethodResponseElt(lib, limits.nesting, e.value, store);
  }
}
