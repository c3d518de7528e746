/** The builder itself, which moves two cursors over the format and the arguments and
makes reference-counted values. */
module Builder {
  import opened Text
  import opened Values
  import opened Cells
  import opened Structs
  import opened ValueStores
  import opened JsonLexer
  import opened Formats
  import opened Build
  import opened Sharing

  /** An argument as it is passed: an xmlrpc_value is passed as a pointer. */
  datatype Passed = Direct(arg: Given) | Pointer(id: Id)

  /** The arguments passed are, in memory, the ones given; pointers go below `low`. */
  ghost predicate ArgsFit(mem: Memory, low: Id, passed: seq<Passed>, given: seq<Given>) {
    && |passed| == |given|
    && forall i :: 0 <= i < |passed| ==> ArgFits(mem, low, passed[i], given[i])
  }

  ghost predicate ArgFits(mem: Memory, low: Id, p: Passed, g: Given) {
    match p
    case Direct(arg) => g == arg && !arg.Whole?
    case Pointer(id) => g.Whole? && id < low && Denotes(mem, id, g.v)
  }

  lemma ArgsStay(low: Id, mem: Memory, hm: multiset<Id>, now: Memory, h: multiset<Id>, passed: seq<Passed>, given: seq<Given>)
    requires Topped(low, mem, hm, now, h) && ArgsFit(mem, low, passed, given)
    ensures ArgsFit(now, low, passed, given)
  {
    hide Topped, Denotes;
    forall i | 0 <= i < |passed| ensures ArgFits(now, low, passed[i], given[i]) {
      if passed[i].Pointer? { ToppedDenotes(low, mem, hm, now, h, passed[i].id, given[i].v); }
    }
  }

  /** What building a value comes to: it denotes what it should and has one new
      reference, or everything created for it has been freed and every count is as it
      was. */
  ghost predicate Came(low: Id, base: Memory, hb: multiset<Id>, now: Memory, h: multiset<Id>, b: Result<Value>, r: Result<Id>) {
    && Topped(low, base, hb, now, h)
    && (if b.Fault? then r == Fault(b.code) && h == hb && Restored(base, now)
        else r.Ok? && Denotes(now, r.value, b.value) && (r.value < low || |base| <= r.value) && h == hb + multiset{r.value})
  }

  lemma NothingCame(low: Id, mem: Memory, h: multiset<Id>, code: FaultCode)
    requires Sound(mem, h) && low <= |mem| && Layered(mem, low)
    ensures Came(low, mem, h, mem, h, Fault(code), Fault(code))
  {
    StartsTopped(low, mem, h);
  }

  /** A constructor of a value without parts. */
  method MakeLeaf(store: ValueStore, ghost low: Id, v: Result<Scalar>) returns (r: Result<Id>)
    requires store.Valid() && low <= |store.mem| && Layered(store.mem, low)
    modifies store
    ensures store.Valid() && Came(low, old(store.mem), old(store.held), store.mem, store.held, v, r)
  {
    hide Sound, Layered;
    if v.Fault? {
      NothingCame(low, store.mem, store.held, v.code);
      return Fault(v.code);
    }
    StartsTopped(low, store.mem, store.held);
    ToppedCreate(low, store.mem, store.held, store.mem, store.held, Body.Leaf(v.value));
    var id := store.New(Body.Leaf(v.value));
    r := Ok(id);
  }

  /** A value that was passed: it is given one more reference. */
  method PassOn(store: ValueStore, ghost low: Id, id: Id, ghost v: Value) returns (r: Result<Id>)
    requires store.Valid() && low <= |store.mem| && Layered(store.mem, low) && id < low && Denotes(store.mem, id, v)
    modifies store
    ensures store.Valid() && Came(low, old(store.mem), old(store.held), store.mem, store.held, Ok(v), r)
  {
    hide Sound, Layered;
    ghost var mem, held := store.mem, store.held;
    StartsTopped(low, mem, held);
    ToppedRetain(low, mem, held, mem, held, id);
    store.Incref(id);
    ToppedDenotes(low, mem, held, store.mem, store.held, id, v);
    r := Ok(id);
  }

  /** A reference is given back that the value under construction can do without. */
  method GiveBack(store: ValueStore, id: Id, ghost low: Id, ghost base: Memory, ghost hb: multiset<Id>, ghost h: multiset<Id>,
      ghost x: Id, ghost v: Value)
    requires Topped(low, base, hb, store.mem, store.held) && store.held == h + multiset{id} && hb <= h
    requires x in h && Denotes(store.mem, x, v)
    modifies store
    ensures Topped(low, base, hb, store.mem, store.held) && store.held == h && Denotes(store.mem, x, v)
  {
    hide HeldCount, HashKey, StructsOk, Conserved, NoneDying, SameBodies, Drop, Layered, Denotes;
    ToppedDrop(low, base, hb, store.mem, h, id);
    DropDenotes(store.mem, h, id, x, v);
    store.Decref(id);
    assert h + multiset{id} - multiset{id} == h;
  }

  /** An item is appended to the array under construction, and its reference given back. */
  method AppendGiven(store: ValueStore, arr: Id, item: Id, ghost low: Id, ghost base: Memory, ghost hb: multiset<Id>,
      ghost vs: seq<Value>, ghost v: Value)
    requires Topped(low, base, hb, store.mem, store.held) && store.held == hb + multiset{arr} + multiset{item}
    requires |base| <= arr && Denotes(store.mem, arr, Array(vs)) && Denotes(store.mem, item, v) && MayHold(low, arr, item)
    modifies store
    ensures Topped(low, base, hb, store.mem, store.held) && store.held == hb + multiset{arr}
    ensures Denotes(store.mem, arr, Array(vs + [v]))
  {
    hide HeldCount, HashKey, StructsOk, Conserved, NoneDying, SameBodies, Drop, Layered, Structs.AppendItem;
    ToppedAppend(low, base, hb, store.mem, store.held, arr, item);
    AppendDenotes(store.mem, store.held, low, arr, item, vs, v);
    var ok := store.AppendItem(arr, item);
    GiveBack(store, item, low, base, hb, hb + multiset{arr}, arr, Array(vs + [v]));
  }

  /** xmlrpc_struct_set_value_v() on the struct under construction. */
  method SetMemberOf(store: ValueStore, struct: Id, key: Id, value: Id, ghost low: Id, ghost base: Memory, ghost hb: multiset<Id>,
      ghost ms: seq<Member>, ghost k: Value, ghost v: Value) returns (ok: bool)
    requires Topped(low, base, hb, store.mem, store.held) && struct in store.held
    requires |base| <= struct && Denotes(store.mem, struct, Struct(ms)) && Denotes(store.mem, key, k) && Denotes(store.mem, value, v)
    requires MayHold(low, struct, key) && MayHold(low, struct, value)
    modifies store
    ensures Topped(low, base, hb, store.mem, store.held) && store.held == old(store.held)
    ensures ok <==> k.Str?
    ensures Denotes(store.mem, struct, Struct(if ok then SetMember(ms, k.str, v) else ms))
  {
    hide HeldCount, HashKey, StructsOk, Conserved, NoneDying, SameBodies, Drop, Layered, WithValue, SetMember;
    ghost var mem := store.mem;
    assert k.Str? <==> IsString(mem, key);
    if k.Str? {
      ToppedSet(low, base, hb, mem, store.held, struct, key, value);
      SetDenotes(mem, store.held, low, struct, key, value, ms, v);
    }
    ok := store.SetValue(struct, key, value);
  }

  /** A member is set in the struct under construction, if `good`, and the references to
      its key and value are given back. */
  method SetGiven(store: ValueStore, struct: Id, key: Id, value: Id, good: bool, ghost low: Id, ghost base: Memory,
      ghost hb: multiset<Id>, ghost ms: seq<Member>, ghost k: Value, ghost v: Value) returns (ok: bool)
    requires Topped(low, base, hb, store.mem, store.held)
    requires store.held == hb + multiset{struct} + multiset{key} + multiset{value}
    requires |base| <= struct && Denotes(store.mem, struct, Struct(ms)) && Denotes(store.mem, key, k) && Denotes(store.mem, value, v)
    requires MayHold(low, struct, key) && MayHold(low, struct, value)
    modifies store
    ensures Topped(low, base, hb, store.mem, store.held) && store.held == hb + multiset{struct}
    ensures ok <==> good && k.Str?
    ensures Denotes(store.mem, struct, Struct(if ok then SetMember(ms, k.str, v) else ms))
  {
    hide Topped, Denotes, SetMember;
    ok := false;
    if good { ok := SetMemberOf(store, struct, key, value, low, base, hb, ms, k, v); }
    ghost var v' := Struct(if ok then SetMember(ms, k.str, v) else ms);
    GiveBack(store, value, low, base, hb, hb + multiset{struct} + multiset{key}, struct, v');
    GiveBack(store, key, low, base, hb, hb + multiset{struct}, struct, v');
  }

  /** The last reference to a container under construction is given up, and all of it is
      gone. */
  method GiveUp(store: ValueStore, container: Id, ghost low: Id, ghost base: Memory, ghost hb: multiset<Id>)
    requires Topped(low, base, hb, store.mem, store.held) && store.held == hb + multiset{container}
    modifies store
    ensures store.Valid()
    ensures Topped(low, base, hb, store.mem, store.held) && store.held == hb && Restored(base, store.mem)
  {
    hide HeldCount, HashKey, StructsOk, Conserved, NoneDying, SameBodies, Drop, Layered;
    ToppedDrop(low, base, hb, store.mem, hb, container);
    store.Decref(container);
    assert hb + multiset{container} - multiset{container} == hb;
    AllGone(low, base, hb, store.mem);
  }

  function AsValue(b: Built): Result<Value> { if b.Ready? then Ok(b.value) else Fault(b.code) }

  class Cursors {
    const formatString: string
    const argList: seq<Passed>
    const mk: Makers
    const store: ValueStore
    ghost const given: seq<Given>  // what the arguments are
    ghost const low: Id            // the values there were before building
    var formatP: nat
    var argP: nat

    constructor (mk: Makers, format: string, args: seq<Passed>, store: ValueStore, ghost given: seq<Given>)
      requires store.Valid() && ArgsFit(store.mem, |store.mem|, args, given)
      ensures Valid() && formatString == format && argList == args && this.mk == mk && this.store == store
      ensures this.given == given && formatP == argP == 0
    {
      this.mk, this.store, this.given, low := mk, store, given, |store.mem|;
      formatString, argList := format, args;
      formatP, argP := 0, 0;
      new;
      BaseLayered(store.mem, store.held);
    }

    ghost predicate Valid()
      reads this, store
    {
      && formatP <= |formatString| && argP <= |argList| == |given|
      && store.Valid() && low <= |store.mem| && Layered(store.mem, low) && ArgsFit(store.mem, low, argList, given)
    }

    ghost function Format(): string
      requires formatP <= |formatString|
      reads this
    {
      formatString[formatP..]
    }

    ghost function Args(): seq<Given>
      requires argP <= |given|
      reads this
    {
      given[argP..]
    }

    function Here(): (c: char)
      reads this
      ensures formatP <= |formatString| ==> c == Peek(formatString[formatP..])
    {
      if formatP < |formatString| then formatString[formatP] else '\0'
    }

    method Step()
      requires Valid() && formatP < |formatString|
      modifies `formatP
      ensures Valid() && formatP == old(formatP) + 1 && Format() == old(Format())[1..]
    {
      formatP := formatP + 1;
    }

    /** The result is what the function says, and so are the cursors if there is one. */
    ghost predicate Reached(b: Built, r: Result<Id>, base: Memory, hb: multiset<Id>)
      requires Valid()
      reads this, store
    {
      && Came(low, base, hb, store.mem, store.held, AsValue(b), r)
      && (b.Ready? ==> b.format == Format() && b.args == Args())
    }

    /** The text of a string argument; `sized` says that its size comes next. */
    method NextText(sized: bool) returns (text: Option<string>)
      requires Valid()
      modifies `argP
      ensures Valid() && text == TextGiven(old(Args()), sized)
      ensures text.Some? ==> Args() == if sized then old(Args())[2..] else old(Args())[1..]
    {
      hide Layered, Denotes;
      if argP >= |argList| || !argList[argP].Direct? || !argList[argP].arg.Chars? { return None; }
      var str := argList[argP].arg.text;
      var len;
      if sized {
        if argP + 1 >= |argList| || !argList[argP + 1].Direct? { return None; }
        var size := argList[argP + 1].arg;
        if !size.Size? || size.n > |str| { return None; }
        len := size.n;
        argP := argP + 2;
      } else {
        len := UpToNul(str);
        argP := argP + 1;
      }
      text := Some(str[..len]);
    }

    /** What the next argument is. */
    lemma NextArg()
      requires Valid()
      ensures argP < |argList| <==> Args() != []
      ensures argP < |argList| ==> Args()[0] == given[argP] && ArgFits(store.mem, low, argList[argP], given[argP])
    {}

    /** After building on top the arguments are as before. */
    lemma StillValid(base: Memory, hb: multiset<Id>)
      requires formatP <= |formatString| && argP <= |argList| == |given| && Topped(low, base, hb, store.mem, store.held)
      requires ArgsFit(base, low, argList, given)
      ensures Valid()
    {
      hide ArgsFit, Layered, StructsOk, Conserved;
      ArgsStay(low, base, hb, store.mem, store.held, argList, given);
    }

    /** 'V', and mkArrayFromVal() and mkStructFromVal() for 'A' and 'S'. */
    method GetPassed(c: char) returns (r: Result<Id>)
      requires Valid() && c in {'V', 'A', 'S'}
      modifies this, store
      ensures Valid() && old(formatP) <= formatP
      ensures Reached(BuildValue(mk, [c] + old(Format()), old(Args())), r, old(store.mem), old(store.held))
    {
      hide MakePlain, MakeText, TextGiven, Sound, Layered, Topped, Denotes, BuildItems, BuildMembers;
      ghost var f, args := Format(), Args();
      ghost var mem, held := store.mem, store.held;
      assert ([c] + f)[1..] == f;
      NothingCame(low, mem, held, InternalError);
      NextArg();
      if argP >= |argList| { return Fault(InternalError); }
      var arg := argList[argP];
      if !arg.Pointer? { return Fault(InternalError); }
      KindInMemory(store.mem, arg.id, given[argP].v);
      if (c == 'A' && !store.mem[arg.id].body.ArrayBody?) || (c == 'S' && !store.mem[arg.id].body.StructBody?) {
        return Fault(InternalError);
      }
      argP := argP + 1;
      r := PassOn(store, low, arg.id, given[argP - 1].v);
      StillValid(mem, held);
    }

    /** The specifiers that take arguments and make a value without parts: what is to be
        made. */
    method NextLeaf(c: char) returns (leaf: Result<Scalar>)
      requires Valid() && c !in {'\0', 'n', '(', '{', 'V', 'A', 'S'}
      modifies `formatP, `argP
      ensures Valid() && old(formatP) <= formatP
      ensures var b := BuildValue(mk, [c] + old(Format()), old(Args()));
        AsValue(b) == leaf && (b.Ready? ==> b.format == Format() && b.args == Args())
    {
      hide MakePlain, MakeText, TextGiven, Sound, Layered, Denotes, BuildItems, BuildMembers;
      ghost var f := Format();
      assert ([c] + f)[1..] == f;
      NextArg();
      leaf := Fault(InternalError);
      if argP >= |argList| { return; }
      var arg := argList[argP];
      if c in {'i', 'b', 'd', 'I', 't', 'p'} {
        if !arg.Direct? || !arg.arg.Number? { return; }
        argP := argP + 1;
        leaf := MakePlain(mk, c, arg.arg.v);
      } else if c == '8' {
        var text := NextText(false);
        if text.None? { return; }
        leaf := mk.text(c, text.value);
      } else if c == '6' {
        var text := NextText(true);
        if text.None? { return; }
        leaf := Ok(Base64(text.value));
      } else if IsSizedKind(c) {
        var sized := Here() == '#';
        var text := NextText(sized);
        if text.None? { return; }
        if sized { Step(); }
        leaf := MakeText(mk, c, text.value);
      }
    }

    /** The specifiers that make a value without parts, or pass one on. */
    method GetLeaf(c: char) returns (r: Result<Id>)
      requires Valid() && c !in {'\0', 'n', '(', '{'}
      modifies this, store
      ensures Valid() && old(formatP) <= formatP
      ensures Reached(BuildValue(mk, [c] + old(Format()), old(Args())), r, old(store.mem), old(store.held))
    {
      hide BuildValue, Sound, Layered, Topped, Denotes, ArgsFit;
      if c in {'V', 'A', 'S'} {
        r := GetPassed(c);
      } else {
        ghost var mem, held := store.mem, store.held;
        var leaf := NextLeaf(c);
        r := MakeLeaf(store, low, leaf);
        StillValid(mem, held);
      }
    }

    /** getValue() */
    method GetValue() returns (r: Result<Id>)
      requires Valid()
      modifies this, store
      ensures Valid() && old(formatP) <= formatP && (r.Ok? ==> old(formatP) < formatP)
      ensures Reached(BuildValue(mk, old(Format()), old(Args())), r, old(store.mem), old(store.held))
      decreases |formatString| - formatP, 1
    {
      hide BuildValue, BuildItems, BuildMembers, Sound, Layered, Topped, Denotes, ArgsFit;
      ghost var f, args, mem, held := Format(), Args(), store.mem, store.held;
      var c := Here();
      ValueCases(mk, f, args);
      NothingCame(low, mem, held, InternalError);
      if c == '\0' { return Fault(InternalError); }
      assert f == [c] + f[1..];
      Step();
      if c == 'n' {
        r := MakeLeaf(store, low, Ok(Nil));
        StillValid(mem, held);
      }
      else if c == '(' { r := GetArray(); }
      else if c == '{' { r := GetStruct(); }
      else { r := GetLeaf(c); }
    }

    /** getArray(), and the step over the parenthesis that follows it. */
    method GetArray() returns (r: Result<Id>)
      requires Valid()
      modifies this, store
      ensures Valid() && old(formatP) <= formatP
      ensures Reached(BuildItems(mk, old(Format()), old(Args()), []), r, old(store.mem), old(store.held))
      decreases |formatString| - formatP, 2
    {
      hide BuildValue, BuildItems, Sound, Layered, Topped, Denotes, ArgsFit;
      ghost var base, hb := store.mem, store.held;
      ghost var items: seq<Value> := [];
      ghost var total := BuildItems(mk, Format(), Args(), []);
      var fault: Option<FaultCode> := None;
      var arrayP := NewContainer(store, low, ArrayBody([]));
      StillValid(base, hb);
      while Here() != ')' && fault.None?
        invariant Valid() && old(formatP) <= formatP
        invariant Topped(low, base, hb, store.mem, store.held) && store.held == hb + multiset{arrayP}
        invariant arrayP == |base| && Denotes(store.mem, arrayP, Array(items))
        invariant total == if fault.None? then BuildItems(mk, Format(), Args(), items) else Refused(fault.value)
        decreases |formatString| - formatP, fault.None?
      {
        ItemCases(mk, Format(), Args(), items);
        if Here() == '\0' {
          fault := Some(InternalError);
        } else {
          ghost var mem, held := store.mem, store.held;
          ghost var b := BuildValue(mk, Format(), Args());
          var item := GetValue();
          Inner(low, base, hb, mem, held, store.mem, store.held, arrayP, Array(items), AsValue(b), item);
          match item {
            case Ok(id) =>
              AppendGiven(store, arrayP, id, low, base, hb, items, b.value);
              items := items + [b.value];
              StillValid(base, hb);
            case Fault(c) => fault := Some(c);
          }
        }
      }
      if fault.Some? {
        GiveUp(store, arrayP, low, base, hb);
        StillValid(base, hb);
        return Fault(fault.value);
      }
      ItemCases(mk, Format(), Args(), items);
      Step();
      r := Ok(arrayP);
    }

    /** getStructMember() */
    method GetStructMember() returns (r: Result<(Id, Id)>)
      requires Valid()
      modifies this, store
      ensures Valid() && old(formatP) <= formatP && (r.Ok? ==> old(formatP) < formatP)
      ensures PairCame(low, old(store.mem), old(store.held), store.mem, store.held, PairAt(mk, old(Format()), old(Args())), r)
      ensures var p := PairAt(mk, old(Format()), old(Args())); p.Ok? ==> p.value.2 == Format() && p.value.3 == Args()
      decreases |formatString| - formatP, 3
    {
      hide BuildValue, Sound, Layered, Topped, Denotes, ArgsFit;
      ghost var mem0, held0 := store.mem, store.held;
      ghost var b := BuildValue(mk, Format(), Args());
      var key := GetValue();
      if key.Fault? { return Fault(key.code); }
      ghost var mem1, held1 := store.mem, store.held;
      var fault: Option<FaultCode> := None;
      var value: Result<Id> := Fault(InternalError);
      if Here() != ':' {
        fault := Some(InternalError);
      } else {
        Step();
        ghost var v := BuildValue(mk, Format(), Args());
        value := GetValue();
        Inner(low, mem0, held0, mem1, held1, store.mem, store.held, key.value, b.value, AsValue(v), value);
        if value.Fault? { fault := Some(value.code); }
      }
      if fault.Some? {
        GiveUp(store, key.value, low, mem0, held0);
        StillValid(mem0, held0);
        return Fault(fault.value);
      }
      r := Ok((key.value, value.value));
    }

    /** getStruct(), and the step over the brace that follows it. */
    method GetStruct() returns (r: Result<Id>)
      requires Valid()
      modifies this, store
      ensures Valid() && old(formatP) <= formatP
      ensures Reached(BuildMembers(mk, old(Format()), old(Args()), []), r, old(store.mem), old(store.held))
      decreases |formatString| - formatP, 4
    {
      hide BuildValue, BuildMembers, PairAt, SetMember, Sound, Layered, Topped, Denotes, ArgsFit;
      ghost var base, hb := store.mem, store.held;
      ghost var members: seq<Member> := [];
      ghost var total := BuildMembers(mk, Format(), Args(), []);
      var fault: Option<FaultCode> := None;
      var structP := NewContainer(store, low, StructBody([]));
      StillValid(base, hb);
      while Here() != '}' && fault.None?
        invariant Valid() && old(formatP) <= formatP
        invariant Topped(low, base, hb, store.mem, store.held) && store.held == hb + multiset{structP}
        invariant structP == |base| && Denotes(store.mem, structP, Struct(members))
        invariant total == if fault.None? then BuildMembers(mk, Format(), Args(), members) else Refused(fault.value)
        decreases |formatString| - formatP, fault.None?
      {
        MemberCases(mk, Format(), Args(), members);
        ghost var mem, held, p := store.mem, store.held, PairAt(mk, Format(), Args());
        var pair := GetStructMember();
        InnerPair(low, base, hb, mem, held, store.mem, store.held, structP, Struct(members), p, pair);
        match pair {
          case Fault(c) => fault := Some(c);
          case Ok((key, value)) =>
            if Here() == ',' {
              Step();
            } else if Here() != '}' {
              fault := Some(InternalError);
            }
            var ok := SetGiven(store, structP, key, value, fault.None?, low, base, hb, members, p.value.0, p.value.1);
            StillValid(base, hb);
            if fault.None? && !ok { fault := Some(TypeError); }
            if ok { members := SetMember(members, p.value.0.str, p.value.1); }
        }
      }
      if fault.Some? {
        GiveUp(store, structP, low, base, hb);
        StillValid(base, hb);
        return Fault(fault.value);
      }
      MemberCases(mk, Format(), Args(), members);
      Step();
      r := Ok(structP);
    }

    /** xmlrpc_build_value() */
    method BuildOneValue() returns (r: Result<Id>)
      requires Valid() && formatP == argP == 0
      modifies this, store
      ensures store.Valid()
      ensures Came(low, old(store.mem), old(store.held), store.mem, store.held, BuildAll(mk, formatString, given), r)
    {
      hide BuildValue, Sound, Layered, Topped, Denotes, ArgsFit;
      ghost var mem, held := store.mem, store.held;
      assert Format() == formatString && Args() == given;
      NothingCame(low, mem, held, InternalError);
      if |formatString| == 0 {
        ValueCases(mk, formatString, given);
        return Fault(InternalError);
      }
      r := GetValue();
      if r.Ok? && Here() != '\0' {
        GiveUp(store, r.value, low, mem, held);
        r := Fault(InternalError);
      }
    }
  }

  /** An empty container to build in. */
  method NewContainer(store: ValueStore, ghost low: Id, body: Body) returns (id: Id)
    requires store.Valid() && low <= |store.mem| && Layered(store.mem, low) && (body == ArrayBody([]) || body == StructBody([]))
    modifies store
    ensures store.Valid() && id == |old(store.mem)| && store.held == old(store.held) + multiset{id}
    ensures Topped(low, old(store.mem), old(store.held), store.mem, store.held)
    ensures Denotes(store.mem, id, if body.ArrayBody? then Array([]) else Struct([]))
  {
    hide Sound, Layered;
    StartsTopped(low, store.mem, store.held);
    ToppedCreate(low, store.mem, store.held, store.mem, store.held, body);
    id := store.New(body);
  }

  /** What was under construction before an inner build still is after it. */
  lemma Inner(low: Id, base: Memory, hb: multiset<Id>, mem: Memory, h: multiset<Id>, now: Memory, h': multiset<Id>,
      x: Id, v: Value, b: Result<Value>, r: Result<Id>)
    requires Topped(low, base, hb, mem, h) && Came(low, mem, h, now, h', b, r) && Denotes(mem, x, v)
    ensures Topped(low, base, hb, now, h') && Denotes(now, x, v) && |base| <= |mem|
    ensures |base| == x && r.Ok? ==> MayHold(low, x, r.value)
  {
    hide Sound, Layered;
    ToppedTwice(low, base, hb, mem, h, now, h');
    ToppedDenotes(low, mem, h, now, h', x, v);
    hide Topped;
    DenotesLive(mem, x, v);
  }

  lemma DenotesLive(mem: Memory, x: Id, v: Value)
    requires Denotes(mem, x, v)
    ensures x < |mem|
  {}

  /** What parsing a key and a value comes to. */
  ghost predicate PairCame(low: Id, base: Memory, hb: multiset<Id>, now: Memory, h: multiset<Id>,
      p: Result<(Value, Value, string, seq<Given>)>, r: Result<(Id, Id)>)
  {
    && Topped(low, base, hb, now, h)
    && (if p.Fault? then r == Fault(p.code) && h == hb && Restored(base, now)
        else
          && r.Ok? && Denotes(now, r.value.0, p.value.0) && Denotes(now, r.value.1, p.value.1)
          && (r.value.0 < low || |base| <= r.value.0) && (r.value.1 < low || |base| <= r.value.1)
          && h == hb + multiset{r.value.0} + multiset{r.value.1})
  }

  lemma InnerPair(low: Id, base: Memory, hb: multiset<Id>, mem: Memory, h: multiset<Id>, now: Memory, h': multiset<Id>,
      x: Id, v: Value, p: Result<(Value, Value, string, seq<Given>)>, r: Result<(Id, Id)>)
    requires Topped(low, base, hb, mem, h) && PairCame(low, mem, h, now, h', p, r) && Denotes(mem, x, v)
    ensures Topped(low, base, hb, now, h') && Denotes(now, x, v)
    ensures |base| == x && r.Ok? ==> MayHold(low, x, r.value.0) && MayHold(low, x, r.value.1)
  {
    hide Sound, Layered;
    ToppedTwice(low, base, hb, mem, h, now, h');
    ToppedDenotes(low, mem, h, now, h', x, v);
    hide Topped;
    DenotesLive(mem, x, v);
  }

  lemma BaseLayered(mem: Memory, held: multiset<Id>)
    requires Sound(mem, held)
    ensures Layered(mem, |mem|)
  {
    hide HeldCount, HashKey, StructsOk;
    forall p: Id, x: Id | p < |mem| && x in CellRefs(mem[p]) ensures x < |mem| { HeldIsLive(mem, held, p, x); }
  }

  lemma KindInMemory(mem: Memory, id: Id, v: Value)
    requires Denotes(mem, id, v)
    ensures IsLive(mem, id) && (mem[id].body.ArrayBody? <==> v.Array?) && (mem[id].body.StructBody? <==> v.Struct?)
  {}

  lemma ValueCases(mk: Makers, f: string, args: seq<Given>)
    ensures var c, b := Peek(f), BuildValue(mk, f, args);
      && (c == '\0' ==> b == Refused(InternalError))
      && (c == 'n' ==> b == Ready(Nil, f[1..], args))
      && (c == '(' ==> b == BuildItems(mk, f[1..], args, []))
      && (c == '{' ==> b == BuildMembers(mk, f[1..], args, []))
  {
    hide BuildItems, BuildMembers;
  }

  lemma ItemCases(mk: Makers, f: string, args: seq<Given>, done: seq<Value>)
    ensures var c, b := Peek(f), BuildItems(mk, f, args, done);
      && (c == ')' ==> b == Ready(Array(done), f[1..], args))
      && (c == '\0' ==> b == Refused(InternalError))
      && (c !in {')', '\0'} ==>
            var x := BuildValue(mk, f, args);
            b == if x.Refused? then x else BuildItems(mk, x.format, x.args, done + [x.value]))
  {
    hide BuildValue;
  }

  /** A key, a colon and a value. */
  ghost function PairAt(mk: Makers, f: string, args: seq<Given>): Result<(Value, Value, string, seq<Given>)> {
    var key := BuildValue(mk, f, args);
    if key.Refused? then Fault(key.code)
    else if Peek(key.format) != ':' then Fault(InternalError)
    else
      var v := BuildValue(mk, key.format[1..], key.args);
      if v.Refused? then Fault(v.code) else Ok((key.value, v.value, v.format, v.args))
  }

  lemma MemberCases(mk: Makers, f: string, args: seq<Given>, done: seq<Member>)
    ensures var b, p := BuildMembers(mk, f, args, done), PairAt(mk, f, args);
      if Peek(f) == '}' then b == Ready(Struct(done), f[1..], args)
      else if p.Fault? then b == Refused(p.code)
      else if AfterMember(p.value.2).None? then b == Refused(InternalError)
      else if !p.value.0.Str? then b == Refused(TypeError)
      else b == BuildMembers(mk, AfterMember(p.value.2).value, p.value.3, SetMember(done, p.value.0.str, p.value.1))
  {
    hide BuildValue, SetMember;
  }
}
