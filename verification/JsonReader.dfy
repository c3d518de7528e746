/** The recursive-descent parser of xmlrpc-c/src/json.c, which moves a tokenizer
over the document and builds reference-counted values. */
module JsonReader {
  import opened Text
  import opened Values
  import opened Cells
  import opened Structs
  import opened ValueStores
  import opened Trees
  import opened JsonLexer
  import opened JsonStrings
  import opened JsonGrammar

  /** makeUtf8String(), on the body of the current string token. */
  method MakeUtf8String(tok: Tokenizer, store: ValueStore) returns (ok: bool, id: Id)
    requires tok.Current() && tok.typ == StringToken && store.Valid()
    modifies store
    ensures store.Valid() && ok && StringValue(tok.Text()).Some? && id == old(|store.mem|)
    ensures store.mem == Create(old(store.mem), Leaf(Str(StringValue(tok.Text()).value)))
    ensures store.held == old(store.held) + multiset{id}
  {
    hide BodyLen, Unescape, TokenAt, Create, Sound;
    var block;
    StringTokenBody(tok.original, tok.begin, tok.end);
    ok, block := UnescapeString(tok.original, tok.begin + 1, tok.end - 1);
    id := store.New(Leaf(Str(block)));
  }

  /** The result of parsing a value. */
  ghost predicate Outcome(p: Parsed, base: Memory, held: multiset<Id>, now: Memory, held': multiset<Id>, r: Option<Id>) {
    Alone(if p.Done? then Some(p.value) else None, base, held, now, held', r)
  }

  /** parseListElement(): the current token starts an item; after it comes a comma
      or the end of the list. */
  method ParseListElement(tok: Tokenizer, store: ValueStore, arr: Id, ghost base: Memory)
    returns (ok: bool, endOfList: bool)
    requires tok.Current() && store.Valid()
    requires Grown(base, store.mem) && |base| <= arr && IsArray(store.mem, arr) && arr in store.held
    modifies tok, store
    ensures tok.Valid() && store.Valid() && Grown(base, store.mem) && store.held == old(store.held)
    ensures old(tok.end) <= tok.end && IsArray(store.mem, arr)
    ensures Denote(old(store.mem), arr).Array?
    ensures var p := JsonGrammar.ParseValue(old(tok.typ), old(tok.Text()), old(tok.Rest()));
      if p.Done? && Next(p.rest).Step? && (Next(p.rest).typ == Comma || Next(p.rest).typ == CloseBracket) then
        && ok && (endOfList <==> Next(p.rest).typ == CloseBracket) && tok.Rest() == Next(p.rest).rest
        && Denote(store.mem, arr) == Array(Denote(old(store.mem), arr).items + [p.value])
        && old(tok.end) < tok.end
      else
        !ok
    decreases |tok.original| - tok.end, 3
  {
    hide HeldCount, HashKey, Denote, Drop, Structs.AppendItem, StructsOk, Conserved, NoneDying, Upward, Next,
      JsonGrammar.ParseValue, TokenAt;
    endOfList := false;
    ghost var mem, held := store.mem, store.held;
    ghost var p := JsonGrammar.ParseValue(tok.typ, tok.Text(), tok.Rest());
    var item := ParseValue(tok, store);
    ok := item.Some?;
    if ok {
      ItemParsed(base, mem, held, arr, store.mem, item.value, p.value);
      ok := store.AppendItem(arr, item.value);
      ok := tok.GetToken();
      if ok {
        if tok.typ == Comma {
          endOfList := false;
        } else if tok.typ == CloseBracket {
          endOfList := true;
        } else {
          ok := false;
        }
      }
      store.Decref(item.value);
      assert held + multiset{item.value} - multiset{item.value} == held;
    } else {
      GrownTwice(base, mem, held, store.mem, store.held);
      DenoteArray(mem, arr);
    }
  }

  lemma ItemsStep(r: string, done: seq<Value>)
    ensures var s, total := Next(r), ParseItems(r, done);
      if s.NoToken? then total == Failed
      else if s.typ == Eof || s.typ == CloseBracket then total == Done(Array(done), s.rest)
      else
        (s.typ == Float ==> IsFloatWord(s.text)) &&
        var p := JsonGrammar.ParseValue(s.typ, s.text, s.rest);
        if p.Failed? then total == Failed
        else
          var t := Next(p.rest);
          if t.Step? && t.typ == Comma then total == ParseItems(t.rest, done + [p.value])
          else if t.Step? && t.typ == CloseBracket then total == Done(Array(done + [p.value]), t.rest)
          else total == Failed
  {
    hide Next, JsonGrammar.ParseValue, IsFloatWord;
    FloatTokenIsFloat(r);
  }

  /** parseList(): the current token is the opening bracket. */
  method ParseList(tok: Tokenizer, store: ValueStore) returns (r: Option<Id>)
    requires tok.Valid() && store.Valid()
    modifies tok, store
    ensures tok.Valid() && store.Valid() && old(tok.end) <= tok.end
    ensures var p := ParseItems(old(tok.Rest()), []);
      && Outcome(p, old(store.mem), old(store.held), store.mem, store.held, r)
      && (p.Done? ==> tok.Rest() == p.rest)
    decreases |tok.original| - tok.end, 0
  {
    hide HeldCount, HashKey, Denote, Drop, StructsOk, Conserved, NoneDying, Upward, Next,
      JsonGrammar.ParseValue, ParseItems, TokenAt, IsFloatWord;
    ghost var base, held := store.mem, store.held;
    ghost var total, done := ParseItems(tok.Rest(), []), [];
    StartsGrown(base);
    CreateGrows(base, base, held, ArrayBody([]));
    var arr := store.New(ArrayBody([]));
    var ok, endOfList := true, false;
    while !endOfList && ok
      invariant tok.Valid() && store.Valid() && old(tok.end) <= tok.end
      invariant Grown(base, store.mem) && store.held == held + multiset{arr} && IsArray(store.mem, arr)
      invariant ok ==> Denote(store.mem, arr) == Array(done)
      invariant if !ok then total.Failed?
                else if endOfList then total == Done(Array(done), tok.Rest())
                else total == ParseItems(tok.Rest(), done)
      decreases |tok.original| - tok.end, ok && !endOfList
    {
      ItemsStep(tok.Rest(), done);
      ghost var s := Next(tok.Rest());
      ok := tok.GetToken();
      if ok {
        if tok.typ == Eof {
          endOfList := true;
        } else if tok.typ == CloseBracket {
          endOfList := true;
        } else {
          ok, endOfList := ParseListElement(tok, store, arr, base);
          if ok {
            done := done + [JsonGrammar.ParseValue(s.typ, s.text, s.rest).value];
          }
        }
      }
    }
    if ok {
      r := Some(arr);
    } else {
      r := None;
      AllGivenBack(base, store.mem, held, arr);
      store.Decref(arr);
      assert held + multiset{arr} - multiset{arr} == held;
    }
  }

  /** parseObjectMemberValue(): the current token is the colon. */
  method ParseObjectMemberValue(tok: Tokenizer, store: ValueStore, key: Id, object': Id, ghost base: Memory)
    returns (ok: bool)
    requires tok.Valid() && store.Valid() && Grown(base, store.mem)
    requires |base| <= object' < key && IsStruct(store.mem, object') && IsString(store.mem, key)
    requires object' in store.held && key in store.held
    modifies tok, store
    ensures tok.Valid() && store.Valid() && Grown(base, store.mem) && store.held == old(store.held)
    ensures old(tok.end) <= tok.end && IsStruct(store.mem, object')
    ensures Denote(old(store.mem), object').Struct?
    ensures var p := ParseNext(old(tok.Rest()));
      && (ok <==> p.Done?)
      && (ok ==>
            && tok.Rest() == p.rest
            && Denote(store.mem, object') ==
                 Struct(SetMember(Denote(old(store.mem), object').members, KeyText(old(store.mem), key), p.value)))
    decreases |tok.original| - tok.end, 2
  {
    hide HeldCount, HashKey, Denote, Drop, StructsOk, Conserved, NoneDying, Upward, Next, SetMember,
      JsonGrammar.ParseValue, TokenAt, IsFloatWord, WithValue, StructOk;
    ghost var mem, held := store.mem, store.held;
    ghost var p := ParseNext(tok.Rest());
    NextStep(tok.Rest());
    DenoteStruct(mem, object');
    ok := tok.GetToken();
    if ok {
      var value := ParseValue(tok, store);
      ok := value.Some?;
      if ok {
        MemberParsed(base, mem, held, object', key, store.mem, value.value, p.value);
        ok := store.SetValue(object', key, value.value);
        GivenBack(base, store.mem, held, object', value.value);
        store.Decref(value.value);
        assert held + multiset{value.value} - multiset{value.value} == held;
      } else {
        GrownTwice(base, mem, held, store.mem, store.held);
      }
    }
  }

  lemma NextStep(r: string)
    ensures var s := Next(r);
      if s.NoToken? then ParseNext(r) == Failed
      else
        (s.typ == Float ==> IsFloatWord(s.text))
        && ParseNext(r) == JsonGrammar.ParseValue(s.typ, s.text, s.rest)
  {
    hide Next, IsFloatWord, ParseItems, ParseMembers;
    FloatTokenIsFloat(r);
  }

  /** parseObjectMember(): the current token is the string that is the key. */
  method ParseObjectMember(tok: Tokenizer, store: ValueStore, object': Id, ghost base: Memory) returns (ok: bool)
    requires tok.Current() && tok.typ == StringToken && store.Valid() && Grown(base, store.mem)
    requires |base| <= object' && IsStruct(store.mem, object') && object' in store.held
    modifies tok, store
    ensures tok.Valid() && store.Valid() && Grown(base, store.mem) && store.held == old(store.held)
    ensures old(tok.end) <= tok.end && IsStruct(store.mem, object')
    ensures Denote(old(store.mem), object').Struct? && StringValue(old(tok.Text())).Some?
    ensures var p := ParseMemberValue(old(tok.Rest()));
      && (ok <==> p.Done?)
      && (ok ==>
            && tok.Rest() == p.rest
            && Denote(store.mem, object') ==
                 Struct(SetMember(Denote(old(store.mem), object').members, StringValue(old(tok.Text())).value, p.value)))
    decreases |tok.original| - tok.end, 3
  {
    hide HeldCount, HashKey, Denote, Drop, StructsOk, Conserved, NoneDying, Upward, Next, SetMember,
      ParseNext, TokenAt, IsFloatWord, StructOk, StringValue;
    ghost var mem, held := store.mem, store.held;
    ghost var text := StringValue(tok.Text());
    DenoteStruct(mem, object');
    HeldStaysLive(mem, held, object');
    var key;
    ok, key := MakeUtf8String(tok, store);
    CreateGrows(base, mem, held, Leaf(Str(text.value)));
    assert Denote(store.mem, object') == Denote(mem, object');
    ok := tok.GetToken();
    if ok {
      if tok.typ == Colon {
        ok := ParseObjectMemberValue(tok, store, key, object', base);
      } else {
        ok := false;
      }
    }
    GivenBack(base, store.mem, held, object', key);
    store.Decref(key);
    assert held + multiset{key} - multiset{key} == held;
  }

  lemma MembersStep(r: string, done: seq<Member>)
    ensures var s, total := Next(r), ParseMembers(r, done);
      if s.NoToken? then total == Failed
      else if s.typ == CloseBrace then total == Done(Struct(done), s.rest)
      else if s.typ != StringToken || StringValue(s.text).None? then total == Failed
      else
        var p := ParseMemberValue(s.rest);
        if p.Failed? then total == Failed
        else
          var t, done' := Next(p.rest), SetMember(done, StringValue(s.text).value, p.value);
          if t.Step? && t.typ == Comma then total == ParseMembers(t.rest, done')
          else if t.Step? && t.typ == CloseBrace then total == Done(Struct(done'), t.rest)
          else total == Failed
  {
    hide Next, ParseMemberValue, SetMember, StringValue;
  }

  /** parseObject(): the current token is the opening brace. */
  method ParseObject(tok: Tokenizer, store: ValueStore) returns (r: Option<Id>)
    requires tok.Valid() && store.Valid()
    modifies tok, store
    ensures tok.Valid() && store.Valid() && old(tok.end) <= tok.end
    ensures var p := ParseMembers(old(tok.Rest()), []);
      && Outcome(p, old(store.mem), old(store.held), store.mem, store.held, r)
      && (p.Done? ==> tok.Rest() == p.rest)
    decreases |tok.original| - tok.end, 0
  {
    hide HeldCount, HashKey, Denote, Drop, StructsOk, Conserved, NoneDying, Upward, Next,
      ParseMembers, ParseMemberValue, SetMember, StringValue, TokenAt, IsFloatWord;
    ghost var base, held := store.mem, store.held;
    ghost var total, done := ParseMembers(tok.Rest(), []), [];
    StartsGrown(base);
    CreateGrows(base, base, held, StructBody([]));
    var object' := store.New(StructBody([]));
    var ok, objectDone := true, false;
    while !objectDone && ok
      invariant tok.Valid() && store.Valid() && old(tok.end) <= tok.end
      invariant Grown(base, store.mem) && store.held == held + multiset{object'} && IsStruct(store.mem, object')
      invariant ok ==> Denote(store.mem, object') == Struct(done)
      invariant if !ok then total.Failed?
                else if objectDone then total == Done(Struct(done), tok.Rest())
                else total == ParseMembers(tok.Rest(), done)
      decreases |tok.original| - tok.end, ok && !objectDone
    {
      MembersStep(tok.Rest(), done);
      ghost var s := Next(tok.Rest());
      ok := tok.GetToken();
      if ok {
        if tok.typ == CloseBrace {
          objectDone := true;
        } else if tok.typ == StringToken {
          ok := ParseObjectMember(tok, store, object', base);
          if ok {
            done := SetMember(done, StringValue(s.text).value, ParseMemberValue(s.rest).value);
            ok := tok.GetToken();
            if ok {
              if tok.typ == Comma {
              } else if tok.typ == CloseBrace {
                objectDone := true;
              } else {
                ok := false;
              }
            }
          }
        } else {
          ok := false;
        }
      }
    }
    if ok {
      r := Some(object');
    } else {
      r := None;
      AllGivenBack(base, store.mem, held, object');
      store.Decref(object');
      assert held + multiset{object'} - multiset{object'} == held;
    }
  }

  /** parseValue(): the value that starts with the current token. */
  method ParseValue(tok: Tokenizer, store: ValueStore) returns (r: Option<Id>)
    requires tok.Current() && store.Valid()
    modifies tok, store
    ensures tok.Valid() && store.Valid() && old(tok.end) <= tok.end
    ensures var p := JsonGrammar.ParseValue(old(tok.typ), old(tok.Text()), old(tok.Rest()));
      && Outcome(p, old(store.mem), old(store.held), store.mem, store.held, r)
      && (p.Done? ==> tok.Rest() == p.rest)
    decreases |tok.original| - tok.end, 1
  {
    hide HeldCount, HashKey, Denote, Drop, Sound, Upward, Create, TokenAt, IsFloatWord, ParseItems, ParseMembers,
      FloatValue, Unescape, ParseInt64, Built;
    StartsGrown(store.mem);
    r := None;
    match tok.typ {
      case OpenBracket => r := ParseList(tok, store);
      case OpenBrace => r := ParseObject(tok, store);
      case Null => r := NewLeaf(store, Nil, tok.Rest());
      case Undefined => r := NewLeaf(store, Nil, tok.Rest());
      case False => r := NewLeaf(store, Bool(false), tok.Rest());
      case True => r := NewLeaf(store, Bool(true), tok.Rest());
      case Integer => r := IntegerTokenValue(tok, store);
      case Float => r := NewLeaf(store, Double(FloatValue(tok.Text())), tok.Rest());
      case StringToken => r := StringTokenValue(tok, store);
      case _ =>
    }
  }

  /** xmlrpc_nil_new() and the other constructors of values without parts. */
  method NewLeaf(store: ValueStore, v: Scalar, ghost rest: string) returns (r: Option<Id>)
    requires store.Valid()
    modifies store
    ensures store.Valid()
    ensures Outcome(Done(v, rest), old(store.mem), old(store.held), store.mem, store.held, r)
  {
    hide HeldCount, HashKey, Denote, Sound, Upward, Create, Alone;
    LeafAlone(store.mem, store.held, v);
    var id := store.New(Leaf(v));
    r := Some(id);
  }

  /** integerTokenValue() */
  method IntegerTokenValue(tok: Tokenizer, store: ValueStore) returns (r: Option<Id>)
    requires tok.Valid() && store.Valid()
    modifies store
    ensures store.Valid()
    ensures match ParseInt64(tok.Text())
      case None => r == None && store.mem == old(store.mem) && store.held == old(store.held)
      case Some(n) =>
        Outcome(Done(I8(n), tok.Rest()), old(store.mem), old(store.held), store.mem, store.held, r)
  {
    hide HeldCount, HashKey, Denote, Sound, Upward, Create, Outcome, ParseInt64;
    match ParseInt64(tok.Text()) {
      case None => r := None;
      case Some(n) => r := NewLeaf(store, I8(n), tok.Rest());
    }
  }

  /** stringTokenValue() */
  method StringTokenValue(tok: Tokenizer, store: ValueStore) returns (r: Option<Id>)
    requires tok.Current() && tok.typ == StringToken && store.Valid()
    modifies store
    ensures store.Valid() && StringValue(tok.Text()).Some?
    ensures Outcome(Done(Str(StringValue(tok.Text()).value), tok.Rest()), old(store.mem), old(store.held), store.mem, store.held, r)
  {
    hide HeldCount, HashKey, Denote, Sound, Upward, Create, Alone, StringValue, TokenAt;
    var ok, id := MakeUtf8String(tok, store);
    LeafAlone(old(store.mem), old(store.held), Str(StringValue(tok.Text()).value));
    r := if ok then Some(id) else None;
  }

  /** xmlrpc_parse_json(): the result is the value the grammar gives to the text.
      On a fault every value created on the way has been freed again; otherwise
      the caller gets the one new reference, to the root. Nothing that was there
      before is touched. */
  method ParseJsonText(str: string, store: ValueStore) returns (r: Result<Id>)
    requires store.Valid()
    modifies store
    ensures store.Valid() && Grown(old(store.mem), store.mem)
    ensures match r
      case Ok(id) =>
        && ParseJson(str) == Ok(Denote(store.mem, id)) && store.held == old(store.held) + multiset{id}
        && old(|store.mem|) <= id && IsLive(store.mem, id)
      case Fault(c) =>
        && ParseJson(str) == Fault(c) && store.held == old(store.held)
        && forall j :: old(|store.mem|) <= j < |store.mem| ==> store.mem[j] == Freed
  {
    hide HeldCount, HashKey, Denote, Drop, StructsOk, Conserved, NoneDying, Upward, Next, TokenAt, IsFloatWord,
      JsonGrammar.ParseValue;
    ghost var base, held := store.mem, store.held;
    StartsGrown(base);
    NextStep(str);
    var tok := new Tokenizer(str);
    assert tok.Rest() == str;
    r := Fault(ParseError);
    var ok := tok.GetToken();
    if ok {
      var value := ParseValue(tok, store);
      if value.Some? {
        ok := tok.GetToken();
        if ok && tok.typ == Eof {
          r := Ok(value.value);
        } else {
          AllGivenBack(base, store.mem, held, value.value);
          store.Decref(value.value);
          assert held + multiset{value.value} - multiset{value.value} == held;
        }
      }
    }
    if r.Fault? {
      NothingLeft(base, held, store.mem);
    }
  }
}
