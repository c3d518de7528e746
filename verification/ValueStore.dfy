/** The public operations on reference-counted values: INCREF and DECREF of
xmlrpc_data.c, the arrays of xmlrpc_array.c and the structs of xmlrpc_struct.c,
working on one memory. */
module ValueStores {
  import opened Text
  import opened Values
  import opened Cells
  import opened Structs

  /** Plain linear search for a key text. */
  function FindKey(mem: Memory, members: seq<MemberRec>, key: string): (index: Option<nat>)
    requires forall i :: 0 <= i < |members| ==> IsString(mem, members[i].key)
    ensures index.Some? ==> index.value < |members| && KeyText(mem, members[index.value].key) == key
    ensures index.Some? ==> forall i :: 0 <= i < index.value ==> KeyText(mem, members[i].key) != key
    ensures index.None? ==> forall i :: 0 <= i < |members| ==> KeyText(mem, members[i].key) != key
    decreases |members|
  {
    if members == [] then None
    else
      var n := |members| - 1;
      var front := FindKey(mem, members[..n], key);
      if front.Some? then front
      else if KeyText(mem, members[n].key) == key then Some(n) else None
  }

  predicate IsStruct(mem: Memory, id: Id) { IsLive(mem, id) && mem[id].body.StructBody? }

  predicate IsArray(mem: Memory, id: Id) { IsLive(mem, id) && mem[id].body.ArrayBody? }

  /** Setting a member: the value of an existing one changes, a new one is added. */
  function WithValue(mem: Memory, struct: Id, key: Id, value: Id): Memory
    requires IsStruct(mem, struct) && IsString(mem, key) && IsLive(mem, key) && IsLive(mem, value)
    requires StructOk(mem, mem[struct].body.members)
  {
    match FindKey(mem, mem[struct].body.members, KeyText(mem, key))
    case Some(i) => ChangeMember(mem, struct, i, value)
    case None => AddMember(mem, struct, key, value)
  }

  lemma CreateSound(mem: Memory, held: multiset<Id>, body: Body)
    requires Sound(mem, held) && (body.Leaf? || body == ArrayBody([]) || body == StructBody([]))
    ensures Sound(Create(mem, body), held + multiset{|mem|})
  {
    hide HeldCount, HashKey;
    CreateConserves(mem, held, body);
    StructsKept(mem, Create(mem, body), held + multiset{|mem|}, |mem|);
  }

  lemma RetainSound(mem: Memory, held: multiset<Id>, id: Id)
    requires Sound(mem, held) && IsLive(mem, id)
    ensures Sound(Retain(mem, id), held + multiset{id})
  {
    hide HeldCount, HashKey;
    RetainConserves(mem, held, id);
    StructsKept(mem, Retain(mem, id), held + multiset{id}, |mem|);
  }

  lemma AppendSound(mem: Memory, held: multiset<Id>, arr: Id, item: Id)
    requires Sound(mem, held) && IsArray(mem, arr) && IsLive(mem, item)
    ensures Sound(AppendItem(mem, arr, item), held)
  {
    hide HeldCount, HashKey;
    AppendConserves(mem, held, arr, item);
    StructsKept(mem, AppendItem(mem, arr, item), held, arr);
  }

  /** The struct with a member added is good, if the key text was not there. */
  lemma AddedStructOk(mem: Memory, struct: Id, key: Id, value: Id)
    requires StructsOk(mem) && IsStruct(mem, struct) && IsString(mem, key) && IsLive(mem, key) && IsLive(mem, value)
    requires FindKey(mem, mem[struct].body.members, KeyText(mem, key)).None?
    ensures var now := AddMember(mem, struct, key, value);
      IsStruct(now, struct) && StructOk(now, now[struct].body.members)
  {
    hide HashKey;
    var members := mem[struct].body.members;
    assert StructOk(mem, members);
    assert forall i :: 0 <= i < |members| ==> KeyText(mem, members[i].key) != KeyText(mem, key);
    hide FindKey;
    var added := members + [MemberRec(HashKey(KeyText(mem, key)), key, value)];
    assert StructOk(mem, added);
    var now := AddMember(mem, struct, key, value);
    assert now[struct].body == StructBody(added);
    StructOkKept(mem, now, added);
  }

  lemma AddMemberSound(mem: Memory, held: multiset<Id>, struct: Id, key: Id, value: Id)
    requires Sound(mem, held) && IsStruct(mem, struct) && IsString(mem, key) && IsLive(mem, key) && IsLive(mem, value)
    requires FindKey(mem, mem[struct].body.members, KeyText(mem, key)).None?
    ensures Sound(AddMember(mem, struct, key, value), held)
  {
    hide HeldCount, HashKey, FindKey, StructOk;
    var now := AddMember(mem, struct, key, value);
    AddMemberConserves(mem, held, struct, key, value);
    AddedStructOk(mem, struct, key, value);
    StructsKept(mem, now, held, struct);
  }

  /** A member's slot rewritten, with the reference to the old value pending. */
  ghost function Pending(mem: Memory, struct: Id, index: nat, value: Id): Memory
    requires IsStruct(mem, struct) && index < |mem[struct].body.members| && IsLive(mem, value)
  {
    var members := mem[struct].body.members;
    Retain(Rewrite(mem, struct, StructBody(members[index := members[index].(value := value)])), value)
  }

  lemma PendingSound(mem: Memory, held: multiset<Id>, struct: Id, index: nat, value: Id)
    requires Sound(mem, held) && IsStruct(mem, struct) && index < |mem[struct].body.members| && IsLive(mem, value)
    ensures Sound(Pending(mem, struct, index, value), held + multiset{mem[struct].body.members[index].value})
  {
    hide HeldCount, HashKey;
    var members := mem[struct].body.members;
    var changed := members[index := members[index].(value := value)];
    var pending := Pending(mem, struct, index, value);
    ChangeMemberPending(mem, held, struct, index, value);
    forall i | 0 <= i < |changed| ensures changed[i].key == members[i].key && changed[i].hash == members[i].hash {}
    assert StructOk(mem, changed);
    forall i | 0 <= i < |changed| ensures IsString(pending, changed[i].key) && KeyText(pending, changed[i].key) == KeyText(mem, changed[i].key) {}
    StructsKept(mem, pending, held + multiset{members[index].value}, struct);
  }

  lemma ChangeMemberSound(mem: Memory, held: multiset<Id>, struct: Id, index: nat, value: Id)
    requires Sound(mem, held) && IsStruct(mem, struct) && index < |mem[struct].body.members| && IsLive(mem, value)
    ensures Sound(ChangeMember(mem, struct, index, value), held)
  {
    hide HeldCount, HashKey, Drop, StructsOk, Conserved, NoneDying;
    var old' := mem[struct].body.members[index].value;
    PendingSound(mem, held, struct, index, value);
    assert multiset([old']) == multiset{old'};
    DropSound(Pending(mem, struct, index, value), held, [old']);
  }

  lemma SetValueSound(mem: Memory, held: multiset<Id>, struct: Id, key: Id, value: Id)
    requires Sound(mem, held) && IsStruct(mem, struct) && IsString(mem, key) && IsLive(mem, key) && IsLive(mem, value)
    ensures StructOk(mem, mem[struct].body.members)
    ensures Sound(WithValue(mem, struct, key, value), held)
  {
    hide HeldCount, HashKey, FindKey, AddMember, ChangeMember;
    assert StructOk(mem, mem[struct].body.members);
    match FindKey(mem, mem[struct].body.members, KeyText(mem, key))
    case Some(i) => ChangeMemberSound(mem, held, struct, i, value);
    case None => AddMemberSound(mem, held, struct, key, value);
  }

  class ValueStore {
    var mem: Memory
    ghost var held: multiset<Id>  // the references callers hold

    constructor ()
      ensures Valid() && mem == [] && held == multiset{}
    {
      mem, held := [], multiset{};
      new;
      assert forall id: Id :: HeldCount([], id) == 0;
    }

    ghost predicate Valid()
      reads this
    {
      Sound(mem, held)
    }

    /** xmlrpc_createXmlrpcValue(), and what each constructor fills in. */
    method New(body: Body) returns (id: Id)
      requires Valid() && (body.Leaf? || body == ArrayBody([]) || body == StructBody([]))
      modifies this
      ensures Valid() && id == old(|mem|)
      ensures mem == Create(old(mem), body) && held == old(held) + multiset{id}
    {
      CreateSound(mem, held, body);
      id := |mem|;
      mem := mem + [Live(1, body)];
      held := held + multiset{id};
    }

    method Incref(id: Id)
      requires Valid() && IsLive(mem, id)
      modifies this
      ensures Valid()
      ensures mem == Retain(old(mem), id) && held == old(held) + multiset{id}
    {
      RetainSound(mem, held, id);
      mem := mem[id := Live(mem[id].refcount + 1, mem[id].body)];
      held := held + multiset{id};
    }

    /** xmlrpc_DECREF(), which may run while other references are waiting to be
        released: `others` are all the references that stay. */
    method Release(id: Id, ghost others: multiset<Id>)
      requires Conserved(mem, others + multiset{id})
      modifies `mem
      ensures mem == Drop(old(mem), [id]) && Conserved(mem, others)
      decreases Total(mem), 0
    {
      hide HeldCount, Released, Total, Drop, Conserved, Refs;
      ghost var before := mem;
      ReleaseStart(before, others, id);
      var count := mem[id].refcount - 1;
      mem := mem[id := Live(count, mem[id].body)];
      if count == 0 {
        LastReleased(before, others, id);
        DyingConserved(before, mem, others + multiset(Refs(mem[id].body)), id);
        assert mem[id := Freed] == before[id := Freed];
        DestroyValue(id, others);
      } else {
        OneReleased(before, id);
      }
    }

    /** destroyValue(): what the dying value held is released, then it is freed. */
    method DestroyValue(id: Id, ghost others: multiset<Id>)
      requires id < |mem| && mem[id].Live? && mem[id].refcount == 0
      requires Conserved(mem, others + multiset(Refs(mem[id].body)))
      modifies `mem
      ensures mem == Drop(old(mem)[id := Freed], Refs(old(mem[id].body)))
      decreases Total(mem), 1
    {
      hide HeldCount, Total, Drop, Refs;
      var body := mem[id].body;
      var contents := Refs(body);
      var i := 0;
      DropNothing(mem, []);
      assert contents[..0] == [] && contents[0..] == contents;
      while i < |contents|
        invariant i <= |contents|
        invariant mem == Drop(old(mem), contents[..i])
        invariant Conserved(mem, others + multiset(contents[i..]))
      {
        assert contents[i..] == [contents[i]] + contents[i + 1..];
        assert contents[..i + 1] == contents[..i] + [contents[i]];
        DropTotal(old(mem), contents[..i]);
        DropThen(old(mem), contents[..i], [contents[i]]);
        assert others + multiset(contents[i..]) == others + multiset(contents[i + 1..]) + multiset{contents[i]};
        Release(contents[i], others + multiset(contents[i + 1..]));
        i := i + 1;
      }
      assert contents[..i] == contents;
      DyingIsFreed(old(mem), id, body, contents);
      mem := mem[id := Freed];
    }

    method Decref(id: Id)
      requires Valid() && id in held
      modifies this
      ensures Valid()
      ensures mem == Drop(old(mem), [id]) && held == old(held) - multiset{id}
    {
      hide HeldCount, HashKey, Drop;
      assert held - multiset{id} + multiset{id} == held;
      assert multiset([id]) == multiset{id};
      DropSound(mem, held - multiset{id}, [id]);
      held := held - multiset{id};
      Release(id, held);
    }

    /** xmlrpc_array_append_item() */
    method AppendItem(arr: Id, item: Id) returns (ok: bool)
      requires Valid() && IsLive(mem, arr) && IsLive(mem, item)
      modifies this
      ensures Valid() && held == old(held)
      ensures ok <==> old(mem)[arr].body.ArrayBody?
      ensures mem == if ok then Structs.AppendItem(old(mem), arr, item) else old(mem)
    {
      ok := mem[arr].body.ArrayBody?;
      if ok {
        AppendSound(mem, held, arr, item);
        mem := mem[item := Live(mem[item].refcount + 1, mem[item].body)];
        var contents := mem[arr].body.items;
        mem := mem[arr := Live(mem[arr].refcount, ArrayBody(contents + [item]))];
      }
    }

    /** xmlrpc_array_read_item(): the caller gets a reference. */
    method ReadItem(arr: Id, index: nat) returns (r: Result<Id>)
      requires Valid() && IsLive(mem, arr)
      modifies this
      ensures Valid()
      ensures r == ItemAt(old(mem), arr, index)
      ensures r.Ok? ==> IsLive(old(mem), r.value) && mem == Retain(old(mem), r.value) && held == old(held) + multiset{r.value}
      ensures r.Fault? ==> mem == old(mem) && held == old(held)
    {
      if !mem[arr].body.ArrayBody? { return Fault(TypeError); }
      if index >= |mem[arr].body.items| { return Fault(IndexError); }
      var item := mem[arr].body.items[index];
      HeldIsLive(mem, held, arr, item);
      Incref(item);
      r := Ok(item);
    }

    /** xmlrpc_array_get_item(): reads the item and gives the reference back at
        once, which changes nothing. */
    method GetItem(arr: Id, index: int) returns (r: Result<Id>)
      requires Valid() && IsLive(mem, arr)
      modifies this
      ensures Valid() && mem == old(mem) && held == old(held)
      ensures r == if index < 0 then Fault(IndexError) else ItemAt(mem, arr, index)
    {
      if index < 0 { return Fault(IndexError); }
      r := ReadItem(arr, index);
      if r.Ok? {
        RetainThenDrop(old(mem), r.value);
        assert old(held) + multiset{r.value} - multiset{r.value} == old(held);
        Decref(r.value);
      }
    }

    /** findMember(): by hash first, then by key text. */
    method FindMember(struct: Id, key: string) returns (index: Option<nat>)
      requires Valid() && IsStruct(mem, struct)
      ensures StructOk(mem, mem[struct].body.members)
      ensures index == FindKey(mem, mem[struct].body.members, key)
    {
      hide HeldCount, HashKey;
      assert StructOk(mem, mem[struct].body.members);
      var searchHash := HashStructKey(key);
      var contents := mem[struct].body.members;
      index := None;
      var i := 0;
      while i < |contents| && index.None?
        invariant i <= |contents|
        invariant index.None? ==> forall j :: 0 <= j < i ==> KeyText(mem, contents[j].key) != key
        invariant index.Some? ==> index.value < |contents| && KeyText(mem, contents[index.value].key) == key
      {
        if contents[i].hash == searchHash {
          if KeyText(mem, contents[i].key) == key {
            index := Some(i);
          }
        }
        i := i + 1;
      }
    }

    /** xmlrpc_struct_find_value(), whose key holds no NUL, and xmlrpc_struct_find_value_v(),
        which takes any string value: no member with the key is no fault. */
    method FindValue(struct: Id, key: string) returns (r: Result<Option<Id>>)
      requires Valid() && IsLive(mem, struct)
      modifies this
      ensures Valid()
      ensures old(mem)[struct].body.StructBody? ==> StructOk(old(mem), old(mem)[struct].body.members)
      ensures r == ValueOf(old(mem), struct, key)
      ensures r.Ok? && r.value.Some? ==>
                var x := r.value.value;
                IsLive(old(mem), x) && mem == Retain(old(mem), x) && held == old(held) + multiset{x}
      ensures !(r.Ok? && r.value.Some?) ==> mem == old(mem) && held == old(held)
    {
      if !mem[struct].body.StructBody? { return Fault(TypeError); }
      var index := FindMember(struct, key);
      if index.None? { return Ok(None); }
      MemberKeyLive(mem, held, struct, index.value);
      var value := mem[struct].body.members[index.value].value;
      Incref(value);
      r := Ok(Some(value));
    }

    /** xmlrpc_struct_read_value(): a missing key is a fault. */
    method ReadValue(struct: Id, key: string) returns (r: Result<Id>)
      requires Valid() && IsLive(mem, struct)
      modifies this
      ensures Valid()
      ensures old(mem)[struct].body.StructBody? ==> StructOk(old(mem), old(mem)[struct].body.members)
      ensures r == match ValueOf(old(mem), struct, key)
                   case Fault(c) => Fault(c)
                   case Ok(None) => Fault(IndexError)
                   case Ok(Some(x)) => Ok(x)
      ensures r.Ok? ==> IsLive(old(mem), r.value) && mem == Retain(old(mem), r.value) && held == old(held) + multiset{r.value}
      ensures r.Fault? ==> mem == old(mem) && held == old(held)
    {
      var found := FindValue(struct, key);
      match found {
        case Fault(c) => r := Fault(c);
        case Ok(None) => r := Fault(IndexError);
        case Ok(Some(x)) => r := Ok(x);
      }
    }

    /** xmlrpc_struct_read_member(): the caller gets a reference to each. */
    method ReadMember(struct: Id, index: nat) returns (r: Result<(Id, Id)>)
      requires Valid() && IsLive(mem, struct)
      modifies this
      ensures Valid()
      ensures r == MemberAt(old(mem), struct, index)
      ensures r.Ok? ==>
                var (key, value) := r.value;
                IsLive(old(mem), key) && IsLive(old(mem), value)
                && mem == Retain(Retain(old(mem), key), value) && held == old(held) + multiset{key} + multiset{value}
      ensures r.Fault? ==> mem == old(mem) && held == old(held)
    {
      if !mem[struct].body.StructBody? { return Fault(TypeError); }
      if index >= |mem[struct].body.members| { return Fault(IndexError); }
      var member := mem[struct].body.members[index];
      MemberKeyLive(mem, held, struct, index);
      Incref(member.key);
      Incref(member.value);
      r := Ok((member.key, member.value));
    }

    /** xmlrpc_struct_set_value_v() */
    method SetValue(struct: Id, key: Id, value: Id) returns (ok: bool)
      requires Valid() && IsLive(mem, struct) && IsLive(mem, key) && IsLive(mem, value)
      modifies this
      ensures Valid() && held == old(held)
      ensures ok <==> IsStruct(old(mem), struct) && IsString(old(mem), key)
      ensures ok ==> StructOk(old(mem), old(mem)[struct].body.members)
      ensures mem == if ok then WithValue(old(mem), struct, key, value) else old(mem)
    {
      ok := mem[struct].body.StructBody? && IsString(mem, key);
      if ok {
        hide HeldCount, HashKey, Drop, FindKey;
        SetValueSound(mem, held, struct, key, value);
        var index := FindMember(struct, KeyText(mem, key));
        match index {
          case Some(i) => ChangeMemberValue(struct, i, value);
          case None => AddNewMember(struct, key, value);
        }
      }
    }

    method ChangeMemberValue(struct: Id, index: nat, value: Id)
      requires Valid() && IsStruct(mem, struct) && index < |mem[struct].body.members| && IsLive(mem, value)
      modifies `mem
      ensures mem == ChangeMember(old(mem), struct, index, value)
    {
      hide HeldCount, Drop, StructsOk;
      ChangeMemberPending(mem, held, struct, index, value);
      var members := mem[struct].body.members;
      var oldValue := members[index].value;
      mem := mem[struct := Live(mem[struct].refcount, StructBody(members[index := members[index].(value := value)]))];
      mem := mem[value := Live(mem[value].refcount + 1, mem[value].body)];
      Release(oldValue, held);
    }

    method AddNewMember(struct: Id, key: Id, value: Id)
      requires IsStruct(mem, struct) && IsString(mem, key) && IsLive(mem, key) && IsLive(mem, value)
      modifies `mem
      ensures mem == AddMember(old(mem), struct, key, value)
    {
      hide HashKey;
      var members := mem[struct].body.members;
      var hash := HashStructKey(KeyText(mem, key));
      mem := mem[struct := Live(mem[struct].refcount, StructBody(members + [MemberRec(hash, key, value)]))];
      mem := mem[key := Live(mem[key].refcount + 1, mem[key].body)];
      mem := mem[value := Live(mem[value].refcount + 1, mem[value].body)];
    }
  }

  function ItemAt(mem: Memory, arr: Id, index: nat): Result<Id>
    requires IsLive(mem, arr)
  {
    if !mem[arr].body.ArrayBody? then Fault(TypeError)
    else if index >= |mem[arr].body.items| then Fault(IndexError)
    else Ok(mem[arr].body.items[index])
  }

  function MemberAt(mem: Memory, struct: Id, index: nat): Result<(Id, Id)>
    requires IsLive(mem, struct)
  {
    if !mem[struct].body.StructBody? then Fault(TypeError)
    else if index >= |mem[struct].body.members| then Fault(IndexError)
    else Ok((mem[struct].body.members[index].key, mem[struct].body.members[index].value))
  }

  function ValueOf(mem: Memory, struct: Id, key: string): Result<Option<Id>>
    requires IsLive(mem, struct) && (mem[struct].body.StructBody? ==> StructOk(mem, mem[struct].body.members))
  {
    if !mem[struct].body.StructBody? then Fault(TypeError)
    else match FindKey(mem, mem[struct].body.members, key)
      case None => Ok(None)
      case Some(i) => Ok(Some(mem[struct].body.members[i].value))
  }

  lemma RetainThenDrop(mem: Memory, id: Id)
    requires IsLive(mem, id)
    ensures Drop(Retain(mem, id), [id]) == mem
  {
    var m := Retain(mem, id);
    DropLive(m, [id]);
    assert m[id := Live(mem[id].refcount, mem[id].body)] == mem;
    assert [] + [id][1..] == [];
  }

  lemma OneReleased(before: Memory, id: Id)
    requires IsLive(before, id) && before[id].refcount > 1
    ensures Drop(before, [id]) == before[id := Live(before[id].refcount - 1, before[id].body)]
  {
    DropLive(before, [id]);
    assert [] + [id][1..] == [];
  }

  lemma ReleaseStart(before: Memory, others: multiset<Id>, id: Id)
    requires Conserved(before, others + multiset{id})
    ensures IsLive(before, id)
    ensures Conserved(Drop(before, [id]), others)
    ensures Total(before[id := Live(before[id].refcount - 1, before[id].body)]) < Total(before)
  {
    hide HeldCount;
    assert multiset([id]) == multiset{id};
    DropStep(before, others, [id]);
    DropConserves(before, others, [id]);
    TotalUpdate(before, id, Live(before[id].refcount - 1, before[id].body));
  }

  lemma LastReleased(before: Memory, others: multiset<Id>, id: Id)
    requires Conserved(before, others + multiset{id})
    requires IsLive(before, id) && before[id].refcount == 1
    ensures Drop(before, [id]) == Drop(before[id := Freed], Refs(before[id].body))
    ensures Conserved(before[id := Freed], others + multiset(Refs(before[id].body)))
  {
    hide HeldCount;
    DropLive(before, [id]);
    assert multiset([id]) == multiset{id};
    DropStep(before, others, [id]);
    assert Refs(before[id].body) + [id][1..] == Refs(before[id].body);
  }

  /** A dying value counts for as little as a freed one. */
  lemma DyingConserved(before: Memory, now: Memory, held: multiset<Id>, id: Id)
    requires id < |before| == |now| && now == before[id := now[id]] && now[id].Live? && now[id].refcount == 0
    requires Conserved(before[id := Freed], held)
    ensures Conserved(now, held)
  {
    hide HeldCount;
    var freed := before[id := Freed];
    assert freed[id := now[id]] == now;
    forall x: Id ensures HeldCount(now, x) + held[x] == CountAt(now, x) {
      HeldUpdate(freed, id, now[id], x);
      assert HeldCount(freed, x) + held[x] == CountAt(freed, x);
    }
  }
}
