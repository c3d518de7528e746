/** Whole runs of operations on values, and structs seen as maps. */
module StoreRuns {
  import opened Text
  import opened Values
  import opened Cells
  import opened Structs
  import opened ValueStores

  // ---------------------------------------------------------------------
  // Runs

  datatype Op =
    | NewLeaf(v: Scalar) | NewArray | NewStruct
    | IncRef(id: Id) | DecRef(id: Id)
    | Append(arr: Id, item: Id) | ReadItem(arr: Id, index: nat)
    | SetMember(struct: Id, key: Id, value: Id) | FindMember(struct: Id, text: string)
    | ReadMember(struct: Id, index: nat)

  datatype State = State(mem: Memory, held: multiset<Id>)

  const START := State([], multiset{})

  /** What a caller must see to: it names live values only, and gives back only
      references it holds. */
  ghost predicate Enabled(s: State, op: Op) {
    match op
    case IncRef(id) => IsLive(s.mem, id)
    case DecRef(id) => id in s.held
    case Append(a, x) => IsLive(s.mem, a) && IsLive(s.mem, x)
    case ReadItem(a, _) => IsLive(s.mem, a)
    case SetMember(t, k, v) => IsLive(s.mem, t) && IsLive(s.mem, k) && IsLive(s.mem, v)
    case FindMember(t, _) => IsLive(s.mem, t)
    case ReadMember(t, _) => IsLive(s.mem, t)
    case _ => true
  }

  /** The struct `id`, if it is one, has good hashes and distinct keys. */
  ghost predicate Good(mem: Memory, id: Id)
    requires IsLive(mem, id)
  {
    mem[id].body.StructBody? ==> StructOk(mem, mem[id].body.members)
  }

  /** What an operation does. It relies on nothing but what the caller sees to, and on
      the struct it works on being good. */
  ghost function Apply(s: State, op: Op): State
    requires Enabled(s, op)
  {
    hide HashKey, StructOk;
    match op
    case NewLeaf(v) => State(Create(s.mem, Leaf(v)), s.held + multiset{|s.mem|})
    case NewArray => State(Create(s.mem, ArrayBody([])), s.held + multiset{|s.mem|})
    case NewStruct => State(Create(s.mem, StructBody([])), s.held + multiset{|s.mem|})
    case IncRef(id) => State(Retain(s.mem, id), s.held + multiset{id})
    case DecRef(id) => State(Drop(s.mem, [id]), s.held - multiset{id})
    case Append(a, x) => if s.mem[a].body.ArrayBody? then State(AppendItem(s.mem, a, x), s.held) else s
    case ReadItem(a, i) => Reading(s, if ItemAt(s.mem, a, i).Ok? then [ItemAt(s.mem, a, i).value] else [])
    case SetMember(t, k, v) =>
      if IsStruct(s.mem, t) && IsString(s.mem, k) && Good(s.mem, t) then State(WithValue(s.mem, t, k, v), s.held) else s
    case FindMember(t, text) =>
      if !Good(s.mem, t) then s
      else
        var r := ValueOf(s.mem, t, text);
        Reading(s, if r.Ok? && r.value.Some? then [r.value.value] else [])
    case ReadMember(t, i) =>
      var r := MemberAt(s.mem, t, i);
      Reading(s, if r.Ok? then [r.value.0, r.value.1] else [])
  }

  /** The caller gets a reference to each of `ids`. */
  function Reading(s: State, ids: seq<Id>): State
    decreases |ids|
  {
    if ids == [] || !IsLive(s.mem, ids[0]) then s
    else Reading(State(Retain(s.mem, ids[0]), s.held + multiset{ids[0]}), ids[1..])
  }

  lemma {:induction false} ReadingSound(s: State, ids: seq<Id>)
    requires Sound(s.mem, s.held)
    ensures Sound(Reading(s, ids).mem, Reading(s, ids).held)
    decreases |ids|
  {
    hide Sound;
    if ids != [] && IsLive(s.mem, ids[0]) {
      RetainSound(s.mem, s.held, ids[0]);
      ReadingSound(State(Retain(s.mem, ids[0]), s.held + multiset{ids[0]}), ids[1..]);
    }
  }

  lemma ApplySound(s: State, op: Op)
    requires Sound(s.mem, s.held) && Enabled(s, op)
    ensures Sound(Apply(s, op).mem, Apply(s, op).held)
  {
    hide Drop, Reading, WithValue, AppendItem, Create, Retain, HeldCount, HashKey, StructOk;
    match op
    case NewLeaf(v) => CreateSound(s.mem, s.held, Leaf(v));
    case NewArray => CreateSound(s.mem, s.held, ArrayBody([]));
    case NewStruct => CreateSound(s.mem, s.held, StructBody([]));
    case IncRef(id) => RetainSound(s.mem, s.held, id);
    case DecRef(id) =>
      assert multiset([id]) == multiset{id} && s.held - multiset{id} + multiset{id} == s.held;
      DropSound(s.mem, s.held - multiset{id}, [id]);
    case Append(a, x) => if s.mem[a].body.ArrayBody? { AppendSound(s.mem, s.held, a, x); }
    case SetMember(t, k, v) =>
      if IsStruct(s.mem, t) && IsString(s.mem, k) { SetValueSound(s.mem, s.held, t, k, v); }
    case ReadItem(a, i) => ReadingSound(s, if ItemAt(s.mem, a, i).Ok? then [ItemAt(s.mem, a, i).value] else []);
    case FindMember(t, text) =>
      var r := ValueOf(s.mem, t, text);
      ReadingSound(s, if r.Ok? && r.value.Some? then [r.value.value] else []);
    case ReadMember(t, i) =>
      var r := MemberAt(s.mem, t, i);
      ReadingSound(s, if r.Ok? then [r.value.0, r.value.1] else []);
  }

  /** `t` is where the operations `ops`, each enabled in its turn, lead from `s`. */
  ghost predicate Runs(s: State, ops: seq<Op>, t: State)
    decreases |ops|
  {
    if ops == [] then t == s
    else Enabled(s, ops[0]) && Runs(Apply(s, ops[0]), ops[1..], t)
  }

  lemma {:induction false} RunKeepsSound(s: State, ops: seq<Op>, t: State)
    requires Sound(s.mem, s.held) && Runs(s, ops, t)
    ensures Sound(t.mem, t.held)
    decreases |ops|
  {
    hide Sound, Apply, Enabled;
    if ops != [] {
      ApplySound(s, ops[0]);
      RunKeepsSound(Apply(s, ops[0]), ops[1..], t);
    }
  }

  /** After any run, the count of every value is the number of slots that hold it
      plus the references callers hold; no container holds a freed value; and in
      every struct the hashes are right and no key occurs twice. */
  lemma RunsAreSound(ops: seq<Op>, t: State)
    requires Runs(START, ops, t)
    ensures Sound(t.mem, t.held)
  {
    hide Sound, Runs;
    StartSound();
    RunKeepsSound(START, ops, t);
  }

  lemma StartSound()
    ensures Sound([], multiset{})
  {
    assert forall id: Id :: HeldCount([], id) == 0;
  }

  /** So in every run each struct an operation works on is good. */
  lemma RunsFindGoodStructs(ops: seq<Op>, t: State, id: Id)
    requires Runs(START, ops, t) && IsLive(t.mem, id)
    ensures Good(t.mem, id)
  {
    hide Runs, HeldCount, HashKey, StructOk;
    RunsAreSound(ops, t);
  }

  // ---------------------------------------------------------------------
  // Structs as maps

  /** The key texts of a struct with the values they lead to, in member order. */
  function Entries(mem: Memory, members: seq<MemberRec>): (es: seq<(string, Id)>)
    requires forall i :: 0 <= i < |members| ==> IsString(mem, members[i].key)
    ensures |es| == |members|
    ensures forall i :: 0 <= i < |es| ==> es[i] == (KeyText(mem, members[i].key), members[i].value)
  {
    seq(|members|, i requires 0 <= i < |members| => (KeyText(mem, members[i].key), members[i].value))
  }

  function AsMap(es: seq<(string, Id)>): map<string, Id> {
    if es == [] then map[]
    else AsMap(es[..|es| - 1])[es[|es| - 1].0 := es[|es| - 1].1]
  }

  lemma {:induction false} MapHas(es: seq<(string, Id)>, i: nat)
    requires OneEntryPerKey(es) && i < |es|
    ensures es[i].0 in AsMap(es) && AsMap(es)[es[i].0] == es[i].1
  {
    if i < |es| - 1 {
      MapHas(es[..|es| - 1], i);
    }
  }

  lemma {:induction false} MapHasOnly(es: seq<(string, Id)>, key: string)
    requires forall i :: 0 <= i < |es| ==> es[i].0 != key
    ensures key !in AsMap(es)
  {
    if es != [] {
      MapHasOnly(es[..|es| - 1], key);
    }
  }

  ghost predicate OneEntryPerKey(es: seq<(string, Id)>) {
    forall i, j :: 0 <= i < j < |es| ==> es[i].0 != es[j].0
  }

  lemma StructEntriesDistinct(mem: Memory, members: seq<MemberRec>)
    requires StructOk(mem, members)
    ensures OneEntryPerKey(Entries(mem, members))
  {}

  /** Lookup by hash, then by text, is lookup in the map. */
  lemma LookupIsMapLookup(mem: Memory, members: seq<MemberRec>, key: string)
    requires StructOk(mem, members)
    ensures var m := AsMap(Entries(mem, members));
      match FindKey(mem, members, key)
      case None => key !in m
      case Some(i) => key in m && m[key] == members[i].value
  {
    hide HashKey, AsMap;
    var es := Entries(mem, members);
    match FindKey(mem, members, key)
    case None => MapHasOnly(es, key);
    case Some(i) => MapHas(es, i);
  }

  /** Setting a member is map update that keeps the order of the members: a known
      key keeps its place, a new one goes last. The struct must be one the caller
      holds. */
  lemma SetIsMapUpdate(mem: Memory, held: multiset<Id>, struct: Id, key: Id, value: Id)
    requires Sound(mem, held) && IsStruct(mem, struct) && IsString(mem, key) && IsLive(mem, key) && IsLive(mem, value)
    requires struct in held
    ensures StructOk(mem, mem[struct].body.members)
    ensures var now := WithValue(mem, struct, key, value);
      && IsStruct(now, struct) && StructOk(now, now[struct].body.members)
      && var es := Entries(mem, mem[struct].body.members);
         var es' := Entries(now, now[struct].body.members);
         && AsMap(es') == AsMap(es)[KeyText(mem, key) := value]
         && (forall i :: 0 <= i < |es| ==> i < |es'| && es'[i].0 == es[i].0)
         && |es'| == |es| + if KeyText(mem, key) in AsMap(es) then 0 else 1
  {
    hide HashKey, HeldCount, AsMap, FindKey, ChangeMember, AddMember;
    var members := mem[struct].body.members;
    var text := KeyText(mem, key);
    assert StructOk(mem, members);
    var es := Entries(mem, members);
    var now := WithValue(mem, struct, key, value);
    SetValueSound(mem, held, struct, key, value);
    assert HeldCount(now, struct) + held[struct] == CountAt(now, struct);
    LookupIsMapLookup(mem, members, text);
    StructEntriesDistinct(mem, members);
    match FindKey(mem, members, text) {
      case Some(i) =>
        ChangedEntries(mem, held, struct, i, value);
        UpdatedMap(es, i, value);
      case None =>
        AddedStructOk(mem, struct, key, value);
        AddedEntries(mem, struct, key, value);
        ExtendedMap(es, text, value);
    }
  }

  lemma ChangedEntries(mem: Memory, held: multiset<Id>, struct: Id, i: nat, value: Id)
    requires Sound(mem, held) && IsStruct(mem, struct) && i < |mem[struct].body.members| && IsLive(mem, value)
    requires Sound(ChangeMember(mem, struct, i, value), held) && IsLive(ChangeMember(mem, struct, i, value), struct)
    ensures var now := ChangeMember(mem, struct, i, value);
      IsStruct(now, struct) && StructOk(mem, mem[struct].body.members) && StructOk(now, now[struct].body.members)
      && var es := Entries(mem, mem[struct].body.members);
         Entries(now, now[struct].body.members) == es[i := (es[i].0, value)]
  {
    hide HashKey, HeldCount;
    var members := mem[struct].body.members;
    assert StructOk(mem, members);
    ChangedBody(mem, struct, i, value);
    hide ChangeMember;
    var now := ChangeMember(mem, struct, i, value);
    EntriesKept(mem, now, held, struct, now[struct].body.members);
  }

  lemma AddedEntries(mem: Memory, struct: Id, key: Id, value: Id)
    requires IsStruct(mem, struct) && IsString(mem, key) && IsLive(mem, key) && IsLive(mem, value)
    requires StructOk(mem, mem[struct].body.members)
    requires var now := AddMember(mem, struct, key, value); IsStruct(now, struct) && StructOk(now, now[struct].body.members)
    ensures var now := AddMember(mem, struct, key, value);
      Entries(now, now[struct].body.members) == Entries(mem, mem[struct].body.members) + [(KeyText(mem, key), value)]
  {
    hide HashKey;
    var members := mem[struct].body.members;
    var now := AddMember(mem, struct, key, value);
    var added := members + [MemberRec(HashKey(KeyText(mem, key)), key, value)];
    assert now[struct].body == StructBody(added);
    var es, es' := Entries(mem, members), Entries(now, added);
    forall i | 0 <= i < |members| ensures es'[i] == es[i] {
      assert added[i] == members[i];
    }
  }

  lemma ChangedBody(mem: Memory, struct: Id, i: nat, value: Id)
    requires IsStruct(mem, struct) && i < |mem[struct].body.members| && IsLive(mem, value)
    requires IsLive(ChangeMember(mem, struct, i, value), struct)
    ensures ChangeMember(mem, struct, i, value)[struct].body
              == StructBody(mem[struct].body.members[i := mem[struct].body.members[i].(value := value)])
    ensures KeepsStrings(mem, ChangeMember(mem, struct, i, value))
  {
    var members := mem[struct].body.members;
    var changed := members[i := members[i].(value := value)];
    DropSurvives(Retain(Rewrite(mem, struct, StructBody(changed)), value), [members[i].value]);
  }

  lemma EntriesKept(mem: Memory, now: Memory, held: multiset<Id>, struct: Id, members: seq<MemberRec>)
    requires Sound(now, held) && IsStruct(now, struct) && now[struct].body.members == members
    requires KeepsStrings(mem, now)
    requires forall i :: 0 <= i < |members| ==> IsString(mem, members[i].key)
    ensures forall i :: 0 <= i < |members| ==>
              IsString(now, members[i].key) && KeyText(now, members[i].key) == KeyText(mem, members[i].key)
  {
    hide HeldCount, HashKey;
    forall i | 0 <= i < |members|
      ensures IsString(now, members[i].key) && KeyText(now, members[i].key) == KeyText(mem, members[i].key)
    {
      MemberKeyLive(now, held, struct, i);
    }
  }

  lemma {:induction false} UpdatedMap(es: seq<(string, Id)>, i: nat, value: Id)
    requires i < |es| && OneEntryPerKey(es)
    ensures AsMap(es[i := (es[i].0, value)]) == AsMap(es)[es[i].0 := value]
  {
    var n := |es| - 1;
    var es' := es[i := (es[i].0, value)];
    if i == n {
      assert es'[..n] == es[..n];
    } else {
      UpdatedMap(es[..n], i, value);
      assert es'[..n] == es[..n][i := (es[i].0, value)];
    }
  }

  lemma ExtendedMap(es: seq<(string, Id)>, key: string, value: Id)
    ensures AsMap(es + [(key, value)]) == AsMap(es)[key := value]
  {
    assert (es + [(key, value)])[..|es|] == es;
  }
}
