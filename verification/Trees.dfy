/** Values built by parsers: new values on top of a memory that stays as it was.

A parser creates each container before what goes into it, so in what it builds a
container refers only to later cells. */
module Trees {
  import opened Text
  import opened Values
  import opened Cells
  import opened Structs
  import opened ValueStores

  /** The value that the cell `id` and what it refers to denote. */
  function Denote(mem: Memory, id: Id): Value
    decreases |mem| - id, 1
  {
    if id >= |mem| || !mem[id].Live? then Dead
    else match mem[id].body
      case Leaf(v) => v
      case ArrayBody(items) => Array(DenoteItems(mem, id, items))
      case StructBody(members) => Struct(DenoteMembers(mem, id, members))
  }

  function DenoteAbove(mem: Memory, low: Id, x: Id): Value
    decreases |mem| - low, 0, 0
  {
    if low < x < |mem| then Denote(mem, x) else Dead
  }

  function DenoteItems(mem: Memory, low: Id, items: seq<Id>): (vs: seq<Value>)
    ensures |vs| == |items|
    ensures forall i :: 0 <= i < |vs| ==> vs[i] == DenoteAbove(mem, low, items[i])
    decreases |mem| - low, 0, 1
  {
    seq(|items|, i requires 0 <= i < |items| => DenoteAbove(mem, low, items[i]))
  }

  function MemberKey(mem: Memory, key: Id): string { if IsString(mem, key) then KeyText(mem, key) else "" }

  function DenoteMembers(mem: Memory, low: Id, members: seq<MemberRec>): (vs: seq<Member>)
    ensures |vs| == |members|
    ensures forall i :: 0 <= i < |vs| ==>
              vs[i] == Member(MemberKey(mem, members[i].key), DenoteAbove(mem, low, members[i].value))
    decreases |mem| - low, 0, 1
  {
    seq(|members|, i requires 0 <= i < |members| =>
      Member(MemberKey(mem, members[i].key), DenoteAbove(mem, low, members[i].value)))
  }

  /** From cell `low` on, containers refer to later cells only. */
  ghost predicate Upward(mem: Memory, low: Id) {
    forall p: Id, x: Id :: low <= p < |mem| && x in CellRefs(mem[p]) ==> p < x
  }

  /** `now` is `base` with new cells on top. */
  ghost predicate Grown(base: Memory, now: Memory) {
    |base| <= |now| && now[..|base|] == base && Upward(now, |base|)
  }

  /** What is live in `b` from `low` on was live in `a`, with the same body. */
  ghost predicate AgreeFrom(a: Memory, b: Memory, low: Id) {
    && |a| <= |b|
    && forall j: Id :: low <= j < |a| && IsLive(b, j) ==> IsLive(a, j) && b[j].body == a[j].body
  }

  lemma RefOfLive(mem: Memory, held: multiset<Id>, low: Id, p: Id, x: Id)
    requires Conserved(mem, held) && Upward(mem, low) && low <= p && IsLive(mem, p) && x in Refs(mem[p].body)
    ensures IsLive(mem, x) && p < x
  {
    hide HeldCount;
    assert x in CellRefs(mem[p]);
    HeldIsLive(mem, held, p, x);
  }

  /** A live value denotes the same in two memories that agree from it on. */
  lemma {:induction false} DenoteAgrees(a: Memory, ha: multiset<Id>, b: Memory, hb: multiset<Id>, id: Id)
    requires Conserved(a, ha) && Conserved(b, hb)
    requires AgreeFrom(a, b, id) && Upward(a, id) && id < |a| && IsLive(b, id)
    ensures Denote(b, id) == Denote(a, id)
    decreases |a| - id
  {
    hide HeldCount;
    assert b[id].body == a[id].body && IsLive(a, id);
    match a[id].body
    case Leaf(_) =>
    case ArrayBody(items) =>
      forall i | 0 <= i < |items| ensures DenoteAbove(b, id, items[i]) == DenoteAbove(a, id, items[i]) {
        RefAgrees(a, ha, b, hb, id, items[i]);
      }
      assert DenoteItems(b, id, items) == DenoteItems(a, id, items);
    case StructBody(members) =>
      forall i | 0 <= i < |members|
        ensures DenoteMembers(b, id, members)[i] == DenoteMembers(a, id, members)[i]
      {
        var refs := MemberRefs(members);
        assert refs[2 * i] == members[i].key && refs[2 * i + 1] == members[i].value;
        RefAgrees(a, ha, b, hb, id, members[i].value);
        RefAgrees(a, ha, b, hb, id, members[i].key);
      }
      assert DenoteMembers(b, id, members) == DenoteMembers(a, id, members);
  }

  lemma {:induction false} RefAgrees(a: Memory, ha: multiset<Id>, b: Memory, hb: multiset<Id>, id: Id, x: Id)
    requires Conserved(a, ha) && Conserved(b, hb)
    requires AgreeFrom(a, b, id) && Upward(a, id) && id < |a| && IsLive(b, id) && x in Refs(b[id].body)
    ensures DenoteAbove(b, id, x) == DenoteAbove(a, id, x)
    ensures MemberKey(b, x) == MemberKey(a, x)
    decreases |a| - id, 0
  {
    hide HeldCount, Refs;
    RefOfLive(a, ha, id, id, x);
    HeldIsLive(b, hb, id, x);
    DenoteAgrees(a, ha, b, hb, x);
    hide Denote;
  }

  // ---------------------------------------------------------------------
  // The steps of building

  /** `id` is a new live value that denotes `v`. */
  ghost predicate Built(base: Memory, mem: Memory, id: Id, v: Value) {
    |base| <= id && IsLive(mem, id) && Denote(mem, id) == v
  }

  lemma CreateGrows(base: Memory, mem: Memory, held: multiset<Id>, body: Body)
    requires Sound(mem, held) && Grown(base, mem)
    requires body.Leaf? || body == ArrayBody([]) || body == StructBody([])
    ensures Grown(base, Create(mem, body)) && IsLive(Create(mem, body), |mem|)
    ensures Denote(Create(mem, body), |mem|) ==
              if body.Leaf? then body.v else if body.ArrayBody? then Array([]) else Struct([])
    ensures forall id: Id :: |base| <= id && IsLive(mem, id) ==> Denote(Create(mem, body), id) == Denote(mem, id)
  {
    hide HeldCount, Denote, HashKey;
    var now := Create(mem, body);
    CreateSound(mem, held, body);
    forall id: Id | |base| <= id && IsLive(mem, id) ensures Denote(now, id) == Denote(mem, id) {
      DenoteAgrees(mem, held, now, held + multiset{|mem|}, id);
    }
    DenoteEmpty(now, |mem|);
  }

  lemma DenoteEmpty(mem: Memory, id: Id)
    requires IsLive(mem, id) && (mem[id].body.Leaf? || mem[id].body == ArrayBody([]) || mem[id].body == StructBody([]))
    ensures Denote(mem, id) == var body := mem[id].body;
              if body.Leaf? then body.v else if body.ArrayBody? then Array([]) else Struct([])
  {
    if mem[id].body == ArrayBody([]) {
      assert DenoteItems(mem, id, []) == [];
    } else if mem[id].body == StructBody([]) {
      assert DenoteMembers(mem, id, []) == [];
    }
  }

  /** What was built before an inner build is still there after it. */
  lemma GrownTwice(base: Memory, mem: Memory, held: multiset<Id>, now: Memory, held': multiset<Id>)
    requires Sound(mem, held) && Grown(base, mem) && Sound(now, held') && Grown(mem, now)
    ensures Grown(base, now)
    ensures forall id: Id :: |base| <= id && IsLive(mem, id) ==>
              IsLive(now, id) && now[id].body == mem[id].body && Denote(now, id) == Denote(mem, id)
  {
    hide HeldCount, Denote, HashKey;
    assert forall j :: 0 <= j < |mem| ==> now[j] == mem[j] by {
      assert forall j :: 0 <= j < |mem| ==> now[..|mem|][j] == now[j];
    }
    assert now[..|base|] == base;
    forall id: Id | |base| <= id && IsLive(mem, id) ensures Denote(now, id) == Denote(mem, id) {
      DenoteAgrees(mem, held, now, held', id);
    }
  }

  lemma {:induction false} DropAbove(mem: Memory, ids: seq<Id>, low: nat)
    requires Upward(mem, low) && low <= |mem| && forall i :: 0 <= i < |ids| ==> low <= ids[i]
    ensures Drop(mem, ids)[..low] == mem[..low] && Upward(Drop(mem, ids), low)
    decreases Total(mem), |ids|
  {
    if ids != [] {
      if !IsLive(mem, ids[0]) {
        DropAbove(mem, ids[1..], low);
      } else {
        DropLive(mem, ids);
        var id := ids[0];
        var (c, more) := Released(mem[id]);
        assert mem[id := c][..low] == mem[..low];
        forall i | 0 <= i < |more + ids[1..]| ensures low <= (more + ids[1..])[i] {
          if i < |more| { assert more[i] in CellRefs(mem[id]); }
        }
        DropAbove(mem[id := c], more + ids[1..], low);
      }
    }
  }

  /** Giving back a reference changes no new value that stays alive. */
  lemma DropGrown(base: Memory, mem: Memory, held: multiset<Id>, id: Id)
    requires Sound(mem, held) && Grown(base, mem) && id in held && |base| <= id
    ensures var now := Drop(mem, [id]);
      && Sound(now, held - multiset{id}) && Grown(base, now)
      && forall x: Id :: |base| <= x && IsLive(now, x) ==>
           IsLive(mem, x) && now[x].body == mem[x].body && Denote(now, x) == Denote(mem, x)
  {
    hide HeldCount, Denote, HashKey, Drop;
    var now := Drop(mem, [id]);
    assert multiset([id]) == multiset{id} && held - multiset{id} + multiset{id} == held;
    DropSound(mem, held - multiset{id}, [id]);
    DropSurvives(mem, [id]);
    DropAbove(mem, [id], |base|);
    forall x: Id | |base| <= x && IsLive(now, x)
      ensures IsLive(mem, x) && now[x].body == mem[x].body && Denote(now, x) == Denote(mem, x)
    {
      DenoteAgrees(mem, held, now, held - multiset{id}, x);
    }
  }

  lemma HeldStaysLive(mem: Memory, held: multiset<Id>, id: Id)
    requires Conserved(mem, held) && id in held
    ensures IsLive(mem, id)
  {
    hide HeldCount;
    assert HeldCount(mem, id) + held[id] == CountAt(mem, id);
  }

  lemma AppendBuilds(base: Memory, mem: Memory, held: multiset<Id>, arr: Id, item: Id)
    requires Sound(mem, held) && Grown(base, mem)
    requires |base| <= arr < item && IsArray(mem, arr) && IsLive(mem, item)
    ensures var now := AppendItem(mem, arr, item);
      && Sound(now, held) && Grown(base, now) && IsArray(now, arr) && IsLive(now, item)
      && Denote(mem, arr).Array? && Denote(now, arr) == Array(Denote(mem, arr).items + [Denote(mem, item)])
      && Denote(now, item) == Denote(mem, item)
  {
    hide HeldCount, HashKey;
    var now := AppendItem(mem, arr, item);
    var items := mem[arr].body.items;
    AppendSound(mem, held, arr, item);
    forall x: Id | arr < x && IsLive(mem, x) ensures Denote(now, x) == Denote(mem, x) {
      DenoteAgrees(mem, held, now, held, x);
    }
    assert now[arr].body == ArrayBody(items + [item]);
    var vs, vs' := DenoteItems(mem, arr, items), DenoteItems(now, arr, items + [item]);
    forall i | 0 <= i < |items| ensures vs'[i] == vs[i] {
      RefOfLive(mem, held, |base|, arr, items[i]);
    }
    assert vs' == vs + [Denote(mem, item)];
    forall p: Id, x: Id | |base| <= p < |now| && x in CellRefs(now[p]) ensures p < x {
      if p == arr && x != item { assert x in CellRefs(mem[p]); }
      else if p != arr { assert x in CellRefs(mem[p]); }
    }
    assert now[..|base|] == base;
  }

  lemma {:induction false} SetOldMember(members: seq<Member>, i: nat, key: string, value: Value)
    requires i < |members| && members[i].key == key && forall j :: 0 <= j < i ==> members[j].key != key
    ensures SetMember(members, key, value) == members[i := Member(key, value)]
  {
    if i > 0 {
      SetOldMember(members[1..], i - 1, key, value);
    }
  }

  /** `now` differs from `mem` only in the slots of `struct`, which hold later cells. */
  ghost predicate Reslotted(mem: Memory, now: Memory, struct: Id, members: seq<MemberRec>) {
    && IsStruct(mem, struct) && IsStruct(now, struct) && |now| == |mem|
    && now[struct].body == StructBody(members)
    && (forall j :: 0 <= j < |mem| && j != struct ==>
          (IsLive(now, j) <==> IsLive(mem, j)) && (IsLive(mem, j) ==> now[j].body == mem[j].body))
    && forall i :: 0 <= i < |members| ==>
         struct < members[i].key && struct < members[i].value
         && IsLive(mem, members[i].key) && IsString(mem, members[i].key) && IsLive(mem, members[i].value)
  }

  lemma ReslottedBuilds(base: Memory, mem: Memory, held: multiset<Id>, now: Memory, held': multiset<Id>,
      struct: Id, members: seq<MemberRec>)
    requires Sound(mem, held) && Sound(now, held') && Grown(base, mem) && |base| <= struct
    requires Reslotted(mem, now, struct, members) && now[..|base|] == mem[..|base|]
    ensures Grown(base, now)
    ensures Denote(now, struct).Struct? && Denote(now, struct).members == Slots(mem, members)
  {
    hide HeldCount, HashKey, Denote, StructsOk, NoneDying;
    forall i | 0 <= i < |members|
      ensures Denote(now, members[i].value) == Denote(mem, members[i].value)
      ensures MemberKey(now, members[i].key) == MemberKey(mem, members[i].key)
    {
      DenoteAgrees(mem, held, now, held', members[i].value);
    }
    ReslottedUpward(mem, now, |base|, struct, members);
    DenoteStruct(now, struct);
    assert DenoteMembers(now, struct, members) == Slots(mem, members);
  }

  lemma DenoteArray(mem: Memory, arr: Id)
    requires IsArray(mem, arr)
    ensures Denote(mem, arr) == Array(DenoteItems(mem, arr, mem[arr].body.items))
  {}

  lemma DenoteStruct(mem: Memory, struct: Id)
    requires IsStruct(mem, struct)
    ensures Denote(mem, struct) == Struct(DenoteMembers(mem, struct, mem[struct].body.members))
  {}

  lemma RefOfMember(members: seq<MemberRec>, x: Id) returns (i: nat)
    requires x in MemberRefs(members)
    ensures i < |members| && (x == members[i].key || x == members[i].value)
  {
    var k :| 0 <= k < |MemberRefs(members)| && MemberRefs(members)[k] == x;
    i := k / 2;
  }

  lemma ReslottedUpward(mem: Memory, now: Memory, low: Id, struct: Id, members: seq<MemberRec>)
    requires Upward(mem, low) && low <= struct && Reslotted(mem, now, struct, members)
    ensures Upward(now, low)
  {
    hide MemberRefs;
    forall p: Id, x: Id | low <= p < |now| && x in CellRefs(now[p]) ensures p < x {
      if p == struct {
        var i := RefOfMember(members, x);
      } else {
        assert x in CellRefs(mem[p]);
      }
    }
  }

  /** The members in memory order, as values. */
  ghost function Slots(mem: Memory, members: seq<MemberRec>): (vs: seq<Member>)
    ensures |vs| == |members|
    ensures forall i :: 0 <= i < |vs| ==> vs[i] == Member(MemberKey(mem, members[i].key), Denote(mem, members[i].value))
  {
    hide Denote;
    seq(|members|, i requires 0 <= i < |members| => Member(MemberKey(mem, members[i].key), Denote(mem, members[i].value)))
  }

  /** The members of a struct are live later cells. */
  lemma MembersLive(mem: Memory, held: multiset<Id>, low: Id, struct: Id)
    requires Sound(mem, held) && Upward(mem, low) && low <= struct && IsStruct(mem, struct)
    ensures forall i :: 0 <= i < |mem[struct].body.members| ==>
              var m := mem[struct].body.members[i];
              && struct < m.key && struct < m.value && IsLive(mem, m.key) && IsString(mem, m.key) && IsLive(mem, m.value)
    ensures Denote(mem, struct) == Struct(Slots(mem, mem[struct].body.members))
    ensures StructOk(mem, mem[struct].body.members)
  {
    hide HeldCount, HashKey, Denote;
    var members := mem[struct].body.members;
    assert StructOk(mem, members);
    forall i | 0 <= i < |members|
      ensures struct < members[i].key && struct < members[i].value
      ensures IsLive(mem, members[i].key) && IsLive(mem, members[i].value)
    {
      var refs := MemberRefs(members);
      assert refs[2 * i] == members[i].key && refs[2 * i + 1] == members[i].value;
      assert refs[2 * i] in Refs(mem[struct].body) && refs[2 * i + 1] in Refs(mem[struct].body);
      RefOfLive(mem, held, low, struct, members[i].key);
      RefOfLive(mem, held, low, struct, members[i].value);
    }
    DenoteStruct(mem, struct);
    assert DenoteMembers(mem, struct, members) == Slots(mem, members);
  }

  lemma SetBuilds(base: Memory, mem: Memory, held: multiset<Id>, struct: Id, key: Id, value: Id)
    requires Sound(mem, held) && Grown(base, mem)
    requires |base| <= struct < key && struct < value && IsStruct(mem, struct)
    requires IsString(mem, key) && IsLive(mem, key) && IsLive(mem, value) && struct in held
    ensures StructOk(mem, mem[struct].body.members)
    ensures var now := WithValue(mem, struct, key, value);
      && Sound(now, held) && Grown(base, now) && IsStruct(now, struct)
      && Denote(mem, struct).Struct?
      && Denote(now, struct) == Struct(SetMember(Denote(mem, struct).members, KeyText(mem, key), Denote(mem, value)))
  {
    hide HeldCount, HashKey, FindKey, AddMember, ChangeMember, Denote, Sound, StructOk, SetMember, Upward;
    SetValueSound(mem, held, struct, key, value);
    MembersLive(mem, held, |base|, struct);
    var members := mem[struct].body.members;
    var vs := Slots(mem, members);
    match FindKey(mem, members, KeyText(mem, key))
    case Some(i) =>
      SetOldMember(vs, i, KeyText(mem, key), Denote(mem, value));
      ChangeBuilds(base, mem, held, struct, i, value);
    case None =>
      SetNewMember(vs, KeyText(mem, key), Denote(mem, value));
      AddBuilds(base, mem, held, struct, key, value);
  }

  lemma AddBuilds(base: Memory, mem: Memory, held: multiset<Id>, struct: Id, key: Id, value: Id)
    requires Sound(mem, held) && Grown(base, mem)
    requires |base| <= struct < key && struct < value && IsStruct(mem, struct)
    requires IsString(mem, key) && IsLive(mem, key) && IsLive(mem, value)
    requires Sound(AddMember(mem, struct, key, value), held)
    ensures var now := AddMember(mem, struct, key, value);
      && Grown(base, now) && IsStruct(now, struct) && Denote(mem, struct).Struct?
      && Denote(now, struct) == Struct(Denote(mem, struct).members + [Member(KeyText(mem, key), Denote(mem, value))])
  {
    hide HeldCount, HashKey, Denote, Sound, StructOk;
    MembersLive(mem, held, |base|, struct);
    var members := mem[struct].body.members;
    var added := members + [MemberRec(HashKey(KeyText(mem, key)), key, value)];
    var now := AddMember(mem, struct, key, value);
    ReslottedBuilds(base, mem, held, now, held, struct, added);
    assert Slots(mem, added) == Slots(mem, members) + [Member(KeyText(mem, key), Denote(mem, value))];
  }

  lemma ChangeBuilds(base: Memory, mem: Memory, held: multiset<Id>, struct: Id, i: nat, value: Id)
    requires Sound(mem, held) && Grown(base, mem)
    requires |base| <= struct < value && IsStruct(mem, struct) && IsLive(mem, value) && struct in held
    requires i < |mem[struct].body.members|
    ensures var now := ChangeMember(mem, struct, i, value);
      && Grown(base, now) && IsStruct(now, struct) && Denote(mem, struct).Struct?
      && var vs := Denote(mem, struct).members;
         i < |vs| && Denote(now, struct) == Struct(vs[i := Member(vs[i].key, Denote(mem, value))])
  {
    hide HeldCount, HashKey, Denote, StructOk, StructsOk, Drop, NoneDying;
    MembersLive(mem, held, |base|, struct);
    var members := mem[struct].body.members;
    var changed := members[i := members[i].(value := value)];
    var old' := members[i].value;
    var pending := Pending(mem, struct, i, value);
    var held' := held + multiset{old'};
    PendingSound(mem, held, struct, i, value);
    ReslottedBuilds(base, mem, held, pending, held', struct, changed);
    var vs := Slots(mem, members);
    assert Slots(mem, changed) == vs[i := Member(vs[i].key, Denote(mem, value))];
    DropGrown(base, pending, held', old');
    assert held' - multiset{old'} == held;
    HeldStaysLive(Drop(pending, [old']), held, struct);
  }

  /** A parser that fails leaves nothing behind: with no reference held beyond those
      held before, every value created since has been freed. */
  lemma NothingLeft(base: Memory, held: multiset<Id>, now: Memory)
    requires Sound(base, held) && Sound(now, held) && Grown(base, now)
    ensures forall j :: |base| <= j < |now| ==> now[j] == Freed
  {
    hide HeldCount, HashKey;
    forall j | |base| <= j < |now| ensures now[j] == Freed {
      if now[j].Live? {
        NoneLive(base, held, now, j);
      }
    }
  }

  lemma {:induction false} NoneLive(base: Memory, held: multiset<Id>, now: Memory, j: Id)
    requires Conserved(base, held) && Conserved(now, held) && Grown(base, now)
    requires |base| <= j && IsLive(now, j)
    ensures false
    decreases j
  {
    hide HeldCount;
    assert HeldCount(now, j) + held[j] == CountAt(now, j);
    assert HeldCount(base, j) + held[j] == CountAt(base, j);
    var p := SlotOfHeld(now, j);
    if p < |base| {
      assert now[p] == base[p] by { assert now[..|base|][p] == now[p]; }
      HeldIsLive(base, held, p, j);
    } else {
      NoneLive(base, held, now, p);
    }
  }

  // ---------------------------------------------------------------------
  // What the parsers do to a container they are building

  /** An item was parsed, appended to the array and given back. */
  lemma ItemParsed(base: Memory, mem: Memory, held: multiset<Id>, arr: Id, now: Memory, item: Id, v: Value)
    requires Sound(mem, held) && Grown(base, mem) && |base| <= arr && IsArray(mem, arr) && arr in held
    requires Sound(now, held + multiset{item}) && Grown(mem, now) && Built(mem, now, item, v)
    ensures IsArray(now, arr) && Denote(mem, arr).Array?
    ensures Sound(AppendItem(now, arr, item), held + multiset{item})
    ensures var done := Drop(AppendItem(now, arr, item), [item]);
      && Sound(done, held) && Grown(base, done) && IsArray(done, arr)
      && Denote(done, arr) == Array(Denote(mem, arr).items + [v])
  {
    hide HeldCount, HashKey, Denote, Drop, AppendItem, StructsOk, NoneDying, Upward;
    GrownTwice(base, mem, held, now, held + multiset{item});
    AppendBuilds(base, now, held + multiset{item}, arr, item);
    DropGrown(base, AppendItem(now, arr, item), held + multiset{item}, item);
    assert held + multiset{item} - multiset{item} == held;
    HeldStaysLive(Drop(AppendItem(now, arr, item), [item]), held, arr);
  }

  /** A member's key and value were parsed and set; the value is still held. */
  lemma MemberParsed(base: Memory, mem: Memory, held: multiset<Id>, struct: Id, key: Id, now: Memory, value: Id, v: Value)
    requires Sound(mem, held) && Grown(base, mem) && |base| <= struct < key && IsStruct(mem, struct)
    requires IsString(mem, key) && struct in held && key in held
    requires Sound(now, held + multiset{value}) && Grown(mem, now) && Built(mem, now, value, v)
    ensures IsStruct(now, struct) && IsString(now, key) && IsLive(now, key) && IsLive(now, value)
    ensures StructOk(now, now[struct].body.members) && Denote(mem, struct).Struct?
    ensures var set' := WithValue(now, struct, key, value);
      && Sound(set', held + multiset{value}) && Grown(base, set') && IsStruct(set', struct)
      && Denote(set', struct) == Struct(SetMember(Denote(mem, struct).members, KeyText(mem, key), v))
  {
    hide HeldCount, HashKey, Denote, Drop, WithValue, StructsOk, StructOk, NoneDying, Upward, SetMember;
    var held' := held + multiset{value};
    HeldStaysLive(mem, held, key);
    GrownTwice(base, mem, held, now, held');
    assert now[key].body == mem[key].body;
    SetBuilds(base, now, held', struct, key, value);
  }

  /** A reference given back leaves the container being built as it was. */
  lemma GivenBack(base: Memory, mem: Memory, held: multiset<Id>, container: Id, id: Id)
    requires Sound(mem, held + multiset{id}) && Grown(base, mem) && |base| <= container && |base| <= id
    requires container in held
    ensures var done := Drop(mem, [id]);
      && Sound(done, held) && Grown(base, done) && IsLive(done, container) && IsLive(mem, container)
      && done[container].body == mem[container].body && Denote(done, container) == Denote(mem, container)
  {
    hide HeldCount, HashKey, Denote, Drop, StructsOk, NoneDying, Upward;
    DropGrown(base, mem, held + multiset{id}, id);
    assert held + multiset{id} - multiset{id} == held;
    HeldStaysLive(Drop(mem, [id]), held, container);
  }

  lemma AllGivenBack(base: Memory, mem: Memory, held: multiset<Id>, id: Id)
    requires Sound(mem, held + multiset{id}) && Grown(base, mem) && |base| <= id
    ensures Sound(Drop(mem, [id]), held) && Grown(base, Drop(mem, [id]))
  {
    hide HeldCount, HashKey, Denote, Drop, StructsOk, NoneDying, Upward;
    DropGrown(base, mem, held + multiset{id}, id);
    assert held + multiset{id} - multiset{id} == held;
  }

  lemma StartsGrown(mem: Memory)
    ensures Grown(mem, mem)
  {}

  /** What a parser comes to: the memory it found is unchanged, and what it added is held
      by its result alone; nothing is held if there is no result. */
  ghost predicate Alone(v: Option<Value>, base: Memory, held: multiset<Id>, now: Memory, held': multiset<Id>, id: Option<Id>) {
    && Grown(base, now)
    && (id.Some? <==> v.Some?)
    && (if id.Some? then held' == held + multiset{id.value} && Built(base, now, id.value, v.value) else held' == held)
  }

  lemma LeafAlone(base: Memory, held: multiset<Id>, v: Scalar)
    requires Sound(base, held)
    ensures Alone(Some(v), base, held, Create(base, Leaf(v)), held + multiset{|base|}, Some(|base|))
  {
    hide HeldCount, HashKey, Denote;
    StartsGrown(base);
    CreateGrows(base, base, held, Leaf(v));
  }
}
