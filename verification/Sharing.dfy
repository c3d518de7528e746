/** Values built on top of others: the new ones may refer to values that were there
before, which stay as they are but for their counts. */
module Sharing {
  import opened Text
  import opened Values
  import opened Cells
  import opened Structs
  import opened ValueStores
  import Trees

  /** The value `id` in memory is the tree `v`. */
  ghost predicate Denotes(mem: Memory, id: Id, v: Value)
    decreases v
  {
    && IsLive(mem, id)
    && match v
       case Array(vs) =>
         && mem[id].body.ArrayBody? && |mem[id].body.items| == |vs|
         && forall i :: 0 <= i < |vs| ==> Denotes(mem, mem[id].body.items[i], vs[i])
       case Struct(ms) =>
         && mem[id].body.StructBody? && |mem[id].body.members| == |ms|
         && forall i :: 0 <= i < |ms| ==>
              && IsString(mem, mem[id].body.members[i].key) && KeyText(mem, mem[id].body.members[i].key) == ms[i].key
              && Denotes(mem, mem[id].body.members[i].value, ms[i].value)
       case _ => mem[id].body.Leaf? && mem[id].body.v == v
  }

  /** The values below `low` refer to each other only, and those from there on to them or
      to later ones: a builder makes each container before what it puts in. */
  ghost predicate Layered(mem: Memory, low: Id) {
    forall p: Id, x: Id :: p < |mem| && x in CellRefs(mem[p]) ==> x < low || low <= p < x
  }

  /** No value was freed or changed, except that counts may differ. */
  ghost predicate SameBodies(base: Memory, now: Memory) {
    && |base| <= |now|
    && forall j :: 0 <= j < |base| ==> (base[j].Live? <==> now[j].Live?) && (base[j].Live? ==> now[j].body == base[j].body)
  }

  /** `now` is `base` with more values and references on top. */
  ghost predicate Topped(low: Id, base: Memory, hb: multiset<Id>, now: Memory, h: multiset<Id>) {
    low <= |base| && Sound(base, hb) && Sound(now, h) && hb <= h && SameBodies(base, now) && Layered(now, low)
  }

  lemma StartsTopped(low: Id, mem: Memory, h: multiset<Id>)
    requires low <= |mem| && Sound(mem, h) && Layered(mem, low)
    ensures Topped(low, mem, h, mem, h)
  {}

  lemma ToppedTwice(low: Id, base: Memory, hb: multiset<Id>, mid: Memory, hm: multiset<Id>, now: Memory, h: multiset<Id>)
    requires Topped(low, base, hb, mid, hm) && Topped(low, mid, hm, now, h)
    ensures Topped(low, base, hb, now, h)
  {
    hide Sound, Layered;
  }

  lemma ToppedCreate(low: Id, base: Memory, hb: multiset<Id>, mem: Memory, h: multiset<Id>, body: Body)
    requires Topped(low, base, hb, mem, h) && (body.Leaf? || body == ArrayBody([]) || body == StructBody([]))
    ensures Topped(low, base, hb, Create(mem, body), h + multiset{|mem|})
  {
    hide HeldCount, HashKey;
    CreateSound(mem, h, body);
    hide Sound;
    var now := Create(mem, body);
    forall p: Id, x: Id | p < |now| && x in CellRefs(now[p]) ensures x < low || low <= p < x {
      if p < |mem| { assert x in CellRefs(mem[p]); }
    }
  }

  lemma ToppedRetain(low: Id, base: Memory, hb: multiset<Id>, mem: Memory, h: multiset<Id>, id: Id)
    requires Topped(low, base, hb, mem, h) && IsLive(mem, id)
    ensures Topped(low, base, hb, Retain(mem, id), h + multiset{id})
  {
    hide HeldCount, HashKey;
    RetainSound(mem, h, id);
    hide Sound;
    RefsRetained(mem, id);
  }

  lemma RefsRetained(mem: Memory, id: Id)
    requires IsLive(mem, id)
    ensures forall p: Id :: p < |mem| ==> CellRefs(Retain(mem, id)[p]) == CellRefs(mem[p])
  {}

  lemma ToppedAppend(low: Id, base: Memory, hb: multiset<Id>, mem: Memory, h: multiset<Id>, arr: Id, item: Id)
    requires Topped(low, base, hb, mem, h) && |base| <= arr && IsArray(mem, arr) && IsLive(mem, item)
    requires item < low || arr < item
    ensures Topped(low, base, hb, AppendItem(mem, arr, item), h)
  {
    hide HeldCount, HashKey;
    AppendSound(mem, h, arr, item);
    hide Sound;
    var now := AppendItem(mem, arr, item);
    forall p: Id, x: Id | p < |now| && x in CellRefs(now[p]) ensures x < low || low <= p < x {
      if p != arr || x != item { assert x in CellRefs(mem[p]); }
    }
  }

  // ---------------------------------------------------------------------
  // Releasing what was built

  /** What was live before stays live while references held on top are released. */
  lemma {:induction false} DropKeepsBase(base: Memory, hb: multiset<Id>, mem: Memory, h: multiset<Id>, ids: seq<Id>)
    requires Conserved(base, hb) && Conserved(mem, h + multiset(ids)) && NoneDying(mem) && hb <= h && NoneDying(base) && SameBodies(base, mem)
    ensures SameBodies(base, Drop(mem, ids))
    decreases Total(mem), |ids|
  {
    hide HeldCount, Drop, Released, Total;
    if ids == [] {
      DropNothing(mem, []);
    } else {
      DropStep(mem, h, ids);
      DropLive(mem, ids);
      var id := ids[0];
      var (c, more) := Released(mem[id]);
      ReleasedNotDying(mem[id]);
      if id < |base| { CountedTwice(base, hb, mem, h, ids); }
      ReleasedBody(mem[id]);
      DropKeepsBase(base, hb, mem[id := c], h, more + ids[1..]);
    }
  }

  lemma ReleasedBody(c: Cell)
    requires c.Live? && c.refcount > 0
    ensures c.refcount > 1 ==> Released(c).0 == Live(c.refcount - 1, c.body)
  {}

  /** A value that was there before has a reference besides the one being released. */
  lemma CountedTwice(base: Memory, hb: multiset<Id>, mem: Memory, h: multiset<Id>, ids: seq<Id>)
    requires Conserved(base, hb) && Conserved(mem, h + multiset(ids)) && NoneDying(mem) && hb <= h && NoneDying(base) && SameBodies(base, mem)
    requires ids != [] && ids[0] < |base| && IsLive(mem, ids[0])
    ensures mem[ids[0]].refcount > 1
  {
    hide HeldCount, Refs;
    var id := ids[0];
    assert HeldCount(mem, id) + (h + multiset(ids))[id] == CountAt(mem, id);
    assert multiset(ids)[id] >= 1 by { assert id in multiset(ids); }
    if hb[id] == 0 {
      assert HeldCount(base, id) + hb[id] == CountAt(base, id);
      var p := SlotOfHeld(base, id);
      assert CellRefs(mem[p]) == CellRefs(base[p]);
      HeldBySlot(mem, p, id);
    }
  }

  lemma LayeredSurvives(mem: Memory, now: Memory, low: Id)
    requires Layered(mem, low) && Survives(mem, now) && NoneDying(mem)
    ensures Layered(now, low)
  {
    forall p: Id, x: Id | p < |now| && x in CellRefs(now[p]) ensures x < low || low <= p < x {
      assert x in CellRefs(mem[p]);
    }
  }

  lemma ToppedDrop(low: Id, base: Memory, hb: multiset<Id>, mem: Memory, h: multiset<Id>, id: Id)
    requires Topped(low, base, hb, mem, h + multiset{id}) && hb <= h
    ensures Topped(low, base, hb, Drop(mem, [id]), h)
  {
    hide HeldCount, HashKey, Drop, StructsOk;
    assert multiset([id]) == multiset{id};
    DropSound(mem, h, [id]);
    DropKeepsBase(base, hb, mem, h, [id]);
    DropSurvives(mem, [id]);
    LayeredSurvives(mem, Drop(mem, [id]), low);
  }

  /** Once nothing is held beyond what was held before, everything built has been freed
      and all the rest is as it was, counts included. */
  lemma AllGone(low: Id, base: Memory, h: multiset<Id>, now: Memory)
    requires Topped(low, base, h, now, h)
    ensures Restored(base, now)
  {
    hide HeldCount, HashKey, StructsOk;
    forall j | |base| <= j < |now| ensures now[j] == Freed {
      if now[j].Live? { NewOneLive(low, base, h, now, j); }
    }
    SameRefs(base, now);
    forall j | 0 <= j < |base| ensures now[j] == base[j] {
      HeldSame(base, now, |now|, j);
      assert now[..|now|] == now && base[..|base|] == base;
      assert HeldCount(now, j) == HeldCount(base, j);
      assert HeldCount(base, j) + h[j] == CountAt(base, j) && HeldCount(now, j) + h[j] == CountAt(now, j);
    }
    assert now[..|base|] == base;
  }

  /** The memory is as before, but for cells that have been freed again. */
  ghost predicate Restored(base: Memory, now: Memory) {
    |base| <= |now| && now[..|base|] == base && forall j :: |base| <= j < |now| ==> now[j] == Freed
  }

  lemma {:induction false} NewOneLive(low: Id, base: Memory, h: multiset<Id>, now: Memory, j: Id)
    requires Topped(low, base, h, now, h) && |base| <= j && IsLive(now, j)
    ensures false
    decreases j
  {
    hide HeldCount, Refs;
    assert HeldCount(now, j) + h[j] == CountAt(now, j);
    assert HeldCount(base, j) + h[j] == CountAt(base, j);
    var p := SlotOfHeld(now, j);
    if p < |base| {
      assert CellRefs(base[p]) == CellRefs(now[p]);
      HeldIsLive(base, h, p, j);
    } else {
      NewOneLive(low, base, h, now, p);
    }
  }

  lemma SameRefs(base: Memory, now: Memory)
    requires SameBodies(base, now) && NoneDying(base) && NoneDying(now)
    ensures forall j :: 0 <= j < |base| ==> CellRefs(now[j]) == CellRefs(base[j])
  {}

  lemma {:induction false} HeldSame(base: Memory, now: Memory, n: nat, x: Id)
    requires |base| <= |now| && n <= |now| && forall j :: 0 <= j < |base| ==> CellRefs(now[j]) == CellRefs(base[j])
    requires forall j :: |base| <= j < |now| ==> now[j] == Freed
    ensures HeldCount(now[..n], x) == HeldCount(if n <= |base| then base[..n] else base, x)
    decreases n
  {
    if n > 0 {
      HeldSame(base, now, n - 1, x);
      assert now[..n][..n - 1] == now[..n - 1];
      if n <= |base| {
        hide CellRefs;
        assert base[..n][..n - 1] == base[..n - 1];
      } else {
        hide HeldCount;
        HeldFreed(now, n, x);
        assert base[..|base|] == base;
      }
    }
  }

  lemma HeldFreed(now: Memory, n: nat, x: Id)
    requires 0 < n <= |now| && now[n - 1] == Freed
    ensures HeldCount(now[..n], x) == HeldCount(now[..n - 1], x)
  {
    assert now[..n][..n - 1] == now[..n - 1];
  }

  // ---------------------------------------------------------------------
  // What values denote

  /** The values that are live in `now` were live in `mem`, with the same body, but for
      `changed`. */
  ghost predicate AgreeBut(mem: Memory, now: Memory, changed: Id) {
    forall j: Id :: j != changed && j < |mem| && IsLive(now, j) ==> IsLive(mem, j) && now[j].body == mem[j].body
  }

  /** A value in whose parts the changed one cannot be denotes what it did. */
  lemma {:induction false} DenotesBut(mem: Memory, now: Memory, h: multiset<Id>, low: Id, changed: Id, x: Id, v: Value)
    requires Conserved(now, h) && Layered(now, low) && AgreeBut(mem, now, changed) && low <= changed
    requires (x < low || changed < x) && IsLive(now, x) && Denotes(mem, x, v)
    ensures Denotes(now, x, v)
    decreases v
  {
    hide HeldCount;
    assert now[x].body == mem[x].body;
    match v
    case Array(vs) =>
      var items := now[x].body.items;
      forall i | 0 <= i < |vs| ensures Denotes(now, items[i], vs[i]) {
        assert items[i] in CellRefs(now[x]);
        HeldIsLive(now, h, x, items[i]);
        DenotesBut(mem, now, h, low, changed, items[i], vs[i]);
      }
    case Struct(ms) =>
      var members := now[x].body.members;
      forall i | 0 <= i < |ms|
        ensures IsString(now, members[i].key) && KeyText(now, members[i].key) == ms[i].key
        ensures Denotes(now, members[i].value, ms[i].value)
      {
        MemberKeyLive(now, h, x, i);
        MemberInRefs(now, x, i);
        DenotesBut(mem, now, h, low, changed, members[i].value, ms[i].value);
      }
    case _ =>
  }

  lemma MemberInRefs(mem: Memory, p: Id, i: nat)
    requires IsStruct(mem, p) && i < |mem[p].body.members|
    ensures mem[p].body.members[i].key in CellRefs(mem[p]) && mem[p].body.members[i].value in CellRefs(mem[p])
  {
    var refs, m := MemberRefs(mem[p].body.members), mem[p].body.members[i];
    assert refs[2 * i] == m.key && refs[2 * i + 1] == m.value;
  }

  /** If nothing changed, every value that is still live denotes what it did. */
  lemma {:induction false} DenotesStays(mem: Memory, now: Memory, h: multiset<Id>, x: Id, v: Value)
    requires Conserved(now, h) && IsLive(now, x) && Denotes(mem, x, v)
    requires forall j: Id :: j < |mem| && IsLive(now, j) ==> IsLive(mem, j) && now[j].body == mem[j].body
    ensures Denotes(now, x, v)
    decreases v
  {
    hide HeldCount;
    match v
    case Array(vs) =>
      var items := now[x].body.items;
      forall i | 0 <= i < |vs| ensures Denotes(now, items[i], vs[i]) {
        assert items[i] in CellRefs(now[x]);
        HeldIsLive(now, h, x, items[i]);
        DenotesStays(mem, now, h, items[i], vs[i]);
      }
    case Struct(ms) =>
      var members := now[x].body.members;
      forall i | 0 <= i < |ms|
        ensures IsString(now, members[i].key) && KeyText(now, members[i].key) == ms[i].key
        ensures Denotes(now, members[i].value, ms[i].value)
      {
        MemberKeyLive(now, h, x, i);
        DenotesStays(mem, now, h, members[i].value, ms[i].value);
      }
    case _ =>
  }

  /** What is there before an inner build denotes the same after it. */
  lemma ToppedDenotes(low: Id, mem: Memory, hm: multiset<Id>, now: Memory, h: multiset<Id>, x: Id, v: Value)
    requires Topped(low, mem, hm, now, h) && Denotes(mem, x, v)
    ensures Denotes(now, x, v)
  {
    hide HeldCount, HashKey, StructsOk;
    DenotesStays(mem, now, h, x, v);
  }

  /** So it does after a reference to something else was released, if it is held. */
  lemma DropDenotes(mem: Memory, h: multiset<Id>, id: Id, x: Id, v: Value)
    requires Sound(mem, h + multiset{id}) && x in h && Denotes(mem, x, v)
    ensures Sound(Drop(mem, [id]), h) && IsLive(Drop(mem, [id]), x) && Denotes(Drop(mem, [id]), x, v)
    ensures Drop(mem, [id])[x].body == mem[x].body
  {
    hide HeldCount, HashKey, Drop, StructsOk;
    assert multiset([id]) == multiset{id};
    DropSound(mem, h, [id]);
    DropSurvives(mem, [id]);
    var now := Drop(mem, [id]);
    assert HeldCount(now, x) + h[x] == CountAt(now, x);
    DenotesStays(mem, now, h, x, v);
  }

  lemma AppendDenotes(mem: Memory, h: multiset<Id>, low: Id, arr: Id, item: Id, vs: seq<Value>, v: Value)
    requires Sound(mem, h) && Layered(mem, low) && low <= arr && IsArray(mem, arr)
    requires Denotes(mem, arr, Array(vs)) && Denotes(mem, item, v) && (item < low || arr < item)
    requires Sound(AppendItem(mem, arr, item), h) && Layered(AppendItem(mem, arr, item), low)
    ensures IsLive(AppendItem(mem, arr, item), item) && Denotes(AppendItem(mem, arr, item), arr, Array(vs + [v]))
    ensures Denotes(AppendItem(mem, arr, item), item, v)
  {
    hide HeldCount, HashKey, StructsOk;
    var now := AppendItem(mem, arr, item);
    var items := mem[arr].body.items;
    forall i | 0 <= i < |vs| ensures Denotes(now, items[i], vs[i]) {
      assert items[i] in CellRefs(mem[arr]);
      DenotesBut(mem, now, h, low, arr, items[i], vs[i]);
    }
    DenotesBut(mem, now, h, low, arr, item, v);
    assert now[arr].body == ArrayBody(items + [item]);
  }

  // ---------------------------------------------------------------------
  // Members

  /** The slots of a container hold earlier values below `low`, or later ones. */
  lemma ToppedRewrite(low: Id, base: Memory, hb: multiset<Id>, mem: Memory, h: multiset<Id>, id: Id, now: Memory, h': multiset<Id>)
    requires Topped(low, base, hb, mem, h) && |base| <= id && IsLive(mem, id) && Sound(now, h') && hb <= h'
    requires |now| == |mem| && forall j :: 0 <= j < |mem| && j != id ==>
               (now[j].Live? <==> mem[j].Live?) && (mem[j].Live? ==> now[j].body == mem[j].body)
    requires forall x :: x in CellRefs(now[id]) ==> x < low || id < x
    ensures Topped(low, base, hb, now, h')
  {
    hide HeldCount, HashKey, StructsOk, Conserved;
    forall p: Id, x: Id | p < |now| && x in CellRefs(now[p]) ensures x < low || low <= p < x {
      if p != id { assert x in CellRefs(mem[p]); }
    }
  }

  ghost predicate MayHold(low: Id, container: Id, part: Id) { part < low || container < part }

  lemma {:induction false} MembersFit(members: seq<MemberRec>, low: Id, container: Id)
    requires forall i :: 0 <= i < |members| ==> MayHold(low, container, members[i].key) && MayHold(low, container, members[i].value)
    ensures forall x :: x in MemberRefs(members) ==> MayHold(low, container, x)
  {
    forall x | x in MemberRefs(members) ensures MayHold(low, container, x) {
      var i := Trees.RefOfMember(members, x);
    }
  }

  lemma OldMembersFit(mem: Memory, low: Id, struct: Id)
    requires Layered(mem, low) && low <= struct && IsStruct(mem, struct)
    ensures var members := mem[struct].body.members;
      forall i :: 0 <= i < |members| ==> MayHold(low, struct, members[i].key) && MayHold(low, struct, members[i].value)
  {
    var members := mem[struct].body.members;
    forall i | 0 <= i < |members| ensures MayHold(low, struct, members[i].key) && MayHold(low, struct, members[i].value) {
      MemberInRefs(mem, struct, i);
    }
  }

  lemma ToppedAdd(low: Id, base: Memory, hb: multiset<Id>, mem: Memory, h: multiset<Id>, struct: Id, key: Id, value: Id)
    requires Topped(low, base, hb, mem, h) && |base| <= struct && IsStruct(mem, struct)
    requires IsString(mem, key) && IsLive(mem, key) && IsLive(mem, value) && MayHold(low, struct, key) && MayHold(low, struct, value)
    requires Sound(AddMember(mem, struct, key, value), h)
    ensures Topped(low, base, hb, AddMember(mem, struct, key, value), h)
  {
    hide HeldCount, HashKey, StructsOk, Conserved;
    var now := AddMember(mem, struct, key, value);
    OldMembersFit(mem, low, struct);
    MembersFit(now[struct].body.members, low, struct);
    ToppedRewrite(low, base, hb, mem, h, struct, now, h);
  }

  lemma ToppedChange(low: Id, base: Memory, hb: multiset<Id>, mem: Memory, h: multiset<Id>, struct: Id, i: nat, value: Id)
    requires Topped(low, base, hb, mem, h) && |base| <= struct && IsStruct(mem, struct) && i < |mem[struct].body.members|
    requires IsLive(mem, value) && MayHold(low, struct, value)
    ensures Topped(low, base, hb, ChangeMember(mem, struct, i, value), h)
  {
    hide HeldCount, HashKey, StructsOk, Conserved, Drop;
    var now, old' := Pending(mem, struct, i, value), mem[struct].body.members[i].value;
    PendingSound(mem, h, struct, i, value);
    OldMembersFit(mem, low, struct);
    MembersFit(now[struct].body.members, low, struct);
    ToppedRewrite(low, base, hb, mem, h, struct, now, h + multiset{old'});
    ToppedDrop(low, base, hb, now, h, old');
  }

  lemma ToppedSet(low: Id, base: Memory, hb: multiset<Id>, mem: Memory, h: multiset<Id>, struct: Id, key: Id, value: Id)
    requires Topped(low, base, hb, mem, h) && |base| <= struct && IsStruct(mem, struct)
    requires IsString(mem, key) && IsLive(mem, key) && IsLive(mem, value) && MayHold(low, struct, key) && MayHold(low, struct, value)
    ensures StructOk(mem, mem[struct].body.members) && Topped(low, base, hb, WithValue(mem, struct, key, value), h)
  {
    hide HeldCount, HashKey, FindKey, AddMember, ChangeMember, Sound;
    SetValueSound(mem, h, struct, key, value);
    match FindKey(mem, mem[struct].body.members, KeyText(mem, key))
    case Some(i) => ToppedChange(low, base, hb, mem, h, struct, i, value);
    case None => ToppedAdd(low, base, hb, mem, h, struct, key, value);
  }

  /** A struct whose slots are rewritten denotes what its slots denote. */
  lemma RewrittenDenotes(mem: Memory, now: Memory, h: multiset<Id>, low: Id, struct: Id, members: seq<MemberRec>, ms: seq<Member>)
    requires Conserved(now, h) && Layered(now, low) && AgreeBut(mem, now, struct) && low <= struct && IsStruct(now, struct)
    requires now[struct].body == StructBody(members) && |members| == |ms|
    requires forall i :: 0 <= i < |ms| ==>
               && IsString(mem, members[i].key) && KeyText(mem, members[i].key) == ms[i].key
               && Denotes(mem, members[i].value, ms[i].value) && members[i].key < |mem|
    ensures Denotes(now, struct, Struct(ms))
  {
    hide HeldCount;
    forall i | 0 <= i < |ms|
      ensures IsString(now, members[i].key) && KeyText(now, members[i].key) == ms[i].key
      ensures Denotes(now, members[i].value, ms[i].value)
    {
      MemberKeyLive(now, h, struct, i);
      MemberInRefs(now, struct, i);
      DenotesBut(mem, now, h, low, struct, members[i].value, ms[i].value);
    }
  }

  lemma SetDenotes(mem: Memory, h: multiset<Id>, low: Id, struct: Id, key: Id, value: Id, ms: seq<Member>, v: Value)
    requires Sound(mem, h) && low <= struct && struct in h && Denotes(mem, struct, Struct(ms))
    requires IsString(mem, key) && IsLive(mem, key) && Denotes(mem, value, v)
    requires StructOk(mem, mem[struct].body.members)
    requires Sound(WithValue(mem, struct, key, value), h) && Layered(WithValue(mem, struct, key, value), low)
    ensures Denotes(WithValue(mem, struct, key, value), struct, Struct(SetMember(ms, KeyText(mem, key), v)))
  {
    hide HeldCount, HashKey, FindKey, StructOk, StructsOk, SetMember;
    var now, members, text := WithValue(mem, struct, key, value), mem[struct].body.members, KeyText(mem, key);
    match FindKey(mem, members, text)
    case Some(i) =>
      Trees.SetOldMember(ms, i, text, v);
      ChangedBody(mem, h, struct, i, value);
      RewrittenDenotes(mem, now, h, low, struct, members[i := members[i].(value := value)], ms[i := Member(text, v)]);
    case None =>
      SetNewMember(ms, text, v);
      RewrittenDenotes(mem, now, h, low, struct, members + [MemberRec(HashKey(text), key, value)], ms + [Member(text, v)]);
  }

  lemma ChangedBody(mem: Memory, h: multiset<Id>, struct: Id, i: nat, value: Id)
    requires NoneDying(mem) && IsStruct(mem, struct) && i < |mem[struct].body.members| && IsLive(mem, value) && struct in h
    requires Conserved(ChangeMember(mem, struct, i, value), h)
    ensures var now, members := ChangeMember(mem, struct, i, value), mem[struct].body.members;
      && IsStruct(now, struct) && now[struct].body == StructBody(members[i := members[i].(value := value)])
      && AgreeBut(mem, now, struct)
  {
    hide HeldCount, Drop;
    var now, pending, old' := ChangeMember(mem, struct, i, value), Pending(mem, struct, i, value), mem[struct].body.members[i].value;
    DropSurvives(pending, [old']);
    assert now == Drop(pending, [old']);
    assert HeldCount(now, struct) + h[struct] == CountAt(now, struct);
  }
}
