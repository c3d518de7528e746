/** Decomposing a value along a tree, as xmlrpc-c/src/xmlrpc_decompose.c does it for
xmlrpc_decompose_value(): what is stored, which references and buffers the caller gets,
and the rollback when some part of the value does not fit. */
module Decompose {
  import opened Text
  import opened Values
  import opened Cells
  import opened Structs
  import opened ValueStores
  import opened Formats

  /** What is stored in a variable of the caller. */
  datatype Content =
    | Plain(v: Value)       // a number, or something else without memory of its own
    | Buffer(text: string)  // allocated memory, which the caller must free
    | Count(n: nat)
    | Reference(id: Id)     // which the caller must give back

  datatype Out = Out(loc: nat, content: Content)

  /** Readers whose bodies are not part of this model: Unix times ('t') and C pointers
      ('p'); datetime strings ('8') and wide strings ('w'), which allocate. */
  datatype Readers = Readers(plain: (char, Value) -> Result<Value>, text: (char, Value) -> Result<string>)

  // ---------------------------------------------------------------------
  // What a tree calls for

  function ReadPlain(rd: Readers, kind: char, v: Value): Result<Value> {
    if kind == 'i' then if v.Int? then Ok(v) else Fault(TypeError)
    else if kind == 'b' then if v.Bool? then Ok(v) else Fault(TypeError)
    else if kind == 'd' then if v.Double? then Ok(v) else Fault(TypeError)
    else if kind == 'I' then if v.I8? then Ok(v) else Fault(TypeError)
    else rd.plain(kind, v)
  }

  function ReadLeaf(rd: Readers, mem: Memory, id: Id, kind: char): Result<Content>
    requires IsLive(mem, id)
  {
    var body := mem[id].body;
    if kind == 'V' then Ok(Reference(id))
    else if kind == 'A' then if body.ArrayBody? then Ok(Reference(id)) else Fault(TypeError)
    else if kind == 'S' then if body.StructBody? then Ok(Reference(id)) else Fault(TypeError)
    else if !body.Leaf? then Fault(TypeError)
    else if kind == '8' then
      match rd.text(kind, body.v) case Fault(c) => Fault(c) case Ok(text) => Ok(Buffer(text))
    else
      match ReadPlain(rd, kind, body.v) case Fault(c) => Fault(c) case Ok(v) => Ok(Plain(v))
  }

  /** A string without a size must not contain NUL. */
  function ReadText(rd: Readers, kind: char, sized: bool, v: Value): Result<string> {
    if kind == 'w' then rd.text(kind, v)
    else if !v.Str? || (!sized && '\0' in v.str) then Fault(TypeError)
    else Ok(v.str)
  }

  function SizeOut(sizeLoc: Option<nat>, n: nat): seq<Out> {
    if sizeLoc.Some? then [Out(sizeLoc.value, Count(n))] else []
  }

  /** The value of the member with this key, if `id` is a struct that has one. */
  function Lookup(mem: Memory, id: Id, key: string): Option<Id> {
    if !IsStruct(mem, id) || !AllStrings(mem, mem[id].body.members) then None
    else match FindKey(mem, mem[id].body.members, key)
      case None => None
      case Some(i) => Some(mem[id].body.members[i].value)
  }

  predicate AllStrings(mem: Memory, members: seq<MemberRec>) {
    forall i :: 0 <= i < |members| ==> IsString(mem, members[i].key)
  }

  /** What decomposing the value `id` along `t` stores, in order, or the first fault. */
  function Reads(rd: Readers, mem: Memory, id: Id, t: Tree): Result<seq<Out>>
    decreases t, 0
  {
    if !IsLive(mem, id) then Fault(InternalError)
    else
      var body := mem[id].body;
      match t
      case Ignored => Ok([])
      case NilLeaf => if body.Leaf? && body.v.Nil? then Ok([]) else Fault(TypeError)
      case Leaf(kind, loc) =>
        (match ReadLeaf(rd, mem, id, kind)
         case Fault(c) => Fault(c)
         case Ok(content) => Ok([Out(loc, content)]))
      case Sized(kind, loc, sizeLoc) =>
        if !body.Leaf? then Fault(TypeError)
        else
          (match ReadText(rd, kind, sizeLoc.Some?, body.v)
           case Fault(c) => Fault(c)
           case Ok(text) => Ok([Out(loc, Buffer(text))] + SizeOut(sizeLoc, |text|)))
      case Bytes(loc, countLoc) =>
        if !body.Leaf? || !body.v.Base64? then Fault(TypeError)
        else Ok([Out(loc, Buffer(body.v.bytes))] + SizeOut(Some(countLoc), |body.v.bytes|))
      case ArrayOf(items, ignoreExcess) =>
        if !body.ArrayBody? then Fault(TypeError)
        else if |items| > |body.items| || (|items| < |body.items| && !ignoreExcess) then Fault(IndexError)
        else ItemReads(rd, mem, body.items[..|items|], items)
      case StructOf(members) =>
        if !body.StructBody? then Fault(TypeError) else MemberReads(rd, mem, id, members)
  }

  function ItemReads(rd: Readers, mem: Memory, ids: seq<Id>, ts: seq<Tree>): Result<seq<Out>>
    requires |ids| == |ts|
    decreases ts, 0
  {
    if ts == [] then Ok([])
    else
      var n := |ts| - 1;
      Then(ItemReads(rd, mem, ids[..n], ts[..n]), Reads(rd, mem, ids[n], ts[n]))
  }

  function MemberReads(rd: Readers, mem: Memory, id: Id, ms: seq<Mbr>): Result<seq<Out>>
    decreases ms, 0
  {
    if ms == [] then Ok([])
    else
      var n := |ms| - 1;
      var value := Lookup(mem, id, ms[n].key);
      Then(MemberReads(rd, mem, id, ms[..n]),
           if value.None? then Fault(IndexError) else Reads(rd, mem, value.value, ms[n].tree))
  }

  function Then(a: Result<seq<Out>>, b: Result<seq<Out>>): Result<seq<Out>> {
    if a.Fault? then a else if b.Fault? then b else Ok(a.value + b.value)
  }

  /** The references and the buffers among what is stored. */
  ghost function RefsIn(os: seq<Out>): multiset<Id> {
    if os == [] then multiset{}
    else RefsIn(os[..|os| - 1]) + RefOf(os[|os| - 1].content)
  }

  ghost function RefOf(c: Content): multiset<Id> { if c.Reference? then multiset{c.id} else multiset{} }

  ghost function BufsIn(os: seq<Out>): multiset<string> {
    if os == [] then multiset{}
    else BufsIn(os[..|os| - 1]) + BufOf(os[|os| - 1].content)
  }

  ghost function BufOf(c: Content): multiset<string> { if c.Buffer? then multiset{c.text} else multiset{} }

  lemma RefsSnoc(a: seq<Out>, o: Out)
    ensures RefsIn(a + [o]) == RefsIn(a) + RefOf(o.content) && BufsIn(a + [o]) == BufsIn(a) + BufOf(o.content)
  {
    assert (a + [o])[..|a|] == a;
  }

  lemma BagAssoc<T>(a: multiset<T>, b: multiset<T>, c: multiset<T>)
    ensures (a + b) + c == a + (b + c)
  {}

  lemma {:induction false} RefsAppend(a: seq<Out>, b: seq<Out>)
    ensures RefsIn(a + b) == RefsIn(a) + RefsIn(b) && BufsIn(a + b) == BufsIn(a) + BufsIn(b)
  {
    hide RefsIn, BufsIn, RefOf, BufOf;
    if b == [] {
      assert a + b == a;
      RefsOne(Out(0, Count(0)));
    } else {
      var n := |b| - 1;
      RefsAppend(a, b[..n]);
      RefsSnoc(a + b[..n], b[n]);
      RefsSnoc(b[..n], b[n]);
      assert b == b[..n] + [b[n]] && a + b == (a + b[..n]) + [b[n]];
      BagAssoc(RefsIn(a), RefsIn(b[..n]), RefOf(b[n].content));
      BagAssoc(BufsIn(a), BufsIn(b[..n]), BufOf(b[n].content));
    }
  }

  lemma RefsOne(o: Out)
    ensures RefsIn([o]) == RefOf(o.content) && BufsIn([o]) == BufOf(o.content) && RefsIn([]) == multiset{} && BufsIn([]) == multiset{}
  {
    RefsSnoc([], o);
    assert [] + [o] == [o];
  }

  /** A text and, perhaps, its size. */
  lemma RefsOfText(o: Out, sizeLoc: Option<nat>, n: nat)
    requires o.content.Buffer?
    ensures var os := [o] + SizeOut(sizeLoc, n);
      RefsIn(os) == multiset{} && BufsIn(os) == BufOf(o.content) && o in os
  {
    RefsOne(o);
    if sizeLoc.Some? {
      RefsSnoc([o], Out(sizeLoc.value, Count(n)));
    } else {
      assert [o] + [] == [o];
    }
  }

  /** What the caller has to give back or free. */
  predicate Owned(c: Content) { c.Reference? || c.Buffer? }

  /** The caller's variables hold all that it has to give back or free. */
  ghost predicate Holds(slots: map<nat, Content>, os: seq<Out>) {
    forall o :: o in os && Owned(o.content) ==> o.loc in slots && slots[o.loc] == o.content
  }

  /** The caller's variables after all was stored in order. */
  function StoreAll(slots: map<nat, Content>, os: seq<Out>): map<nat, Content> {
    if os == [] then slots
    else
      var n := |os| - 1;
      StoreAll(slots, os[..n])[os[n].loc := os[n].content]
  }

  lemma {:induction false} StoreAppend(slots: map<nat, Content>, a: seq<Out>, b: seq<Out>)
    ensures StoreAll(slots, a + b) == StoreAll(StoreAll(slots, a), b)
    decreases |b|
  {
    if b == [] {
      assert a + b == a;
    } else {
      var n := |b| - 1;
      StoreAppend(slots, a, b[..n]);
      assert (a + b)[..|a| + n] == a + b[..n];
    }
  }

  /** Of two writes to the same variable the later one stays. */
  lemma {:induction false} LastWriteStays(slots: map<nat, Content>, os: seq<Out>, i: nat)
    requires i < |os| && forall j :: i < j < |os| ==> os[j].loc != os[i].loc
    ensures var now := StoreAll(slots, os); os[i].loc in now && now[os[i].loc] == os[i].content
    decreases |os|
  {
    var n := |os| - 1;
    if i < n { LastWriteStays(slots, os[..n], i); }
  }

  function Trees(ms: seq<Mbr>): (ts: seq<Tree>)
    ensures |ts| == |ms| && forall i :: 0 <= i < |ms| ==> ts[i] == ms[i].tree
  {
    seq(|ms|, i requires 0 <= i < |ms| => ms[i].tree)
  }

  // ---------------------------------------------------------------------
  // Variables

  /** A variable that a tree names, and whether it receives what must be given back. */
  datatype Place = Place(loc: nat, owned: bool)

  function Places(t: Tree): seq<Place>
    decreases t, 0
  {
    match t
    case Ignored => []
    case NilLeaf => []
    case Leaf(kind, loc) => [Place(loc, kind in {'V', 'A', 'S', '8'})]
    case Sized(_, loc, sizeLoc) => [Place(loc, true)] + if sizeLoc.Some? then [Place(sizeLoc.value, false)] else []
    case Bytes(loc, countLoc) => [Place(loc, true), Place(countLoc, false)]
    case ArrayOf(items, _) => ItemPlaces(items)
    case StructOf(members) => MemberPlaces(members)
  }

  function ItemPlaces(ts: seq<Tree>): seq<Place>
    decreases ts, 0
  {
    if ts == [] then [] else ItemPlaces(ts[..|ts| - 1]) + Places(ts[|ts| - 1])
  }

  function MemberPlaces(ms: seq<Mbr>): seq<Place>
    decreases ms, 0
  {
    if ms == [] then [] else MemberPlaces(ms[..|ms| - 1]) + Places(ms[|ms| - 1].tree)
  }

  function PlaceOf(o: Out): Place { Place(o.loc, Owned(o.content)) }

  function PlacesOf(os: seq<Out>): (ps: seq<Place>)
    ensures |ps| == |os| && forall i :: 0 <= i < |os| ==> ps[i] == PlaceOf(os[i])
  {
    seq(|os|, i requires 0 <= i < |os| => PlaceOf(os[i]))
  }

  lemma PlacesAppend(a: seq<Out>, b: seq<Out>)
    ensures PlacesOf(a + b) == PlacesOf(a) + PlacesOf(b)
  {}

  /** What is stored goes to the variables of the tree, in their order, and what must be
      given back to those meant for it. */
  lemma {:induction false} ReadsAlong(rd: Readers, mem: Memory, id: Id, t: Tree)
    requires Reads(rd, mem, id, t).Ok?
    ensures PlacesOf(Reads(rd, mem, id, t).value) == Places(t)
    decreases t, 0
  {
    hide ItemReads, MemberReads, ItemPlaces, MemberPlaces, ReadPlain, ReadText, Lookup;
    match t
    case ArrayOf(items, _) => ItemsAlong(rd, mem, mem[id].body.items[..|items|], items);
    case StructOf(members) => MembersAlong(rd, mem, id, members);
    case _ =>
  }

  lemma {:induction false} ItemsAlong(rd: Readers, mem: Memory, ids: seq<Id>, ts: seq<Tree>)
    requires |ids| == |ts| && ItemReads(rd, mem, ids, ts).Ok?
    ensures PlacesOf(ItemReads(rd, mem, ids, ts).value) == ItemPlaces(ts)
    decreases ts, 0
  {
    hide Reads, Places, PlacesOf;
    if ts == [] {
      NoPlaces();
    } else {
      var n := |ts| - 1;
      ItemsAlong(rd, mem, ids[..n], ts[..n]);
      ReadsAlong(rd, mem, ids[n], ts[n]);
      PlacesAppend(ItemReads(rd, mem, ids[..n], ts[..n]).value, Reads(rd, mem, ids[n], ts[n]).value);
    }
  }

  lemma {:induction false} MembersAlong(rd: Readers, mem: Memory, id: Id, ms: seq<Mbr>)
    requires MemberReads(rd, mem, id, ms).Ok?
    ensures PlacesOf(MemberReads(rd, mem, id, ms).value) == MemberPlaces(ms)
    decreases ms, 0
  {
    hide Reads, Places, PlacesOf, Lookup;
    if ms == [] {
      NoPlaces();
    } else {
      var n := |ms| - 1;
      var value := Lookup(mem, id, ms[n].key).value;
      MembersAlong(rd, mem, id, ms[..n]);
      ReadsAlong(rd, mem, value, ms[n].tree);
      PlacesAppend(MemberReads(rd, mem, id, ms[..n]).value, Reads(rd, mem, value, ms[n].tree).value);
    }
  }

  lemma NoPlaces()
    ensures PlacesOf([]) == []
  {}

  // ---------------------------------------------------------------------
  // What is stored until a fault

  /** What decomposing the value `id` along `t` stores in all: what it reads, or the part
      of that which comes before the fault. */
  function Writes(rd: Readers, mem: Memory, id: Id, t: Tree): seq<Out>
    decreases t, 0
  {
    var r := Reads(rd, mem, id, t);
    if r.Ok? then r.value
    else if IsLive(mem, id) && t.ArrayOf? && SizeFits(mem[id].body, t) then
      ItemWrites(rd, mem, mem[id].body.items[..|t.items|], t.items)
    else if IsLive(mem, id) && t.StructOf? && mem[id].body.StructBody? then MemberWrites(rd, mem, id, t.members)
    else []
  }

  predicate SizeFits(body: Body, t: Tree)
    requires t.ArrayOf?
  {
    body.ArrayBody? && |t.items| <= |body.items| && (|t.items| == |body.items| || t.ignoreExcess)
  }

  function ItemWrites(rd: Readers, mem: Memory, ids: seq<Id>, ts: seq<Tree>): seq<Out>
    requires |ids| == |ts|
    decreases ts, 0
  {
    if ts == [] then []
    else
      var n := |ts| - 1;
      var r := ItemReads(rd, mem, ids[..n], ts[..n]);
      if r.Fault? then ItemWrites(rd, mem, ids[..n], ts[..n]) else r.value + Writes(rd, mem, ids[n], ts[n])
  }

  function MemberWrites(rd: Readers, mem: Memory, id: Id, ms: seq<Mbr>): seq<Out>
    decreases ms, 0
  {
    if ms == [] then []
    else
      var n := |ms| - 1;
      var r := MemberReads(rd, mem, id, ms[..n]);
      var value := Lookup(mem, id, ms[n].key);
      if r.Fault? then MemberWrites(rd, mem, id, ms[..n])
      else if value.None? then r.value
      else r.value + Writes(rd, mem, value.value, ms[n].tree)
  }

  /** What is stored before a fault goes to the first variables of the tree. */
  lemma {:induction false} WritesAlong(rd: Readers, mem: Memory, id: Id, t: Tree)
    ensures PlacesOf(Writes(rd, mem, id, t)) <= Places(t)
    decreases t, 0
  {
    hide Reads, ItemReads, MemberReads, ItemWrites, MemberWrites, ItemPlaces, MemberPlaces, PlacesOf;
    NoPlaces();
    if Reads(rd, mem, id, t).Ok? {
      ReadsAlong(rd, mem, id, t);
    } else if IsLive(mem, id) && t.ArrayOf? && SizeFits(mem[id].body, t) {
      ItemWritesAlong(rd, mem, mem[id].body.items[..|t.items|], t.items);
    } else if IsLive(mem, id) && t.StructOf? {
      MemberWritesAlong(rd, mem, id, t.members);
    }
  }

  lemma {:induction false} ItemWritesAlong(rd: Readers, mem: Memory, ids: seq<Id>, ts: seq<Tree>)
    requires |ids| == |ts|
    ensures PlacesOf(ItemWrites(rd, mem, ids, ts)) <= ItemPlaces(ts)
    decreases ts, 0
  {
    hide Reads, ItemReads, Writes, Places, PlacesOf;
    if ts == [] {
      NoPlaces();
    } else {
      var n := |ts| - 1;
      var r := ItemReads(rd, mem, ids[..n], ts[..n]);
      if r.Fault? {
        ItemWritesAlong(rd, mem, ids[..n], ts[..n]);
      } else {
        ItemsAlong(rd, mem, ids[..n], ts[..n]);
        WritesAlong(rd, mem, ids[n], ts[n]);
        PlacesAppend(r.value, Writes(rd, mem, ids[n], ts[n]));
      }
    }
  }

  lemma {:induction false} MemberWritesAlong(rd: Readers, mem: Memory, id: Id, ms: seq<Mbr>)
    ensures PlacesOf(MemberWrites(rd, mem, id, ms)) <= MemberPlaces(ms)
    decreases ms, 0
  {
    hide Reads, MemberReads, Writes, Places, PlacesOf, Lookup;
    if ms == [] {
      NoPlaces();
    } else {
      var n := |ms| - 1;
      var r := MemberReads(rd, mem, id, ms[..n]);
      var value := Lookup(mem, id, ms[n].key);
      if r.Fault? {
        MemberWritesAlong(rd, mem, id, ms[..n]);
      } else {
        MembersAlong(rd, mem, id, ms[..n]);
        if value.Some? {
          WritesAlong(rd, mem, value.value, ms[n].tree);
          PlacesAppend(r.value, Writes(rd, mem, value.value, ms[n].tree));
        }
      }
    }
  }

  /** Only variables of `ps` were written. */
  ghost predicate Frame(before: map<nat, Content>, now: map<nat, Content>, ps: seq<Place>) {
    forall l :: Place(l, true) !in ps && Place(l, false) !in ps ==> (l in now <==> l in before) && (l in now ==> now[l] == before[l])
  }

  lemma {:induction false} StoredFrame(slots: map<nat, Content>, os: seq<Out>, ps: seq<Place>)
    requires PlacesOf(os) <= ps
    ensures Frame(slots, StoreAll(slots, os), ps)
    decreases |os|
  {
    if os != [] {
      var n := |os| - 1;
      StoredFrame(slots, os[..n], ps);
      assert ps[n] == PlaceOf(os[n]);
    }
  }

  // ---------------------------------------------------------------------
  // What the variables still hold

  /** All that must be given back is still in its variable after everything was stored. */
  ghost predicate Kept(os: seq<Out>) { Holds(StoreAll(map[], os), os) }

  lemma {:induction false} StoredWhatever(s: map<nat, Content>, s': map<nat, Content>, os: seq<Out>, loc: nat)
    requires exists i :: 0 <= i < |os| && os[i].loc == loc
    ensures var (x, y) := (StoreAll(s, os), StoreAll(s', os)); loc in x && loc in y && x[loc] == y[loc]
    decreases |os|
  {
    var n := |os| - 1;
    if os[n].loc != loc { StoredWhatever(s, s', os[..n], loc); }
  }

  /** Part of what is kept, the first or the last of it, is kept too. */
  lemma KeptParts(slots: map<nat, Content>, a: seq<Out>, b: seq<Out>)
    requires Kept(a + b)
    ensures Holds(StoreAll(slots, a + b), a) && Holds(StoreAll(slots, a + b), a + b) && Kept(b)
  {
    hide StoreAll;
    forall o | o in a + b && Owned(o.content)
      ensures o.loc in StoreAll(slots, a + b) && StoreAll(slots, a + b)[o.loc] == o.content
    {
      StoredWhatever(slots, map[], a + b, o.loc);
    }
    StoreAppend(map[], a, b);
    forall o | o in b && Owned(o.content) ensures o.loc in StoreAll(map[], b) && StoreAll(map[], b)[o.loc] == o.content {
      assert o in a + b;
      StoredWhatever(map[], StoreAll(map[], a), b, o.loc);
    }
    forall o | o in a ensures o in a + b {}
  }

  /** No variable that receives what must be given back is named again after that. */
  ghost predicate NotOverwritten(ps: seq<Place>) {
    forall i, j :: 0 <= i < j < |ps| && ps[i].owned ==> ps[i].loc != ps[j].loc
  }

  lemma NotOverwrittenIsKept(os: seq<Out>)
    requires NotOverwritten(PlacesOf(os))
    ensures Kept(os)
  {
    forall o | o in os && Owned(o.content) ensures o.loc in StoreAll(map[], os) && StoreAll(map[], os)[o.loc] == o.content {
      var i :| 0 <= i < |os| && os[i] == o;
      assert forall j :: i < j < |os| ==> PlacesOf(os)[i].loc != PlacesOf(os)[j].loc;
      LastWriteStays(map[], os, i);
    }
  }

  /** A tree that names no such variable again keeps everything, whatever the value. */
  lemma NotOverwrittenKeeps(rd: Readers, mem: Memory, id: Id, t: Tree)
    requires NotOverwritten(Places(t))
    ensures Kept(Writes(rd, mem, id, t))
  {
    hide Writes, Places, Kept;
    WritesAlong(rd, mem, id, t);
    NotOverwrittenIsKept(Writes(rd, mem, id, t));
  }

  // ---------------------------------------------------------------------
  // What a decomposition holds, seen from the caller's variables

  function SlotOf(slots: map<nat, Content>, loc: nat): Content { if loc in slots then slots[loc] else Count(0) }

  /** The references in the variables that releaseDecomposition() looks at. */
  ghost function RefsAt(slots: map<nat, Content>, t: Tree): multiset<Id>
    decreases t, 0
  {
    match t
    case Leaf(kind, loc) => if kind in {'V', 'A', 'S'} then RefOf(SlotOf(slots, loc)) else multiset{}
    case ArrayOf(items, _) => ItemRefsAt(slots, items)
    case StructOf(members) => MemberRefsAt(slots, members)
    case _ => multiset{}
  }

  ghost function ItemRefsAt(slots: map<nat, Content>, ts: seq<Tree>): multiset<Id>
    decreases ts, 0
  {
    if ts == [] then multiset{} else RefsAt(slots, ts[0]) + ItemRefsAt(slots, ts[1..])
  }

  ghost function MemberRefsAt(slots: map<nat, Content>, ms: seq<Mbr>): multiset<Id>
    decreases ms, 0
  {
    if ms == [] then multiset{} else RefsAt(slots, ms[0].tree) + MemberRefsAt(slots, ms[1..])
  }

  ghost function BufsAt(slots: map<nat, Content>, t: Tree): multiset<string>
    decreases t, 0
  {
    match t
    case Leaf(kind, loc) => if kind == '8' then BufOf(SlotOf(slots, loc)) else multiset{}
    case Sized(_, loc, _) => BufOf(SlotOf(slots, loc))
    case Bytes(loc, _) => BufOf(SlotOf(slots, loc))
    case ArrayOf(items, _) => ItemBufsAt(slots, items)
    case StructOf(members) => MemberBufsAt(slots, members)
    case _ => multiset{}
  }

  ghost function ItemBufsAt(slots: map<nat, Content>, ts: seq<Tree>): multiset<string>
    decreases ts, 0
  {
    if ts == [] then multiset{} else BufsAt(slots, ts[0]) + ItemBufsAt(slots, ts[1..])
  }

  ghost function MemberBufsAt(slots: map<nat, Content>, ms: seq<Mbr>): multiset<string>
    decreases ms, 0
  {
    if ms == [] then multiset{} else BufsAt(slots, ms[0].tree) + MemberBufsAt(slots, ms[1..])
  }

  /** The variables of `t` hold references and buffers where its format says so. */
  ghost predicate Filled(slots: map<nat, Content>, t: Tree)
    decreases t, 0
  {
    match t
    case Leaf(kind, loc) =>
      (kind in {'V', 'A', 'S'} ==> SlotOf(slots, loc).Reference?) && (kind == '8' ==> SlotOf(slots, loc).Buffer?)
    case Sized(_, loc, _) => SlotOf(slots, loc).Buffer?
    case Bytes(loc, _) => SlotOf(slots, loc).Buffer?
    case ArrayOf(items, _) => forall x :: x in items ==> Filled(slots, x)
    case StructOf(members) => forall m :: m in members ==> Filled(slots, m.tree)
    case _ => true
  }

  lemma {:induction false} ItemsAtSnoc(slots: map<nat, Content>, ts: seq<Tree>, t: Tree)
    ensures ItemRefsAt(slots, ts + [t]) == ItemRefsAt(slots, ts) + RefsAt(slots, t)
    ensures ItemBufsAt(slots, ts + [t]) == ItemBufsAt(slots, ts) + BufsAt(slots, t)
  {
    hide RefsAt, BufsAt;
    if ts == [] {
      assert ts + [t] == [t] && [t][1..] == [];
    } else {
      ItemsAtSnoc(slots, ts[1..], t);
      assert (ts + [t])[1..] == ts[1..] + [t];
      BagAssoc(RefsAt(slots, ts[0]), ItemRefsAt(slots, ts[1..]), RefsAt(slots, t));
      BagAssoc(BufsAt(slots, ts[0]), ItemBufsAt(slots, ts[1..]), BufsAt(slots, t));
    }
  }

  lemma {:induction false} MembersAtSnoc(slots: map<nat, Content>, ms: seq<Mbr>, m: Mbr)
    ensures MemberRefsAt(slots, ms + [m]) == MemberRefsAt(slots, ms) + RefsAt(slots, m.tree)
    ensures MemberBufsAt(slots, ms + [m]) == MemberBufsAt(slots, ms) + BufsAt(slots, m.tree)
  {
    hide RefsAt, BufsAt;
    if ms == [] {
      assert ms + [m] == [m] && [m][1..] == [];
    } else {
      MembersAtSnoc(slots, ms[1..], m);
      assert (ms + [m])[1..] == ms[1..] + [m];
      BagAssoc(RefsAt(slots, ms[0].tree), MemberRefsAt(slots, ms[1..]), RefsAt(slots, m.tree));
      BagAssoc(BufsAt(slots, ms[0].tree), MemberBufsAt(slots, ms[1..]), BufsAt(slots, m.tree));
    }
  }

  lemma LeafAccount(rd: Readers, mem: Memory, id: Id, t: Tree, slots: map<nat, Content>)
    requires t.Leaf? && Reads(rd, mem, id, t).Ok? && Holds(slots, Reads(rd, mem, id, t).value)
    ensures var os := Reads(rd, mem, id, t).value;
      Filled(slots, t) && RefsAt(slots, t) == RefsIn(os) && BufsAt(slots, t) == BufsIn(os)
  {
    hide RefsIn, BufsIn, ReadPlain;
    var o := Reads(rd, mem, id, t).value[0];
    RefsOne(o);
    assert o in [o];
  }

  lemma TextAccount(rd: Readers, mem: Memory, id: Id, t: Tree, slots: map<nat, Content>)
    requires (t.Sized? || t.Bytes?) && Reads(rd, mem, id, t).Ok? && Holds(slots, Reads(rd, mem, id, t).value)
    ensures var os := Reads(rd, mem, id, t).value;
      Filled(slots, t) && RefsAt(slots, t) == RefsIn(os) && BufsAt(slots, t) == BufsIn(os)
  {
    hide RefsIn, BufsIn, ReadText;
    var o := Reads(rd, mem, id, t).value[0];
    RefsOfText(o, if t.Bytes? then Some(t.countLoc) else t.sizeLoc, |o.content.text|);
  }

  /** The variables say what was stored: they account for every reference and every
      buffer, with none counted twice. */
  lemma {:induction false} SlotsAccount(rd: Readers, mem: Memory, id: Id, t: Tree, slots: map<nat, Content>)
    requires KindsOk(t) && Reads(rd, mem, id, t).Ok? && Holds(slots, Reads(rd, mem, id, t).value)
    ensures var os := Reads(rd, mem, id, t).value;
      Filled(slots, t) && RefsAt(slots, t) == RefsIn(os) && BufsAt(slots, t) == BufsIn(os)
    decreases t, 0
  {
    hide ItemReads, MemberReads, Lookup, RefsIn, BufsIn, ItemRefsAt, MemberRefsAt, ItemBufsAt, MemberBufsAt, Holds, ReadLeaf, ReadText;
    match t
    case Leaf(_, _) => LeafAccount(rd, mem, id, t, slots);
    case Sized(_, _, _) => TextAccount(rd, mem, id, t, slots);
    case Bytes(_, _) => TextAccount(rd, mem, id, t, slots);
    case ArrayOf(items, _) => ItemsAccount(rd, mem, mem[id].body.items[..|items|], items, slots);
    case StructOf(members) => MembersAccount(rd, mem, id, members, slots);
    case _ => RefsOne(Out(0, Count(0)));
  }

  lemma HoldsParts(slots: map<nat, Content>, a: seq<Out>, b: seq<Out>)
    requires Holds(slots, a + b)
    ensures Holds(slots, a) && Holds(slots, b)
  {
    forall o | o in a ensures o in a + b {}
    forall o | o in b ensures o in a + b {}
  }

  lemma NothingStored(slots: map<nat, Content>)
    ensures RefsIn([]) == ItemRefsAt(slots, []) == MemberRefsAt(slots, []) == multiset{}
    ensures BufsIn([]) == ItemBufsAt(slots, []) == MemberBufsAt(slots, []) == multiset{}
  {}

  lemma {:induction false} ItemsAccount(rd: Readers, mem: Memory, ids: seq<Id>, ts: seq<Tree>, slots: map<nat, Content>)
    requires |ids| == |ts| && forall x :: x in ts ==> KindsOk(x)
    requires ItemReads(rd, mem, ids, ts).Ok? && Holds(slots, ItemReads(rd, mem, ids, ts).value)
    ensures var os := ItemReads(rd, mem, ids, ts).value;
      && (forall x :: x in ts ==> Filled(slots, x))
      && ItemRefsAt(slots, ts) == RefsIn(os) && ItemBufsAt(slots, ts) == BufsIn(os)
    decreases ts, 0
  {
    hide Reads, Filled, KindsOk, RefsAt, BufsAt, RefsIn, BufsIn, ItemRefsAt, ItemBufsAt, Holds;
    NothingStored(slots);
    if ts != [] {
      var n := |ts| - 1;
      assert ts[n] in ts && ts == ts[..n] + [ts[n]];
      var a, b := ItemReads(rd, mem, ids[..n], ts[..n]).value, Reads(rd, mem, ids[n], ts[n]).value;
      HoldsParts(slots, a, b);
      ItemsAccount(rd, mem, ids[..n], ts[..n], slots);
      SlotsAccount(rd, mem, ids[n], ts[n], slots);
      RefsAppend(a, b);
      ItemsAtSnoc(slots, ts[..n], ts[n]);
    }
  }

  lemma {:induction false} MembersAccount(rd: Readers, mem: Memory, id: Id, ms: seq<Mbr>, slots: map<nat, Content>)
    requires forall m :: m in ms ==> KindsOk(m.tree)
    requires MemberReads(rd, mem, id, ms).Ok? && Holds(slots, MemberReads(rd, mem, id, ms).value)
    ensures var os := MemberReads(rd, mem, id, ms).value;
      && (forall m :: m in ms ==> Filled(slots, m.tree))
      && MemberRefsAt(slots, ms) == RefsIn(os) && MemberBufsAt(slots, ms) == BufsIn(os)
    decreases ms, 0
  {
    hide Reads, Filled, KindsOk, RefsAt, BufsAt, Lookup, RefsIn, BufsIn, MemberRefsAt, MemberBufsAt, Holds;
    NothingStored(slots);
    if ms != [] {
      var n := |ms| - 1;
      assert ms[n] in ms && ms == ms[..n] + [ms[n]];
      var value := Lookup(mem, id, ms[n].key).value;
      var a, b := MemberReads(rd, mem, id, ms[..n]).value, Reads(rd, mem, value, ms[n].tree).value;
      HoldsParts(slots, a, b);
      MembersAccount(rd, mem, id, ms[..n], slots);
      SlotsAccount(rd, mem, value, ms[n].tree, slots);
      RefsAppend(a, b);
      MembersAtSnoc(slots, ms[..n], ms[n]);
    }
  }

  // ---------------------------------------------------------------------
  // Memory with extra references

  /** `mem` with the references `extra` on top. */
  ghost function Raised(mem: Memory, extra: multiset<Id>): (m: Memory)
    ensures |m| == |mem|
    ensures forall j :: 0 <= j < |m| ==>
              m[j] == if mem[j].Live? then Live(mem[j].refcount + extra[j], mem[j].body) else mem[j]
  {
    seq(|mem|, j requires 0 <= j < |mem| =>
      if mem[j].Live? then Live(mem[j].refcount + extra[j], mem[j].body) else mem[j])
  }

  lemma RaiseNothing(mem: Memory)
    ensures Raised(mem, multiset{}) == mem
  {}

  lemma RaiseOne(mem: Memory, a: multiset<Id>, x: Id)
    requires IsLive(mem, x)
    ensures IsLive(Raised(mem, a), x) && Retain(Raised(mem, a), x) == Raised(mem, a + multiset{x})
  {}

  lemma LowerOne(mem: Memory, a: multiset<Id>, x: Id)
    requires IsLive(mem, x)
    ensures Drop(Raised(mem, a + multiset{x}), [x]) == Raised(mem, a)
  {
    var m := Raised(mem, a + multiset{x});
    OneReleased(m, x);
    assert m[x := Live(m[x].refcount - 1, m[x].body)] == Raised(mem, a);
  }

  /** Extra references change nothing that is read. */
  lemma {:induction false} ReadsRaised(rd: Readers, mem: Memory, a: multiset<Id>, id: Id, t: Tree)
    requires NoneDying(mem)
    ensures Reads(rd, Raised(mem, a), id, t) == Reads(rd, mem, id, t)
    decreases t, 0
  {
    hide ItemReads, MemberReads;
    var m := Raised(mem, a);
    assert IsLive(m, id) <==> IsLive(mem, id);
    if IsLive(mem, id) {
      match t
      case ArrayOf(items, _) =>
        if mem[id].body.ArrayBody? && |items| <= |mem[id].body.items| {
          ItemsRaised(rd, mem, a, mem[id].body.items[..|items|], items);
        }
      case StructOf(members) => MembersRaised(rd, mem, a, id, members);
      case _ =>
    }
  }

  lemma {:induction false} ItemsRaised(rd: Readers, mem: Memory, a: multiset<Id>, ids: seq<Id>, ts: seq<Tree>)
    requires NoneDying(mem) && |ids| == |ts|
    ensures ItemReads(rd, Raised(mem, a), ids, ts) == ItemReads(rd, mem, ids, ts)
    decreases ts, 0
  {
    hide Reads, Then;
    if ts != [] {
      var n := |ts| - 1;
      ItemsRaised(rd, mem, a, ids[..n], ts[..n]);
      ReadsRaised(rd, mem, a, ids[n], ts[n]);
    }
  }

  lemma {:induction false} MembersRaised(rd: Readers, mem: Memory, a: multiset<Id>, id: Id, ms: seq<Mbr>)
    requires NoneDying(mem)
    ensures MemberReads(rd, Raised(mem, a), id, ms) == MemberReads(rd, mem, id, ms)
    decreases ms, 0
  {
    hide Reads, Then, Lookup;
    if ms != [] {
      var n := |ms| - 1;
      MembersRaised(rd, mem, a, id, ms[..n]);
      LookupRaised(mem, a, id, ms[n].key);
      if Lookup(mem, id, ms[n].key).Some? {
        ReadsRaised(rd, mem, a, Lookup(mem, id, ms[n].key).value, ms[n].tree);
      }
    }
  }

  lemma LookupRaised(mem: Memory, a: multiset<Id>, id: Id, key: string)
    requires NoneDying(mem)
    ensures Lookup(Raised(mem, a), id, key) == Lookup(mem, id, key)
  {
    var m := Raised(mem, a);
    assert IsStruct(m, id) <==> IsStruct(mem, id);
    if IsStruct(mem, id) {
      var members := mem[id].body.members;
      assert AllStrings(m, members) <==> AllStrings(mem, members);
      if AllStrings(mem, members) {
        FindKeySame(m, mem, members, key);
      }
    }
  }

  lemma {:induction false} FindKeySame(a: Memory, b: Memory, members: seq<MemberRec>, key: string)
    requires AllStrings(a, members) && AllStrings(b, members)
    requires forall i :: 0 <= i < |members| ==> KeyText(a, members[i].key) == KeyText(b, members[i].key)
    ensures FindKey(a, members, key) == FindKey(b, members, key)
  {
    if members != [] {
      FindKeySame(a, b, members[..|members| - 1], key);
    }
  }

  /** Everything referred to by what is stored is live. */
  lemma {:induction false} RefsLive(rd: Readers, mem: Memory, id: Id, t: Tree, x: Id)
    requires Reads(rd, mem, id, t).Ok? && x in RefsIn(Reads(rd, mem, id, t).value)
    ensures IsLive(mem, x)
    decreases t, 0
  {
    hide ItemReads, MemberReads, Lookup, RefsIn;
    var os := Reads(rd, mem, id, t).value;
    RefsOne(Out(0, Count(0)));
    match t
    case Leaf(kind, loc) => RefsOne(os[0]);
    case Sized(_, loc, sizeLoc) =>
      RefsOfText(os[0], sizeLoc, |os[0].content.text|);
    case Bytes(loc, countLoc) =>
      RefsOfText(os[0], Some(countLoc), |os[0].content.text|);
    case ArrayOf(items, _) => ItemRefsLive(rd, mem, mem[id].body.items[..|items|], items, x);
    case StructOf(members) => MemberRefsLive(rd, mem, id, members, x);
    case _ =>
  }

  lemma {:induction false} ItemRefsLive(rd: Readers, mem: Memory, ids: seq<Id>, ts: seq<Tree>, x: Id)
    requires |ids| == |ts| && ItemReads(rd, mem, ids, ts).Ok? && x in RefsIn(ItemReads(rd, mem, ids, ts).value)
    ensures IsLive(mem, x)
    decreases ts, 0
  {
    hide Reads, IsLive;
    if ts != [] {
      var n := |ts| - 1;
      var a, b := ItemReads(rd, mem, ids[..n], ts[..n]).value, Reads(rd, mem, ids[n], ts[n]).value;
      RefsAppend(a, b);
      if x in RefsIn(a) { ItemRefsLive(rd, mem, ids[..n], ts[..n], x); } else { RefsLive(rd, mem, ids[n], ts[n], x); }
    }
  }

  lemma {:induction false} MemberRefsLive(rd: Readers, mem: Memory, id: Id, ms: seq<Mbr>, x: Id)
    requires MemberReads(rd, mem, id, ms).Ok? && x in RefsIn(MemberReads(rd, mem, id, ms).value)
    ensures IsLive(mem, x)
    decreases ms, 0
  {
    hide Reads, IsLive, Lookup;
    if ms != [] {
      var n := |ms| - 1;
      var value := Lookup(mem, id, ms[n].key).value;
      var a, b := MemberReads(rd, mem, id, ms[..n]).value, Reads(rd, mem, value, ms[n].tree).value;
      RefsAppend(a, b);
      if x in RefsIn(a) { MemberRefsLive(rd, mem, id, ms[..n], x); } else { RefsLive(rd, mem, value, ms[n].tree, x); }
    }
  }
}
