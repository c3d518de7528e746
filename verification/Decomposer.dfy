/** The decomposition itself, with its rollback, in the memory mode of
xmlrpc_decompose_value(). */
module Decomposer {
  import opened Text
  import opened Values
  import opened Cells
  import opened Structs
  import opened ValueStores
  import opened Formats
  import opened Decompose
  import opened JsonLexer

  /** The caller's variables, and the memory allocated for it. */
  class Caller {
    var slots: map<nat, Content>
    var buffers: multiset<string>

    method Store(loc: nat, c: Content)
      modifies `slots
      ensures slots == old(slots)[loc := c]
    {
      slots := slots[loc := c];
    }

    /** malloc(), filled with `text` and stored. */
    method StoreBuffer(loc: nat, text: string)
      modifies this
      ensures slots == old(slots)[loc := Buffer(text)] && buffers == old(buffers) + multiset{text}
    {
      buffers := buffers + multiset{text};
      slots := slots[loc := Buffer(text)];
    }

    /** free() of the memory a variable points to. */
    method Free(loc: nat)
      requires loc in slots && slots[loc].Buffer? && slots[loc].text in buffers
      modifies `buffers
      ensures buffers == old(buffers) - multiset{slots[loc].text}
    {
      buffers := buffers - multiset{slots[loc].text};
    }
  }

  /** What is left to release from the `i`th item on. */
  lemma ItemsLeft(slots: map<nat, Content>, ts: seq<Tree>, i: nat)
    requires i < |ts|
    ensures ItemRefsAt(slots, ts[i..]) == RefsAt(slots, ts[i]) + ItemRefsAt(slots, ts[i + 1..])
    ensures ItemBufsAt(slots, ts[i..]) == BufsAt(slots, ts[i]) + ItemBufsAt(slots, ts[i + 1..])
  {
    hide RefsAt, BufsAt;
    assert ts[i..][1..] == ts[i + 1..];
  }

  lemma {:induction false} SizeOfItem(ts: seq<Tree>, i: nat)
    requires i < |ts|
    ensures Size(ts[i]) <= ItemsSize(ts)
    decreases |ts|
  {
    hide Size;
    if i > 0 { SizeOfItem(ts[1..], i - 1); }
  }

  lemma {:induction false} MembersAsItems(slots: map<nat, Content>, ms: seq<Mbr>)
    ensures MemberRefsAt(slots, ms) == ItemRefsAt(slots, Trees(ms))
    ensures MemberBufsAt(slots, ms) == ItemBufsAt(slots, Trees(ms))
    ensures MembersSize(ms) == ItemsSize(Trees(ms))
    decreases |ms|
  {
    hide RefsAt, BufsAt, Size;
    if ms != [] {
      MembersAsItems(slots, ms[1..]);
      assert Trees(ms)[1..] == Trees(ms[1..]);
    }
  }

  ghost function Size(t: Tree): nat
    decreases t, 0
  {
    match t
    case ArrayOf(items, _) => 1 + ItemsSize(items)
    case StructOf(members) => 1 + MembersSize(members)
    case _ => 0
  }

  ghost function ItemsSize(ts: seq<Tree>): nat
    decreases ts, 0
  {
    if ts == [] then 0 else Size(ts[0]) + ItemsSize(ts[1..])
  }

  ghost function MembersSize(ms: seq<Mbr>): nat
    decreases ms, 0
  {
    if ms == [] then 0 else Size(ms[0].tree) + MembersSize(ms[1..])
  }

  lemma BranchesOk(slots: map<nat, Content>, t: Tree)
    requires KindsOk(t) && Filled(slots, t)
    ensures t.ArrayOf? ==> AllFilled(slots, t.items)
    ensures t.StructOf? ==> AllFilled(slots, Trees(t.members))
  {
    if t.StructOf? {
      forall x | x in Trees(t.members) ensures KindsOk(x) && Filled(slots, x) {
        var i :| 0 <= i < |t.members| && Trees(t.members)[i] == x;
        assert t.members[i] in t.members;
      }
    }
  }

  /** What the variables of each kind of node hold. */
  lemma ResourcesOf(slots: map<nat, Content>, t: Tree)
    requires Filled(slots, t) && KindsOk(t)
    ensures var r, s := RefsAt(slots, t), BufsAt(slots, t);
      && (t.Leaf? && t.kind in {'V', 'A', 'S'} ==>
            t.loc in slots && slots[t.loc].Reference? && r == multiset{slots[t.loc].id} && s == multiset{})
      && (t.Leaf? && t.kind == '8' ==>
            t.loc in slots && slots[t.loc].Buffer? && r == multiset{} && s == multiset{slots[t.loc].text})
      && (t.Leaf? && t.kind !in {'V', 'A', 'S', '8'} ==> r == multiset{} && s == multiset{})
      && (t.Sized? || t.Bytes? ==>
            t.loc in slots && slots[t.loc].Buffer? && r == multiset{} && s == multiset{slots[t.loc].text})
      && (t.Ignored? || t.NilLeaf? ==> r == multiset{} && s == multiset{})
      && (t.ArrayOf? ==> r == ItemRefsAt(slots, t.items) && s == ItemBufsAt(slots, t.items))
      && (t.StructOf? ==> r == MemberRefsAt(slots, t.members) && s == MemberBufsAt(slots, t.members))
  {
    hide ItemRefsAt, MemberRefsAt, ItemBufsAt, MemberBufsAt;
  }

  lemma SizeOfBranches(t: Tree)
    ensures t.ArrayOf? ==> ItemsSize(t.items) < Size(t)
    ensures t.StructOf? ==> MembersSize(t.members) < Size(t)
  {}

  /** The state when, beside what was there before, the references `a` and the buffers
      `b` are held. */
  ghost predicate Owes(mem: Memory, held: multiset<Id>, now: Memory, held': multiset<Id>, buffers: multiset<string>,
      a: multiset<Id>, b: multiset<string>)
  {
    now == Raised(mem, a) && held' == held + a && buffers == b
  }

  ghost predicate AllLive(mem: Memory, refs: multiset<Id>) { forall x :: x in refs ==> IsLive(mem, x) }

  lemma LiveParts(mem: Memory, a: multiset<Id>, b: multiset<Id>)
    ensures AllLive(mem, a + b) <==> AllLive(mem, a) && AllLive(mem, b)
  {
    hide IsLive;
    if AllLive(mem, a + b) {
      forall x | x in a ensures IsLive(mem, x) { assert x in a + b; }
      forall x | x in b ensures IsLive(mem, x) { assert x in a + b; }
    }
  }

  lemma BagNothing<T>(a: multiset<T>)
    ensures a + multiset{} == a
  {}

  lemma BagSwap<T>(base: multiset<T>, piece: multiset<T>, rest: multiset<T>)
    ensures base + (piece + rest) == (base + rest) + piece
  {}

  method ReleaseReference(store: ValueStore, id: Id, ghost mem: Memory, ghost held: multiset<Id>,
      ghost buffers: multiset<string>, ghost a: multiset<Id>, ghost b: multiset<string>)
    requires store.Valid() && AllLive(mem, multiset{id})
    requires Owes(mem, held, store.mem, store.held, buffers, a + multiset{id}, b + multiset{})
    modifies store
    ensures store.Valid() && Owes(mem, held, store.mem, store.held, buffers, a, b)
  {
    hide HeldCount, HashKey, Drop, Conserved, StructsOk, NoneDying, Raised;
    assert id in multiset{id};
    LowerOne(mem, a, id);
    store.Decref(id);
    BagNothing(b);
    assert held + (a + multiset{id}) - multiset{id} == held + a;
  }

  method ReleaseBuffer(caller: Caller, loc: nat, ghost mem: Memory, ghost held: multiset<Id>, ghost now: Memory,
      ghost held': multiset<Id>, ghost a: multiset<Id>, ghost b: multiset<string>)
    requires loc in caller.slots && caller.slots[loc].Buffer?
    requires Owes(mem, held, now, held', caller.buffers, a + multiset{}, b + multiset{caller.slots[loc].text})
    modifies caller`buffers
    ensures Owes(mem, held, now, held', caller.buffers, a, b)
  {
    hide Raised;
    BagNothing(a);
    caller.Free(loc);
    assert b + multiset{caller.slots[loc].text} - multiset{caller.slots[loc].text} == b;
  }

  /** Everything a decomposition handed out is taken back: the references and the
      buffers its variables hold, and no others. */
  method ReleaseDecomposition(store: ValueStore, caller: Caller, t: Tree, ghost mem: Memory, ghost held: multiset<Id>,
      ghost a: multiset<Id>, ghost b: multiset<string>)
    requires store.Valid() && KindsOk(t) && Filled(caller.slots, t) && AllLive(mem, RefsAt(caller.slots, t))
    requires Owes(mem, held, store.mem, store.held, caller.buffers, a + RefsAt(caller.slots, t), b + BufsAt(caller.slots, t))
    modifies store, caller`buffers
    ensures store.Valid() && Owes(mem, held, store.mem, store.held, caller.buffers, a, b)
    decreases Size(t), 0
  {
    hide Sound, RefsAt, BufsAt, ItemRefsAt, MemberRefsAt, ItemBufsAt, MemberBufsAt, KindsOk, Filled, Size, ItemsSize, MembersSize,
      Owes, AllLive;
    ResourcesOf(caller.slots, t);
    SizeOfBranches(t);
    BagNothing(a);
    BagNothing(b);
    match t {
      case Leaf(kind, loc) =>
        if kind == '8' {
          ReleaseBuffer(caller, loc, mem, held, store.mem, store.held, a, b);
        } else if kind in {'V', 'A', 'S'} {
          ReleaseReference(store, caller.slots[loc].id, mem, held, caller.buffers, a, b);
        }
      case Sized(_, loc, _) => ReleaseBuffer(caller, loc, mem, held, store.mem, store.held, a, b);
      case Bytes(loc, _) => ReleaseBuffer(caller, loc, mem, held, store.mem, store.held, a, b);
      case ArrayOf(items, _) =>
        BranchesOk(caller.slots, t);
        ReleaseItems(store, caller, items, mem, held, a, b);
      case StructOf(members) =>
        BranchesOk(caller.slots, t);
        MembersAsItems(caller.slots, members);
        ReleaseItems(store, caller, Trees(members), mem, held, a, b);
      case _ =>
    }
  }

  /** releaseDecompArray() and the loops that release what was done before a failure. */
  method ReleaseItems(store: ValueStore, caller: Caller, ts: seq<Tree>, ghost mem: Memory, ghost held: multiset<Id>,
      ghost a: multiset<Id>, ghost b: multiset<string>)
    requires store.Valid() && AllFilled(caller.slots, ts) && AllLive(mem, ItemRefsAt(caller.slots, ts))
    requires Owes(mem, held, store.mem, store.held, caller.buffers, a + ItemRefsAt(caller.slots, ts), b + ItemBufsAt(caller.slots, ts))
    modifies store, caller`buffers
    ensures store.Valid() && Owes(mem, held, store.mem, store.held, caller.buffers, a, b)
    decreases ItemsSize(ts), 1
  {
    hide Sound, RefsAt, BufsAt, KindsOk, Filled, ItemRefsAt, ItemBufsAt, Size, ItemsSize, Owes, AllLive;
    ghost var slots := caller.slots;
    var i := 0;
    assert ts[0..] == ts;
    while i < |ts|
      invariant i <= |ts| && store.Valid() && caller.slots == slots
      invariant Owes(mem, held, store.mem, store.held, caller.buffers, a + ItemRefsAt(slots, ts[i..]), b + ItemBufsAt(slots, ts[i..]))
      invariant AllLive(mem, ItemRefsAt(slots, ts[i..]))
    {
      ItemsLeft(slots, ts, i);
      SizeOfItem(ts, i);
      ghost var refs, bufs := ItemRefsAt(slots, ts[i + 1..]), ItemBufsAt(slots, ts[i + 1..]);
      LiveParts(mem, RefsAt(slots, ts[i]), refs);
      BagSwap(a, RefsAt(slots, ts[i]), refs);
      BagSwap(b, BufsAt(slots, ts[i]), bufs);
      ReleaseDecomposition(store, caller, ts[i], mem, held, a + refs, b + bufs);
      i := i + 1;
    }
    NothingAt(slots, ts[i..]);
    BagNothing(a);
    BagNothing(b);
  }

  ghost predicate AllFilled(slots: map<nat, Content>, ts: seq<Tree>) { forall x :: x in ts ==> KindsOk(x) && Filled(slots, x) }

  lemma NothingAt(slots: map<nat, Content>, ts: seq<Tree>)
    requires ts == []
    ensures ItemRefsAt(slots, ts) == multiset{} && ItemBufsAt(slots, ts) == multiset{}
  {}

  // ---------------------------------------------------------------------
  // Decomposing

  /** What decomposing comes to: `ws` is stored, in order. On a fault what is owed is as
      it was; otherwise `ws` is all that the tree's leaves call for, and exactly that is
      owed in addition. */
  ghost predicate Decomposed(r: Result<seq<Out>>, ws: seq<Out>, fault: Option<FaultCode>, before: map<nat, Content>,
      slots: map<nat, Content>, mem: Memory, held: multiset<Id>, now: Memory, held': multiset<Id>, buffers: multiset<string>,
      a: multiset<Id>, b: multiset<string>)
  {
    && slots == StoreAll(before, ws)
    && if r.Fault? then fault == Some(r.code) && Owes(mem, held, now, held', buffers, a, b)
       else fault == None && ws == r.value && Owes(mem, held, now, held', buffers, a + RefsIn(ws), b + BufsIn(ws))
  }

  lemma NothingDecomposed(r: Result<seq<Out>>, slots: map<nat, Content>, mem: Memory, held: multiset<Id>, now: Memory,
      held': multiset<Id>, buffers: multiset<string>, a: multiset<Id>, b: multiset<string>)
    requires r.Fault? || r == Ok([])
    requires Owes(mem, held, now, held', buffers, a, b)
    ensures Decomposed(r, [], if r.Fault? then Some(r.code) else None, slots, slots, mem, held, now, held', buffers, a, b)
  {
    hide Owes;
    BagNothing(a);
    BagNothing(b);
  }

  lemma OneStored(slots: map<nat, Content>, o: Out, mem: Memory, held: multiset<Id>, now: Memory,
      held': multiset<Id>, buffers: multiset<string>, a: multiset<Id>, b: multiset<string>)
    requires Owes(mem, held, now, held', buffers, a + RefOf(o.content), b + BufOf(o.content))
    ensures Decomposed(Ok([o]), [o], None, slots, slots[o.loc := o.content], mem, held, now, held', buffers, a, b)
  {
    hide Owes;
    RefsOne(o);
    assert [o][..0] == [];
    assert StoreAll(slots, []) == slots && StoreAll(slots, [o]) == slots[o.loc := o.content];
  }

  lemma TextStored(slots: map<nat, Content>, o: Out, sizeLoc: Option<nat>, n: nat, mem: Memory, held: multiset<Id>,
      now: Memory, held': multiset<Id>, buffers: multiset<string>, a: multiset<Id>, b: multiset<string>)
    requires o.content.Buffer? && Owes(mem, held, now, held', buffers, a, b + BufOf(o.content))
    ensures var slots', ws := slots[o.loc := o.content], [o] + SizeOut(sizeLoc, n);
      Decomposed(Ok(ws), ws, None, slots, if sizeLoc.Some? then slots'[sizeLoc.value := Count(n)] else slots',
        mem, held, now, held', buffers, a, b)
  {
    hide Owes;
    RefsOfText(o, sizeLoc, n);
    BagNothing(a);
    assert [o][..0] == [];
    assert StoreAll(slots, [o]) == slots[o.loc := o.content];
    StoreAppend(slots, [o], SizeOut(sizeLoc, n));
    if sizeLoc.Some? { assert SizeOut(sizeLoc, n)[..0] == []; }
  }

  /** What is written when the value itself, or a leaf, is not what the tree calls for. */
  lemma WritesCases(rd: Readers, mem: Memory, id: Id, t: Tree)
    requires IsLive(mem, id)
    ensures var body, r, ws := mem[id].body, Reads(rd, mem, id, t), Writes(rd, mem, id, t);
      && (r.Ok? ==> ws == r.value)
      && (r.Fault? && !t.ArrayOf? && !t.StructOf? ==> ws == [])
      && (t.ArrayOf? && !SizeFits(body, t) ==> ws == [])
      && (t.ArrayOf? && SizeFits(body, t) ==> ws == ItemWrites(rd, mem, body.items[..|t.items|], t.items))
      && (t.StructOf? ==> ws == if body.StructBody? then MemberWrites(rd, mem, id, t.members) else [])
  {
    hide ItemReads, MemberReads, ItemWrites, MemberWrites;
    var body := mem[id].body;
    if t.ArrayOf? && SizeFits(body, t) {
      ItemWritesRead(rd, mem, body.items[..|t.items|], t.items);
    } else if t.StructOf? {
      MemberWritesRead(rd, mem, id, t.members);
    }
  }

  lemma ItemWritesRead(rd: Readers, mem: Memory, ids: seq<Id>, ts: seq<Tree>)
    requires |ids| == |ts|
    ensures var r := ItemReads(rd, mem, ids, ts); r.Ok? ==> ItemWrites(rd, mem, ids, ts) == r.value
  {
    hide Reads;
  }

  lemma MemberWritesRead(rd: Readers, mem: Memory, id: Id, ms: seq<Mbr>)
    ensures var r := MemberReads(rd, mem, id, ms); r.Ok? ==> MemberWrites(rd, mem, id, ms) == r.value
  {
    hide Reads, Lookup;
  }

  /** xmlrpc_INCREF() of a value that is handed out. */
  method TakeReference(store: ValueStore, id: Id, ghost mem: Memory, ghost held: multiset<Id>,
      ghost buffers: multiset<string>, ghost a: multiset<Id>, ghost b: multiset<string>)
    requires store.Valid() && IsLive(mem, id) && Owes(mem, held, store.mem, store.held, buffers, a, b)
    modifies store
    ensures store.Valid() && Owes(mem, held, store.mem, store.held, buffers, a + multiset{id}, b)
  {
    hide HeldCount, HashKey, Conserved, StructsOk, NoneDying;
    RaiseOne(mem, a, id);
    store.Incref(id);
    assert held + a + multiset{id} == held + (a + multiset{id});
  }

  method TakeBuffer(caller: Caller, loc: nat, text: string, ghost mem: Memory, ghost held: multiset<Id>, ghost now: Memory,
      ghost held': multiset<Id>, ghost a: multiset<Id>, ghost b: multiset<string>)
    requires Owes(mem, held, now, held', caller.buffers, a, b)
    modifies caller
    ensures caller.slots == old(caller.slots)[loc := Buffer(text)]
    ensures Owes(mem, held, now, held', caller.buffers, a, b + multiset{text})
  {
    hide Raised;
    caller.StoreBuffer(loc, text);
  }

  lemma BodyOf(mem: Memory, held: multiset<Id>, now: Memory, held': multiset<Id>, buffers: multiset<string>, a: multiset<Id>,
      b: multiset<string>, id: Id)
    requires IsLive(mem, id) && Owes(mem, held, now, held', buffers, a, b)
    ensures IsLive(now, id) && now[id].body == mem[id].body
  {}

  lemma LeafReads(rd: Readers, mem: Memory, now: Memory, id: Id, t: Tree)
    requires t.Leaf? && IsLive(mem, id) && IsLive(now, id) && now[id].body == mem[id].body
    ensures var c := ReadLeaf(rd, now, id, t.kind);
      Reads(rd, mem, id, t) == if c.Fault? then Fault(c.code) else Ok([Out(t.loc, c.value)])
  {
    hide ReadPlain;
  }

  /** xmlrpc_read_int() and the other readers of values without memory of their own, and
      the specifiers that hand out the value itself. */
  method DecomposeLeaf(store: ValueStore, caller: Caller, rd: Readers, id: Id, t: Tree, ghost mem: Memory,
      ghost held: multiset<Id>, ghost a: multiset<Id>, ghost b: multiset<string>) returns (fault: Option<FaultCode>)
    requires store.Valid() && t.Leaf? && IsLive(mem, id)
    requires Owes(mem, held, store.mem, store.held, caller.buffers, a, b)
    modifies store, caller
    ensures store.Valid()
    ensures Decomposed(Reads(rd, mem, id, t), Writes(rd, mem, id, t), fault, old(caller.slots), caller.slots, mem, held, store.mem,
                       store.held, caller.buffers, a, b)
  {
    hide Sound, Owes, Reads, Writes, RefsIn, BufsIn;
    BodyOf(mem, held, store.mem, store.held, caller.buffers, a, b, id);
    LeafReads(rd, mem, store.mem, id, t);
    WritesCases(rd, mem, id, t);
    NothingDecomposed(Fault(TypeError), caller.slots, mem, held, store.mem, store.held, caller.buffers, a, b);
    BagNothing(a);
    BagNothing(b);
    var c := ReadLeaf(rd, store.mem, id, t.kind);
    ReferenceIsSelf(rd, store.mem, id, t.kind);
    hide ReadLeaf;
    if c.Fault? { return Some(c.code); }
    ghost var slots := caller.slots;
    fault := None;
    match c.value {
      case Reference(_) =>
        TakeReference(store, id, mem, held, caller.buffers, a, b);
        caller.Store(t.loc, c.value);
      case Buffer(text) => TakeBuffer(caller, t.loc, text, mem, held, store.mem, store.held, a, b);
      case _ => caller.Store(t.loc, c.value);
    }
    OneStored(slots, Out(t.loc, c.value), mem, held, store.mem, store.held, caller.buffers, a, b);
  }

  lemma ReferenceIsSelf(rd: Readers, mem: Memory, id: Id, kind: char)
    requires IsLive(mem, id)
    ensures var c := ReadLeaf(rd, mem, id, kind); c.Ok? && c.value.Reference? ==> c.value.id == id
  {}

  /** The text that a node of a string or byte string reads. */
  function TextRead(rd: Readers, body: Body, t: Tree): Result<string>
    requires t.Sized? || t.Bytes?
  {
    if !body.Leaf? then Fault(TypeError)
    else if t.Bytes? then if body.v.Base64? then Ok(body.v.bytes) else Fault(TypeError)
    else ReadText(rd, t.kind, t.sizeLoc.Some?, body.v)
  }

  function SizeLocOf(t: Tree): Option<nat>
    requires t.Sized? || t.Bytes?
  {
    if t.Bytes? then Some(t.countLoc) else t.sizeLoc
  }

  lemma TextReads(rd: Readers, mem: Memory, id: Id, t: Tree)
    requires (t.Sized? || t.Bytes?) && IsLive(mem, id)
    ensures var text := TextRead(rd, mem[id].body, t);
      Reads(rd, mem, id, t) == if text.Fault? then Fault(text.code) else Ok([Out(t.loc, Buffer(text.value))] + SizeOut(SizeLocOf(t), |text.value|))
  {
    hide ReadText;
  }

  /** The readers that allocate: strings, with or without a size, and byte strings. */
  method DecomposeText(store: ValueStore, caller: Caller, rd: Readers, id: Id, t: Tree, ghost mem: Memory,
      ghost held: multiset<Id>, ghost a: multiset<Id>, ghost b: multiset<string>) returns (fault: Option<FaultCode>)
    requires store.Valid() && (t.Sized? || t.Bytes?) && IsLive(mem, id)
    requires Owes(mem, held, store.mem, store.held, caller.buffers, a, b)
    modifies caller
    ensures Decomposed(Reads(rd, mem, id, t), Writes(rd, mem, id, t), fault, old(caller.slots), caller.slots, mem, held, store.mem,
                       store.held, caller.buffers, a, b)
  {
    hide Sound, Owes, Reads, Writes, RefsIn, BufsIn, TextRead;
    BodyOf(mem, held, store.mem, store.held, caller.buffers, a, b, id);
    TextReads(rd, mem, id, t);
    WritesCases(rd, mem, id, t);
    NothingDecomposed(Fault(TypeError), caller.slots, mem, held, store.mem, store.held, caller.buffers, a, b);
    var text := TextRead(rd, store.mem[id].body, t);
    if text.Fault? { return Some(text.code); }
    ghost var slots := caller.slots;
    var sizeLoc := SizeLocOf(t);
    TakeBuffer(caller, t.loc, text.value, mem, held, store.mem, store.held, a, b);
    TextStored(slots, Out(t.loc, Buffer(text.value)), sizeLoc, |text.value|, mem, held, store.mem, store.held, caller.buffers, a, b);
    if sizeLoc.Some? { caller.Store(sizeLoc.value, Count(|text.value|)); }
    fault := None;
  }

  /** xmlrpc_array_read_item(): an item of the array, with a reference to it. */
  method TakeItem(store: ValueStore, arr: Id, index: nat, ghost mem: Memory, ghost held: multiset<Id>,
      ghost buffers: multiset<string>, ghost a: multiset<Id>, ghost b: multiset<string>) returns (x: Id)
    requires store.Valid() && NoneDying(mem) && IsArray(mem, arr) && index < |mem[arr].body.items|
    requires Owes(mem, held, store.mem, store.held, buffers, a, b)
    modifies store
    ensures store.Valid() && x == mem[arr].body.items[index] && IsLive(mem, x)
    ensures Owes(mem, held, store.mem, store.held, buffers, a + multiset{x}, b)
  {
    hide HeldCount, HashKey, Conserved, StructsOk;
    BodyOf(mem, held, store.mem, store.held, buffers, a, b, arr);
    var r := store.ReadItem(arr, index);
    x := r.value;
    RaiseOne(mem, a, x);
    assert held + a + multiset{x} == held + (a + multiset{x});
  }

  /** xmlrpc_struct_read_value(): the value of a member, with a reference to it. */
  method TakeMember(store: ValueStore, struct: Id, key: string, ghost mem: Memory, ghost held: multiset<Id>,
      ghost buffers: multiset<string>, ghost a: multiset<Id>, ghost b: multiset<string>) returns (x: Option<Id>)
    requires store.Valid() && NoneDying(mem) && IsStruct(mem, struct)
    requires Owes(mem, held, store.mem, store.held, buffers, a, b)
    modifies store
    ensures store.Valid() && x == Lookup(mem, struct, key) && (x.Some? ==> IsLive(mem, x.value))
    ensures Owes(mem, held, store.mem, store.held, buffers, if x.Some? then a + multiset{x.value} else a, b)
  {
    hide HeldCount, HashKey, Conserved, FindKey;
    BodyOf(mem, held, store.mem, store.held, buffers, a, b, struct);
    LookupRaised(mem, a, struct, key);
    LookupIsValueOf(store.mem, struct, key);
    hide Lookup, ValueOf, StructsOk;
    var r := store.ReadValue(struct, key);
    if r.Fault? { return None; }
    x := Some(r.value);
    RaiseOne(mem, a, r.value);
    assert held + a + multiset{r.value} == held + (a + multiset{r.value});
  }

  lemma LookupIsValueOf(mem: Memory, struct: Id, key: string)
    requires StructsOk(mem) && IsStruct(mem, struct)
    ensures StructOk(mem, mem[struct].body.members) && ValueOf(mem, struct, key) == Ok(Lookup(mem, struct, key))
  {
    hide HashKey, FindKey;
    assert StructOk(mem, mem[struct].body.members);
    assert AllStrings(mem, mem[struct].body.members);
  }

  /** One part of an array or struct, given a reference to it, which is given back. */
  method DecomposePart(store: ValueStore, caller: Caller, rd: Readers, x: Id, t: Tree, ghost mem: Memory,
      ghost held: multiset<Id>, ghost a: multiset<Id>, ghost b: multiset<string>) returns (fault: Option<FaultCode>)
    requires store.Valid() && KindsOk(t) && IsLive(mem, x) && NoneDying(mem)
    requires Reads(rd, mem, x, t).Ok? || Kept(Writes(rd, mem, x, t))
    requires Owes(mem, held, store.mem, store.held, caller.buffers, a + multiset{x}, b)
    modifies store, caller
    ensures store.Valid()
    ensures Decomposed(Reads(rd, mem, x, t), Writes(rd, mem, x, t), fault, old(caller.slots), caller.slots, mem, held, store.mem,
                       store.held, caller.buffers, a, b)
    decreases t, 2
  {
    hide Sound, NoneDying, KindsOk, Owes, Reads, Writes, RefsIn, BufsIn, Kept, StoreAll;
    ghost var r := Reads(rd, mem, x, t);
    fault := DecomposeValueWithTree(store, caller, rd, x, t, mem, held, a + multiset{x}, b);
    assert AllLive(mem, multiset{x});
    ghost var refs, bufs := if r.Ok? then a + RefsIn(r.value) else a, if r.Ok? then b + BufsIn(r.value) else b;
    if r.Ok? { BagAround(a, multiset{x}, RefsIn(r.value)); }
    BagNothing(bufs);
    ReleaseReference(store, x, mem, held, caller.buffers, refs, bufs);
  }

  lemma BagAround<T>(a: multiset<T>, x: multiset<T>, r: multiset<T>)
    ensures (a + x) + r == (a + r) + x
  {}

  lemma {:induction false} ItemsFaultStays(rd: Readers, mem: Memory, ids: seq<Id>, ts: seq<Tree>, n: nat)
    requires |ids| == |ts| && n <= |ts| && ItemReads(rd, mem, ids[..n], ts[..n]).Fault?
    ensures ItemReads(rd, mem, ids, ts) == ItemReads(rd, mem, ids[..n], ts[..n])
    decreases |ts|
  {
    hide Reads;
    if n == |ts| {
      assert ids[..n] == ids && ts[..n] == ts;
    } else {
      var last := |ts| - 1;
      assert ids[..last][..n] == ids[..n] && ts[..last][..n] == ts[..n];
      ItemsFaultStays(rd, mem, ids[..last], ts[..last], n);
    }
  }

  lemma ItemsStep(rd: Readers, mem: Memory, ids: seq<Id>, ts: seq<Tree>, n: nat)
    requires |ids| == |ts| && n < |ts|
    ensures ItemReads(rd, mem, ids[..n + 1], ts[..n + 1])
              == Then(ItemReads(rd, mem, ids[..n], ts[..n]), Reads(rd, mem, ids[n], ts[n]))
  {
    hide Reads, Then;
    assert ids[..n + 1][..n] == ids[..n] && ts[..n + 1][..n] == ts[..n];
  }

  /** With a fault at the `n`th item, nothing is stored for the items after it. */
  lemma {:induction false} ItemWritesStay(rd: Readers, mem: Memory, ids: seq<Id>, ts: seq<Tree>, n: nat)
    requires |ids| == |ts| && n < |ts| && ItemReads(rd, mem, ids[..n], ts[..n]).Ok? && Reads(rd, mem, ids[n], ts[n]).Fault?
    ensures ItemWrites(rd, mem, ids, ts) == ItemReads(rd, mem, ids[..n], ts[..n]).value + Writes(rd, mem, ids[n], ts[n])
    decreases |ts|
  {
    hide Reads, Writes, ItemReads;
    var last := |ts| - 1;
    if n < last {
      assert ids[..last][..n] == ids[..n] && ts[..last][..n] == ts[..n];
      ItemWritesStay(rd, mem, ids[..last], ts[..last], n);
      ItemsStep(rd, mem, ids[..last], ts[..last], n);
      ItemsFaultStays(rd, mem, ids[..last], ts[..last], n + 1);
    }
  }

  /** After one more part: what is stored and owed, put together. */
  lemma PartsJoined(os: seq<Out>, more: seq<Out>, mem: Memory, held: multiset<Id>, now: Memory, held': multiset<Id>,
      buffers: multiset<string>, a: multiset<Id>, b: multiset<string>)
    requires Owes(mem, held, now, held', buffers, a + RefsIn(os) + RefsIn(more), b + BufsIn(os) + BufsIn(more))
    ensures Owes(mem, held, now, held', buffers, a + RefsIn(os + more), b + BufsIn(os + more))
  {
    hide Owes, RefsIn, BufsIn;
    RefsAppend(os, more);
    BagAssoc(a, RefsIn(os), RefsIn(more));
    BagAssoc(b, BufsIn(os), BufsIn(more));
  }

  lemma AllRefsLive(rd: Readers, mem: Memory, ids: seq<Id>, ts: seq<Tree>)
    requires |ids| == |ts| && ItemReads(rd, mem, ids, ts).Ok?
    ensures AllLive(mem, RefsIn(ItemReads(rd, mem, ids, ts).value))
  {
    hide IsLive, ItemReads, RefsIn;
    forall x | x in RefsIn(ItemReads(rd, mem, ids, ts).value) ensures IsLive(mem, x) { ItemRefsLive(rd, mem, ids, ts, x); }
  }

  /** The loop of parsearray() over the items, and the release of those done when one
      fails. */
  method DecomposeItems(store: ValueStore, caller: Caller, rd: Readers, arr: Id, items: seq<Tree>, ghost mem: Memory,
      ghost held: multiset<Id>, ghost a: multiset<Id>, ghost b: multiset<string>) returns (fault: Option<FaultCode>)
    requires store.Valid() && NoneDying(mem) && IsArray(mem, arr) && |items| <= |mem[arr].body.items|
    requires forall x :: x in items ==> KindsOk(x)
    requires var ids := mem[arr].body.items[..|items|];
      ItemReads(rd, mem, ids, items).Ok? || Kept(ItemWrites(rd, mem, ids, items))
    requires Owes(mem, held, store.mem, store.held, caller.buffers, a, b)
    modifies store, caller
    ensures store.Valid()
    ensures var ids := mem[arr].body.items[..|items|];
      Decomposed(ItemReads(rd, mem, ids, items), ItemWrites(rd, mem, ids, items), fault, old(caller.slots), caller.slots, mem, held,
                 store.mem, store.held, caller.buffers, a, b)
    decreases items, 3
  {
    hide Sound, NoneDying, KindsOk, Owes, Reads, Writes, RefsIn, BufsIn, Holds, Kept, ItemReads, ItemWrites, StoreAll, AllLive,
      Filled, ItemRefsAt, ItemBufsAt, ItemsSize, Size;
    ghost var ids, slots0 := mem[arr].body.items[..|items|], caller.slots;
    ghost var os, more: seq<Out> := [], [];
    var doneCnt := 0;
    fault := None;
    NothingRead(rd, mem, ids[..0], items[..0], caller.slots);
    BagNothing(a);
    BagNothing(b);
    while doneCnt < |items| && fault.None?
      invariant doneCnt <= |items| && store.Valid()
      invariant ItemReads(rd, mem, ids[..doneCnt], items[..doneCnt]) == Ok(os)
      invariant caller.slots == StoreAll(slots0, os + more)
      invariant Owes(mem, held, store.mem, store.held, caller.buffers, a + RefsIn(os), b + BufsIn(os))
      invariant fault.None? ==> more == []
      invariant fault.Some? ==> ItemReads(rd, mem, ids, items) == Fault(fault.value) && ItemWrites(rd, mem, ids, items) == os + more
      decreases |items| - doneCnt, fault.None?
    {
      assert items[doneCnt] in items && os + [] == os;
      ItemsStep(rd, mem, ids, items, doneCnt);
      var item := TakeItem(store, arr, doneCnt, mem, held, caller.buffers, a + RefsIn(os), b + BufsIn(os));
      ghost var r, ws := Reads(rd, mem, item, items[doneCnt]), Writes(rd, mem, item, items[doneCnt]);
      if r.Fault? {
        ItemsFaultStays(rd, mem, ids, items, doneCnt + 1);
        ItemWritesStay(rd, mem, ids, items, doneCnt);
        KeptParts(slots0, os, ws);
      }
      fault := DecomposePart(store, caller, rd, item, items[doneCnt], mem, held, a + RefsIn(os), b + BufsIn(os));
      StoreAppend(slots0, os, ws);
      if fault.None? {
        PartsJoined(os, ws, mem, held, store.mem, store.held, caller.buffers, a, b);
        os := os + ws;
        doneCnt := doneCnt + 1;
        assert os + [] == os;
      } else {
        more := ws;
      }
    }
    if fault.Some? {
      KeptParts(slots0, os, more);
      ItemsAccount(rd, mem, ids[..doneCnt], items[..doneCnt], caller.slots);
      AllRefsLive(rd, mem, ids[..doneCnt], items[..doneCnt]);
      ReleaseItems(store, caller, items[..doneCnt], mem, held, a, b);
    } else {
      assert ids[..doneCnt] == ids && items[..doneCnt] == items && os + [] == os;
      ItemWritesRead(rd, mem, ids, items);
    }
  }

  lemma NothingRead(rd: Readers, mem: Memory, ids: seq<Id>, ts: seq<Tree>, slots: map<nat, Content>)
    requires ids == [] && ts == []
    ensures ItemReads(rd, mem, ids, ts) == Ok([]) && StoreAll(slots, [] + []) == slots
    ensures RefsIn([]) == multiset{} && BufsIn([]) == multiset{}
  {}

  lemma {:induction false} MembersFaultStays(rd: Readers, mem: Memory, id: Id, ms: seq<Mbr>, n: nat)
    requires n <= |ms| && MemberReads(rd, mem, id, ms[..n]).Fault?
    ensures MemberReads(rd, mem, id, ms) == MemberReads(rd, mem, id, ms[..n])
    decreases |ms|
  {
    hide Reads, Lookup;
    if n == |ms| {
      assert ms[..n] == ms;
    } else {
      var last := |ms| - 1;
      assert ms[..last][..n] == ms[..n];
      MembersFaultStays(rd, mem, id, ms[..last], n);
    }
  }

  lemma MembersStep(rd: Readers, mem: Memory, id: Id, ms: seq<Mbr>, n: nat)
    requires n < |ms|
    ensures var x := Lookup(mem, id, ms[n].key);
      MemberReads(rd, mem, id, ms[..n + 1])
        == Then(MemberReads(rd, mem, id, ms[..n]), if x.None? then Fault(IndexError) else Reads(rd, mem, x.value, ms[n].tree))
  {
    hide Reads, Then, Lookup;
    assert ms[..n + 1][..n] == ms[..n];
  }

  /** With a fault at the `n`th member, nothing is stored for the members after it. */
  lemma {:induction false} MemberWritesStay(rd: Readers, mem: Memory, id: Id, ms: seq<Mbr>, n: nat)
    requires n < |ms| && MemberReads(rd, mem, id, ms[..n]).Ok?
    requires var x := Lookup(mem, id, ms[n].key); x.Some? ==> Reads(rd, mem, x.value, ms[n].tree).Fault?
    ensures var x := Lookup(mem, id, ms[n].key);
      MemberWrites(rd, mem, id, ms)
        == MemberReads(rd, mem, id, ms[..n]).value + if x.None? then [] else Writes(rd, mem, x.value, ms[n].tree)
    decreases |ms|
  {
    hide Reads, Writes, MemberReads, Lookup;
    var last := |ms| - 1;
    if n < last {
      assert ms[..last][..n] == ms[..n];
      MemberWritesStay(rd, mem, id, ms[..last], n);
      MembersStep(rd, mem, id, ms[..last], n);
      MembersFaultStays(rd, mem, id, ms[..last], n + 1);
    } else {
      var os := MemberReads(rd, mem, id, ms[..n]).value;
      assert os + [] == os;
    }
  }

  lemma AllMemberRefsLive(rd: Readers, mem: Memory, id: Id, ms: seq<Mbr>)
    requires MemberReads(rd, mem, id, ms).Ok?
    ensures AllLive(mem, RefsIn(MemberReads(rd, mem, id, ms).value))
  {
    hide IsLive, MemberReads, RefsIn;
    forall x | x in RefsIn(MemberReads(rd, mem, id, ms).value) ensures IsLive(mem, x) { MemberRefsLive(rd, mem, id, ms, x); }
  }

  lemma NoMembersRead(rd: Readers, mem: Memory, id: Id, ms: seq<Mbr>, slots: map<nat, Content>)
    requires ms == []
    ensures MemberReads(rd, mem, id, ms) == Ok([]) && StoreAll(slots, [] + []) == slots
    ensures RefsIn([]) == multiset{} && BufsIn([]) == multiset{}
  {}

  lemma TreesFilled(slots: map<nat, Content>, ms: seq<Mbr>)
    requires forall m :: m in ms ==> KindsOk(m.tree) && Filled(slots, m.tree)
    ensures AllFilled(slots, Trees(ms))
  {
    forall x | x in Trees(ms) ensures KindsOk(x) && Filled(slots, x) {
      var i :| 0 <= i < |ms| && Trees(ms)[i] == x;
      assert ms[i] in ms;
    }
  }

  /** parsestruct() */
  method DecomposeMembers(store: ValueStore, caller: Caller, rd: Readers, struct: Id, members: seq<Mbr>, ghost mem: Memory,
      ghost held: multiset<Id>, ghost a: multiset<Id>, ghost b: multiset<string>) returns (fault: Option<FaultCode>)
    requires store.Valid() && NoneDying(mem) && IsStruct(mem, struct)
    requires forall m :: m in members ==> KindsOk(m.tree)
    requires MemberReads(rd, mem, struct, members).Ok? || Kept(MemberWrites(rd, mem, struct, members))
    requires Owes(mem, held, store.mem, store.held, caller.buffers, a, b)
    modifies store, caller
    ensures store.Valid()
    ensures Decomposed(MemberReads(rd, mem, struct, members), MemberWrites(rd, mem, struct, members), fault, old(caller.slots),
                       caller.slots, mem, held, store.mem, store.held, caller.buffers, a, b)
    decreases members, 3
  {
    hide Sound, NoneDying, KindsOk, Owes, Reads, Writes, RefsIn, BufsIn, Holds, Kept, MemberReads, MemberWrites, StoreAll, AllLive,
      Filled, ItemRefsAt, ItemBufsAt, MemberRefsAt, MemberBufsAt, ItemsSize, Size, Lookup, AllFilled;
    ghost var slots0 := caller.slots;
    ghost var os, more: seq<Out> := [], [];
    var doneCount := 0;
    fault := None;
    NoMembersRead(rd, mem, struct, members[..0], caller.slots);
    BagNothing(a);
    BagNothing(b);
    while doneCount < |members| && fault.None?
      invariant doneCount <= |members| && store.Valid()
      invariant MemberReads(rd, mem, struct, members[..doneCount]) == Ok(os)
      invariant caller.slots == StoreAll(slots0, os + more)
      invariant Owes(mem, held, store.mem, store.held, caller.buffers, a + RefsIn(os), b + BufsIn(os))
      invariant fault.None? ==> more == []
      invariant fault.Some? ==>
                  MemberReads(rd, mem, struct, members) == Fault(fault.value) && MemberWrites(rd, mem, struct, members) == os + more
      decreases |members| - doneCount, fault.None?
    {
      var m := members[doneCount];
      assert m in members && os + [] == os;
      MembersStep(rd, mem, struct, members, doneCount);
      var value := TakeMember(store, struct, m.key, mem, held, caller.buffers, a + RefsIn(os), b + BufsIn(os));
      if value.None? {
        fault := Some(IndexError);
        MembersFaultStays(rd, mem, struct, members, doneCount + 1);
        MemberWritesStay(rd, mem, struct, members, doneCount);
      } else {
        ghost var r, ws := Reads(rd, mem, value.value, m.tree), Writes(rd, mem, value.value, m.tree);
        if r.Fault? {
          MembersFaultStays(rd, mem, struct, members, doneCount + 1);
          MemberWritesStay(rd, mem, struct, members, doneCount);
          KeptParts(slots0, os, ws);
        }
        fault := DecomposePart(store, caller, rd, value.value, m.tree, mem, held, a + RefsIn(os), b + BufsIn(os));
        StoreAppend(slots0, os, ws);
        if fault.None? {
          PartsJoined(os, ws, mem, held, store.mem, store.held, caller.buffers, a, b);
          os := os + ws;
          doneCount := doneCount + 1;
          assert os + [] == os;
        } else {
          more := ws;
        }
      }
    }
    if fault.Some? {
      var done := members[..doneCount];
      KeptParts(slots0, os, more);
      MembersAccount(rd, mem, struct, done, caller.slots);
      AllMemberRefsLive(rd, mem, struct, done);
      MembersAsItems(caller.slots, done);
      TreesFilled(caller.slots, done);
      ReleaseItems(store, caller, Trees(done), mem, held, a, b);
    } else {
      assert members[..doneCount] == members && os + [] == os;
      MemberWritesRead(rd, mem, struct, members);
    }
  }

  lemma ReadsCases(rd: Readers, mem: Memory, id: Id, t: Tree)
    requires IsLive(mem, id)
    ensures var body, r := mem[id].body, Reads(rd, mem, id, t);
      && (t.Ignored? ==> r == Ok([]))
      && (t.NilLeaf? ==> r == if body.Leaf? && body.v.Nil? then Ok([]) else Fault(TypeError))
      && (t.ArrayOf? ==>
            r == if !body.ArrayBody? then Fault(TypeError)
                 else if |t.items| > |body.items| || (|t.items| < |body.items| && !t.ignoreExcess) then Fault(IndexError)
                 else ItemReads(rd, mem, body.items[..|t.items|], t.items))
      && (t.StructOf? ==> r == if !body.StructBody? then Fault(TypeError) else MemberReads(rd, mem, id, t.members))
  {
    hide ItemReads, MemberReads;
  }

  /** validateArraySize(): every item of the tree has its place in the array, and every
      place its item unless the excess is ignored. */
  method ValidateArraySize(size: nat, itemCnt: nat, ignoreExcess: bool) returns (fault: Option<FaultCode>)
    ensures fault in {None, Some(IndexError)}
    ensures fault == None <==> itemCnt <= size && (itemCnt == size || ignoreExcess)
  {
    if itemCnt > size { fault := Some(IndexError); }
    else if itemCnt < size && !ignoreExcess { fault := Some(IndexError); }
    else { fault := None; }
  }

  /** decomposeValueWithTree() */
  method DecomposeValueWithTree(store: ValueStore, caller: Caller, rd: Readers, id: Id, t: Tree, ghost mem: Memory,
      ghost held: multiset<Id>, ghost a: multiset<Id>, ghost b: multiset<string>) returns (fault: Option<FaultCode>)
    requires store.Valid() && KindsOk(t) && IsLive(mem, id) && NoneDying(mem)
    requires Reads(rd, mem, id, t).Ok? || Kept(Writes(rd, mem, id, t))
    requires Owes(mem, held, store.mem, store.held, caller.buffers, a, b)
    modifies store, caller
    ensures store.Valid()
    ensures Decomposed(Reads(rd, mem, id, t), Writes(rd, mem, id, t), fault, old(caller.slots), caller.slots, mem, held, store.mem,
                       store.held, caller.buffers, a, b)
    decreases t, 1
  {
    hide Sound, NoneDying, Owes, Reads, Writes, RefsIn, BufsIn, Kept, ItemReads, MemberReads, ItemWrites, MemberWrites, StoreAll;
    BodyOf(mem, held, store.mem, store.held, caller.buffers, a, b, id);
    ReadsCases(rd, mem, id, t);
    WritesCases(rd, mem, id, t);
    NothingDecomposed(Fault(TypeError), caller.slots, mem, held, store.mem, store.held, caller.buffers, a, b);
    NothingDecomposed(Fault(IndexError), caller.slots, mem, held, store.mem, store.held, caller.buffers, a, b);
    NothingDecomposed(Ok([]), caller.slots, mem, held, store.mem, store.held, caller.buffers, a, b);
    fault := None;
    match t {
      case Ignored =>
      case NilLeaf => if !(store.mem[id].body.Leaf? && store.mem[id].body.v.Nil?) { fault := Some(TypeError); }
      case Leaf(_, _) => fault := DecomposeLeaf(store, caller, rd, id, t, mem, held, a, b);
      case Sized(_, _, _) => fault := DecomposeText(store, caller, rd, id, t, mem, held, a, b);
      case Bytes(_, _) => fault := DecomposeText(store, caller, rd, id, t, mem, held, a, b);
      case ArrayOf(items, ignoreExcess) =>
        if !store.mem[id].body.ArrayBody? { return Some(TypeError); }
        fault := ValidateArraySize(|store.mem[id].body.items|, |items|, ignoreExcess);
        if fault.None? { fault := DecomposeItems(store, caller, rd, id, items, mem, held, a, b); }
      case StructOf(members) =>
        if !store.mem[id].body.StructBody? { return Some(TypeError); }
        fault := DecomposeMembers(store, caller, rd, id, members, mem, held, a, b);
    }
  }

  /** xmlrpc_decompose_value(): the format is compiled and the value decomposed along it.
      On success exactly what the leaves call for is held in addition and stored in the
      caller's variables, in order. Whatever fails, at any depth, the references and the
      memory held are exactly as before, provided the variables still hold all that was
      handed out until then (Kept), which is so whenever no variable that receives
      something is named again (NotOverwrittenKeeps); that this is needed, module Rollback
      shows. No other variable is written. */
  method DecomposeValue(store: ValueStore, caller: Caller, rd: Readers, id: Id, format: string, args: seq<Arg>)
    returns (fault: Option<FaultCode>)
    requires store.Valid() && IsLive(store.mem, id)
    requires var tree := Compile(format, args);
      tree.Some? ==> Reads(rd, store.mem, id, tree.value).Ok? || Kept(Writes(rd, store.mem, id, tree.value))
    modifies store, caller
    ensures store.Valid()
    ensures var tree := Compile(format, args);
      var r := if tree.None? then Fault(InternalError) else Reads(rd, old(store.mem), id, tree.value);
      var ws := if tree.None? then [] else Writes(rd, old(store.mem), id, tree.value);
      && caller.slots == StoreAll(old(caller.slots), ws)
      && Frame(old(caller.slots), caller.slots, if tree.None? then [] else Places(tree.value))
      && (if r.Fault? then
            && fault == Some(r.code) && store.mem == old(store.mem) && store.held == old(store.held)
            && caller.buffers == old(caller.buffers)
          else
            && fault == None && ws == r.value
            && store.mem == Raised(old(store.mem), RefsIn(ws)) && store.held == old(store.held) + RefsIn(ws)
            && caller.buffers == old(caller.buffers) + BufsIn(ws))
  {
    hide HeldCount, HashKey, Conserved, StructsOk, Reads, Writes, RefsIn, BufsIn, Kept, Frame, Places, ParseTree, KindsOk, Raised, StoreAll;
    NoPlaces();
    NothingStoredAt(caller.slots);
    StoredFrame(caller.slots, [], []);
    var compiler := new Compiler(format, args);
    var tree := compiler.CreateDecompTree();
    if tree.None? { return Some(InternalError); }
    CompiledKinds(format, args);
    ghost var mem, held, b := store.mem, store.held, caller.buffers;
    RaiseNothing(mem);
    BagNothing(held);
    assert Owes(mem, held, store.mem, store.held, caller.buffers, multiset{}, b);
    WritesAlong(rd, mem, id, tree.value);
    StoredFrame(caller.slots, Writes(rd, mem, id, tree.value), Places(tree.value));
    fault := DecomposeValueWithTree(store, caller, rd, id, tree.value, mem, held, multiset{}, b);
    assert forall s: multiset<Id> :: multiset{} + s == s;
  }

  lemma NothingStoredAt(slots: map<nat, Content>)
    ensures StoreAll(slots, []) == slots
  {}

  lemma CompiledKinds(format: string, args: seq<Arg>)
    requires Compile(format, args).Some?
    ensures KindsOk(Compile(format, args).value)
  {
    ParsedKinds(format, args);
  }

  lemma {:induction false} ParsedKinds(format: string, args: seq<Arg>)
    ensures var p := ParseTree(format, args); p.Done? ==> KindsOk(p.tree)
    decreases |format|, 1
  {
    hide ParseItems, ParseMembers;
    if Peek(format) == '(' { ItemsKinds(format[1..], args, []); }
    if Peek(format) == '{' { MembersKinds(format[1..], args, []); }
  }

  lemma {:induction false} ItemsKinds(format: string, args: seq<Arg>, done: seq<Tree>)
    requires forall x :: x in done ==> KindsOk(x)
    ensures var p := ParseItems(format, args, done); p.Done? ==> KindsOk(p.tree)
    decreases |format|, 2
  {
    hide ParseTree;
    ItemsCases(format, args, done);
    if Peek(format) !in {'\0', ')', '*'} && |done| < MAX_ITEMS {
      ParsedKinds(format, args);
      var q := ParseTree(format, args);
      if q.Done? { ItemsKinds(q.format, q.args, done + [q.tree]); }
    }
  }

  lemma {:induction false} MembersKinds(format: string, args: seq<Arg>, done: seq<Mbr>)
    requires forall m :: m in done ==> KindsOk(m.tree)
    ensures var p := ParseMembers(format, args, done); p.Done? ==> KindsOk(p.tree)
    decreases |format|, 2
  {
    hide ParseTree;
    MembersCases(format, args, done);
    if Peek(format) !in {'\0', '}', '*'} && |done| < MAX_ITEMS && OneMember(format, args).Some? {
      ParsedKinds(format[2..], args[1..]);
      var (m, f, a) := OneMember(format, args).value;
      MembersKinds(f, a, done + [m]);
    }
  }
}
