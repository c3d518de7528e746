/** When the rollback of a decomposition that fails is right. It looks into the caller's
variables for what was handed out, and finds there what was stored last: it gives back
what was taken exactly when no variable with something to give back was stored to again. */
module Rollback {
  import opened Text
  import opened Values
  import opened Cells
  import opened Structs
  import opened ValueStores
  import opened Formats
  import opened Decompose
  import Decomposer

  // ---------------------------------------------------------------------
  // The branches that are finished at a fault

  datatype Branch = Branch(id: Id, tree: Tree)

  function Ids(bs: seq<Branch>): (ids: seq<Id>)
    ensures |ids| == |bs| && forall i :: 0 <= i < |bs| ==> ids[i] == bs[i].id
  {
    seq(|bs|, i requires 0 <= i < |bs| => bs[i].id)
  }

  function BranchTrees(bs: seq<Branch>): (ts: seq<Tree>)
    ensures |ts| == |bs| && forall i :: 0 <= i < |bs| ==> ts[i] == bs[i].tree
  {
    seq(|bs|, i requires 0 <= i < |bs| => bs[i].tree)
  }

  function ItemBranches(ids: seq<Id>, ts: seq<Tree>): (bs: seq<Branch>)
    requires |ids| == |ts|
    ensures Ids(bs) == ids && BranchTrees(bs) == ts
  {
    seq(|ts|, i requires 0 <= i < |ts| => Branch(ids[i], ts[i]))
  }

  /** The values of the members with the keys of `ms`; 0 stands for one that is not there. */
  function MemberIds(mem: Memory, id: Id, ms: seq<Mbr>): (ids: seq<Id>)
    ensures |ids| == |ms|
  {
    seq(|ms|, i requires 0 <= i < |ms| => match Lookup(mem, id, ms[i].key) case None => 0 case Some(value) => value)
  }

  /** The branches that are finished when decomposing `id` along `t` ends: the whole tree,
      or on a fault those that the rollback, level by level, releases. */
  function Finished(rd: Readers, mem: Memory, id: Id, t: Tree): seq<Branch>
    decreases t, 0
  {
    if Reads(rd, mem, id, t).Ok? then [Branch(id, t)]
    else if IsLive(mem, id) && t.ArrayOf? && SizeFits(mem[id].body, t) then
      FinishedItems(rd, mem, mem[id].body.items[..|t.items|], t.items)
    else if IsLive(mem, id) && t.StructOf? && mem[id].body.StructBody? then FinishedMembers(rd, mem, id, t.members)
    else []
  }

  function FinishedItems(rd: Readers, mem: Memory, ids: seq<Id>, ts: seq<Tree>): seq<Branch>
    requires |ids| == |ts|
    decreases ts, 0
  {
    if ts == [] then []
    else
      var n := |ts| - 1;
      if ItemReads(rd, mem, ids[..n], ts[..n]).Fault? then FinishedItems(rd, mem, ids[..n], ts[..n])
      else ItemBranches(ids[..n], ts[..n]) + Finished(rd, mem, ids[n], ts[n])
  }

  function FinishedMembers(rd: Readers, mem: Memory, id: Id, ms: seq<Mbr>): seq<Branch>
    decreases ms, 0
  {
    if ms == [] then []
    else
      var n := |ms| - 1;
      if MemberReads(rd, mem, id, ms[..n]).Fault? then FinishedMembers(rd, mem, id, ms[..n])
      else
        ItemBranches(MemberIds(mem, id, ms[..n]), Trees(ms[..n]))
        + match Lookup(mem, id, ms[n].key)
          case None => []
          case Some(value) => Finished(rd, mem, value, ms[n].tree)
  }

  /** What the finished branches read, one after the other. */
  function BranchReads(rd: Readers, mem: Memory, bs: seq<Branch>): Result<seq<Out>> {
    ItemReads(rd, mem, Ids(bs), BranchTrees(bs))
  }

  lemma {:induction false} ItemReadsAppend(rd: Readers, mem: Memory, ids: seq<Id>, ts: seq<Tree>, ids': seq<Id>, ts': seq<Tree>)
    requires |ids| == |ts| && |ids'| == |ts'|
    ensures ItemReads(rd, mem, ids + ids', ts + ts') == Then(ItemReads(rd, mem, ids, ts), ItemReads(rd, mem, ids', ts'))
    decreases |ts'|
  {
    hide Reads;
    var a := ItemReads(rd, mem, ids, ts);
    if ts' == [] {
      assert ids + ids' == ids && ts + ts' == ts;
      if a.Ok? { assert a.value + [] == a.value; }
    } else {
      var n := |ts'| - 1;
      ItemReadsAppend(rd, mem, ids, ts, ids'[..n], ts'[..n]);
      assert (ids + ids')[..|ids| + n] == ids + ids'[..n] && (ts + ts')[..|ts| + n] == ts + ts'[..n];
      var b, c := ItemReads(rd, mem, ids'[..n], ts'[..n]), Reads(rd, mem, ids'[n], ts'[n]);
      if a.Ok? && b.Ok? && c.Ok? { assert (a.value + b.value) + c.value == a.value + (b.value + c.value); }
    }
  }

  lemma BranchesAppend(rd: Readers, mem: Memory, a: seq<Branch>, b: seq<Branch>)
    ensures BranchReads(rd, mem, a + b) == Then(BranchReads(rd, mem, a), BranchReads(rd, mem, b))
  {
    hide ItemReads, Then, Ids, BranchTrees;
    ItemReadsAppend(rd, mem, Ids(a), BranchTrees(a), Ids(b), BranchTrees(b));
    PartsAppend(a, b);
  }

  lemma PartsAppend(a: seq<Branch>, b: seq<Branch>)
    ensures Ids(a + b) == Ids(a) + Ids(b) && BranchTrees(a + b) == BranchTrees(a) + BranchTrees(b)
  {}

  lemma OneBranch(rd: Readers, mem: Memory, b: Branch)
    ensures BranchReads(rd, mem, []) == Ok([]) && BranchReads(rd, mem, [b]) == Reads(rd, mem, b.id, b.tree)
  {
    hide Reads;
    assert Ids([b]) == [b.id] && BranchTrees([b]) == [b.tree];
    var r := Reads(rd, mem, b.id, b.tree);
    if r.Ok? { assert [] + r.value == r.value; }
  }

  /** Struct members are read as items are. */
  lemma {:induction false} MembersReadAsItems(rd: Readers, mem: Memory, id: Id, ms: seq<Mbr>)
    requires MemberReads(rd, mem, id, ms).Ok?
    ensures ItemReads(rd, mem, MemberIds(mem, id, ms), Trees(ms)) == MemberReads(rd, mem, id, ms)
    decreases |ms|
  {
    hide Reads, Lookup;
    if ms != [] {
      var n := |ms| - 1;
      MembersReadAsItems(rd, mem, id, ms[..n]);
      assert Trees(ms)[..n] == Trees(ms[..n]) && MemberIds(mem, id, ms)[..n] == MemberIds(mem, id, ms[..n]);
    }
  }

  lemma {:induction false} MemberPlacesAsItems(ms: seq<Mbr>)
    ensures MemberPlaces(ms) == ItemPlaces(Trees(ms))
    decreases |ms|
  {
    hide Places;
    if ms != [] {
      var n := |ms| - 1;
      MemberPlacesAsItems(ms[..n]);
      assert Trees(ms)[..n] == Trees(ms[..n]);
    }
  }

  ghost predicate AllKindsOk(ts: seq<Tree>) { forall x :: x in ts ==> KindsOk(x) }

  lemma KindsAppend(a: seq<Branch>, b: seq<Branch>)
    requires AllKindsOk(BranchTrees(a)) && AllKindsOk(BranchTrees(b))
    ensures AllKindsOk(BranchTrees(a + b))
  {
    hide KindsOk;
    PartsAppend(a, b);
  }

  lemma KindsOfMembers(ms: seq<Mbr>)
    requires forall m :: m in ms ==> KindsOk(m.tree)
    ensures AllKindsOk(Trees(ms))
  {
    hide KindsOk;
    forall x | x in Trees(ms) ensures KindsOk(x) {
      var i :| 0 <= i < |ms| && Trees(ms)[i] == x;
      assert ms[i] in ms;
    }
  }

  /** All that is stored until the end or the fault was stored for finished branches. */
  lemma {:induction false} FinishedReads(rd: Readers, mem: Memory, id: Id, t: Tree)
    requires KindsOk(t)
    ensures var bs := Finished(rd, mem, id, t);
      BranchReads(rd, mem, bs) == Ok(Writes(rd, mem, id, t)) && AllKindsOk(BranchTrees(bs))
    decreases t, 0
  {
    hide Reads, ItemReads, MemberReads, ItemWrites, MemberWrites, FinishedItems, FinishedMembers, BranchReads, Lookup;
    OneBranch(rd, mem, Branch(id, t));
    if Reads(rd, mem, id, t).Ok? {
      assert BranchTrees([Branch(id, t)]) == [t];
    } else if IsLive(mem, id) && t.ArrayOf? && SizeFits(mem[id].body, t) {
      FinishedItemsRead(rd, mem, mem[id].body.items[..|t.items|], t.items);
    } else if IsLive(mem, id) && t.StructOf? && mem[id].body.StructBody? {
      FinishedMembersRead(rd, mem, id, t.members);
    }
  }

  lemma {:induction false} FinishedItemsRead(rd: Readers, mem: Memory, ids: seq<Id>, ts: seq<Tree>)
    requires |ids| == |ts| && AllKindsOk(ts)
    ensures var bs := FinishedItems(rd, mem, ids, ts);
      BranchReads(rd, mem, bs) == Ok(ItemWrites(rd, mem, ids, ts)) && AllKindsOk(BranchTrees(bs))
    decreases ts, 0
  {
    hide Reads, ItemReads, Writes, KindsOk;
    if ts == [] {
      OneBranch(rd, mem, Branch(0, Ignored));
    } else {
      var n := |ts| - 1;
      assert ts[n] in ts;
      if ItemReads(rd, mem, ids[..n], ts[..n]).Fault? {
        FinishedItemsRead(rd, mem, ids[..n], ts[..n]);
      } else {
        FinishedReads(rd, mem, ids[n], ts[n]);
        BranchesAppend(rd, mem, ItemBranches(ids[..n], ts[..n]), Finished(rd, mem, ids[n], ts[n]));
        KindsAppend(ItemBranches(ids[..n], ts[..n]), Finished(rd, mem, ids[n], ts[n]));
      }
    }
  }

  lemma {:induction false} FinishedMembersRead(rd: Readers, mem: Memory, id: Id, ms: seq<Mbr>)
    requires forall m :: m in ms ==> KindsOk(m.tree)
    ensures var bs := FinishedMembers(rd, mem, id, ms);
      BranchReads(rd, mem, bs) == Ok(MemberWrites(rd, mem, id, ms)) && AllKindsOk(BranchTrees(bs))
    decreases ms, 0
  {
    hide Reads, ItemReads, MemberReads, Writes, KindsOk, Lookup;
    OneBranch(rd, mem, Branch(0, Ignored));
    if ms != [] {
      var n := |ms| - 1;
      assert ms[n] in ms;
      if MemberReads(rd, mem, id, ms[..n]).Fault? {
        FinishedMembersRead(rd, mem, id, ms[..n]);
      } else {
        var first, value := ItemBranches(MemberIds(mem, id, ms[..n]), Trees(ms[..n])), Lookup(mem, id, ms[n].key);
        MembersReadAsItems(rd, mem, id, ms[..n]);
        KindsOfMembers(ms[..n]);
        if value.None? {
          assert first + [] == first;
        } else {
          FinishedReads(rd, mem, value.value, ms[n].tree);
          BranchesAppend(rd, mem, first, Finished(rd, mem, value.value, ms[n].tree));
          KindsAppend(first, Finished(rd, mem, value.value, ms[n].tree));
        }
      }
    }
  }

  // ---------------------------------------------------------------------
  // What the rollback finds

  /** A reference or a buffer that releasing the variables of a tree gives back. */
  ghost predicate GivenBack(refs: multiset<Id>, bufs: multiset<string>, c: Content) {
    (c.Reference? && c.id in refs) || (c.Buffer? && c.text in bufs)
  }

  /** It sits in a variable that the tree names for such things. */
  lemma {:induction false} GivenBackFrom(slots: map<nat, Content>, t: Tree, c: Content) returns (p: Place)
    requires KindsOk(t) && GivenBack(RefsAt(slots, t), BufsAt(slots, t), c)
    ensures p in Places(t) && p.owned && SlotOf(slots, p.loc) == c
    decreases t, 0
  {
    hide ItemRefsAt, MemberRefsAt, ItemBufsAt, MemberBufsAt, ItemPlaces, MemberPlaces;
    match t
    case ArrayOf(items, _) => p := ItemGivenBackFrom(slots, items, c);
    case StructOf(members) =>
      KindsOfMembers(members);
      Decomposer.MembersAsItems(slots, members);
      MemberPlacesAsItems(members);
      p := MemberGivenBackFrom(slots, members, c);
    case Leaf(kind, loc) => p := Place(loc, true);
    case Sized(_, loc, _) => p := Place(loc, true);
    case Bytes(loc, _) => p := Place(loc, true);
    case _ => assert false;
  }

  lemma {:induction false} ItemGivenBackFrom(slots: map<nat, Content>, ts: seq<Tree>, c: Content) returns (p: Place)
    requires AllKindsOk(ts) && GivenBack(ItemRefsAt(slots, ts), ItemBufsAt(slots, ts), c)
    ensures p in ItemPlaces(ts) && p.owned && SlotOf(slots, p.loc) == c
    decreases ts, 0
  {
    hide RefsAt, BufsAt, Places, KindsOk;
    if ts == [] {
      assert false;
    } else {
      var n := |ts| - 1;
      assert ts == ts[..n] + [ts[n]] && ts[n] in ts;
      ItemsAtSnoc(slots, ts[..n], ts[n]);
      if GivenBack(RefsAt(slots, ts[n]), BufsAt(slots, ts[n]), c) {
        p := GivenBackFrom(slots, ts[n], c);
      } else {
        p := ItemGivenBackFrom(slots, ts[..n], c);
      }
    }
  }

  lemma {:induction false} MemberGivenBackFrom(slots: map<nat, Content>, ms: seq<Mbr>, c: Content) returns (p: Place)
    requires forall m :: m in ms ==> KindsOk(m.tree)
    requires GivenBack(MemberRefsAt(slots, ms), MemberBufsAt(slots, ms), c)
    ensures p in MemberPlaces(ms) && p.owned && SlotOf(slots, p.loc) == c
    decreases ms, 0
  {
    hide RefsAt, BufsAt, Places, KindsOk;
    if ms == [] {
      assert false;
    } else {
      var n := |ms| - 1;
      assert ms == ms[..n] + [ms[n]] && ms[n] in ms;
      MembersAtSnoc(slots, ms[..n], ms[n]);
      if GivenBack(RefsAt(slots, ms[n].tree), BufsAt(slots, ms[n].tree), c) {
        p := GivenBackFrom(slots, ms[n].tree, c);
      } else {
        p := MemberGivenBackFrom(slots, ms[..n], c);
      }
    }
  }

  lemma {:induction false} LastWriter(slots: map<nat, Content>, os: seq<Out>, loc: nat) returns (k: nat)
    requires exists i :: 0 <= i < |os| && os[i].loc == loc
    ensures k < |os| && os[k].loc == loc && SlotOf(StoreAll(slots, os), loc) == os[k].content
    ensures forall j :: k < j < |os| ==> os[j].loc != loc
    decreases |os|
  {
    var n := |os| - 1;
    if os[n].loc == loc { k := n; } else { k := LastWriter(slots, os[..n], loc); }
  }

  lemma {:induction false} TakenIsIn(os: seq<Out>, i: nat)
    requires i < |os| && Owned(os[i].content)
    ensures GivenBack(RefsIn(os), BufsIn(os), os[i].content)
    decreases |os|
  {
    var n := |os| - 1;
    if i < n { TakenIsIn(os[..n], i); }
  }

  // ---------------------------------------------------------------------
  // Exactly when the rollback is right

  /** Releasing the variables of `ts` gives back what was taken, no more and no less. */
  ghost predicate Balanced(now: map<nat, Content>, ts: seq<Tree>, taken: seq<Out>) {
    ItemRefsAt(now, ts) == RefsIn(taken) && ItemBufsAt(now, ts) == BufsIn(taken)
  }

  /** No reference and no text was taken twice. */
  ghost predicate Different(os: seq<Out>) {
    forall i, j :: 0 <= i < j < |os| && Owned(os[i].content) && Owned(os[j].content) ==> os[i].content != os[j].content
  }

  /** What is overwritten is never given back. */
  lemma OverwrittenIsLost(rd: Readers, mem: Memory, ids: seq<Id>, ts: seq<Tree>, slots: map<nat, Content>, i: nat, j: nat)
    requires |ids| == |ts| && AllKindsOk(ts) && ItemReads(rd, mem, ids, ts).Ok? && Different(ItemReads(rd, mem, ids, ts).value)
    requires var os := ItemReads(rd, mem, ids, ts).value; i < j < |os| && os[i].loc == os[j].loc && Owned(os[i].content)
    ensures var os := ItemReads(rd, mem, ids, ts).value; !Balanced(StoreAll(slots, os), ts, os)
  {
    hide ItemReads, ItemRefsAt, ItemBufsAt, ItemPlaces, RefsIn, BufsIn, StoreAll, KindsOk;
    var os := ItemReads(rd, mem, ids, ts).value;
    var now := StoreAll(slots, os);
    TakenIsIn(os, i);
    if Balanced(now, ts, os) {
      var p := ItemGivenBackFrom(now, ts, os[i].content);
      ItemsAlong(rd, mem, ids, ts);
      var m :| 0 <= m < |os| && PlacesOf(os)[m] == p;
      assert os[m].loc == p.loc;
      var k := LastWriter(slots, os, p.loc);
      assert false;
    }
  }

  /** For every list of items that reads the values `ids`: the release of all items from
      the caller's variables gives back exactly what was taken if and only if no variable
      that receives something to give back is named again after that. */
  lemma RollbackExact(rd: Readers, mem: Memory, ids: seq<Id>, ts: seq<Tree>, slots: map<nat, Content>)
    requires |ids| == |ts| && AllKindsOk(ts) && ItemReads(rd, mem, ids, ts).Ok? && Different(ItemReads(rd, mem, ids, ts).value)
    ensures var os := ItemReads(rd, mem, ids, ts).value;
      (Balanced(StoreAll(slots, os), ts, os) <==> NotOverwritten(ItemPlaces(ts))) && (Kept(os) <==> NotOverwritten(ItemPlaces(ts)))
  {
    hide ItemReads, ItemRefsAt, ItemBufsAt, ItemPlaces, RefsIn, BufsIn, StoreAll, KindsOk, Different, Filled, Balanced, Kept;
    var os := ItemReads(rd, mem, ids, ts).value;
    ItemsAlong(rd, mem, ids, ts);
    if NotOverwritten(PlacesOf(os)) { NotOverwrittenIsKept(os); }
    if Kept(os) { KeptIsBalanced(rd, mem, ids, ts, slots); }
    if !NotOverwritten(PlacesOf(os)) {
      var i, j :| 0 <= i < j < |os| && PlacesOf(os)[i].owned && PlacesOf(os)[i].loc == PlacesOf(os)[j].loc;
      OverwrittenIsLost(rd, mem, ids, ts, slots, i, j);
    }
  }

  lemma KeptIsBalanced(rd: Readers, mem: Memory, ids: seq<Id>, ts: seq<Tree>, slots: map<nat, Content>)
    requires |ids| == |ts| && AllKindsOk(ts) && ItemReads(rd, mem, ids, ts).Ok? && Kept(ItemReads(rd, mem, ids, ts).value)
    ensures var os := ItemReads(rd, mem, ids, ts).value; Balanced(StoreAll(slots, os), ts, os)
  {
    hide ItemReads, ItemRefsAt, ItemBufsAt, RefsIn, BufsIn, StoreAll, KindsOk, Filled, Holds, Kept;
    var os := ItemReads(rd, mem, ids, ts).value;
    assert os + [] == os;
    KeptParts(slots, os, []);
    ItemsAccount(rd, mem, ids, ts, StoreAll(slots, os));
  }

  /** The same for the members of a struct. */
  lemma MemberRollbackExact(rd: Readers, mem: Memory, id: Id, ms: seq<Mbr>, slots: map<nat, Content>)
    requires forall m :: m in ms ==> KindsOk(m.tree)
    requires MemberReads(rd, mem, id, ms).Ok? && Different(MemberReads(rd, mem, id, ms).value)
    ensures var os := MemberReads(rd, mem, id, ms).value;
      var now := StoreAll(slots, os);
      MemberRefsAt(now, ms) == RefsIn(os) && MemberBufsAt(now, ms) == BufsIn(os) <==> NotOverwritten(MemberPlaces(ms))
  {
    hide ItemReads, MemberReads, ItemRefsAt, ItemBufsAt, MemberRefsAt, MemberBufsAt, ItemPlaces, MemberPlaces, RefsIn, BufsIn,
      StoreAll, KindsOk, Different, NotOverwritten;
    KindsOfMembers(ms);
    MembersReadAsItems(rd, mem, id, ms);
    MemberPlacesAsItems(ms);
    Decomposer.MembersAsItems(StoreAll(slots, MemberReads(rd, mem, id, ms).value), ms);
    RollbackExact(rd, mem, MemberIds(mem, id, ms), Trees(ms), slots);
  }

  /** For every tree and every value, wherever the decomposition fails: the rollback at all
      levels together gives back exactly what was taken if and only if, until the fault, no
      variable with something to give back was stored to again; and that is when the
      variables still hold all of it. */
  lemma FaultRollbackExact(rd: Readers, mem: Memory, id: Id, t: Tree, slots: map<nat, Content>)
    requires KindsOk(t) && Different(Writes(rd, mem, id, t))
    ensures var ws := Writes(rd, mem, id, t);
      && (Balanced(StoreAll(slots, ws), BranchTrees(Finished(rd, mem, id, t)), ws) <==> NotOverwritten(PlacesOf(ws)))
      && (Kept(ws) <==> NotOverwritten(PlacesOf(ws)))
  {
    hide Writes, Finished, ItemReads, StoreAll, KindsOk, Different, Balanced, Kept, NotOverwritten;
    var bs := Finished(rd, mem, id, t);
    FinishedReads(rd, mem, id, t);
    RollbackExact(rd, mem, Ids(bs), BranchTrees(bs), slots);
    ItemsAlong(rd, mem, Ids(bs), BranchTrees(bs));
  }

  // ---------------------------------------------------------------------
  // A variable named twice

  /** `(VVi)` with the same variable twice, against an array whose third item is no
      integer. */
  function TwiceNamed(loc: nat, loc': nat): Tree { ArrayOf([Tree.Leaf('V', loc), Tree.Leaf('V', loc), Tree.Leaf('i', loc')], false) }

  lemma TwiceNamedCompiles(loc: nat, loc': nat)
    ensures Compile("(VVi)", [Loc(loc), Loc(loc), Loc(loc')]) == Some(TwiceNamed(loc, loc'))
  {
    var a, v, i := [Loc(loc), Loc(loc), Loc(loc')], Tree.Leaf('V', loc), Tree.Leaf('i', loc');
    assert a[1..] == [Loc(loc), Loc(loc')] && a[1..][1..] == [Loc(loc')] && a[1..][1..][1..] == [];
    assert "(VVi)"[1..] == "VVi)" && "VVi)"[1..] == "Vi)" && "Vi)"[1..] == "i)" && "i)"[1..] == ")" && ")"[1..] == "";
    assert [] + [v] == [v] && [v] + [v] == [v, v] && [v, v] + [i] == [v, v, i];
    assert ParseItems("i)", [Loc(loc')], [v, v]) == ParseItems(")", [], [v, v, i]);
    assert ParseItems("Vi)", a[1..], [v]) == ParseItems("i)", [Loc(loc')], [v, v]);
    assert ParseItems("VVi)", a, []) == ParseItems("Vi)", a[1..], [v]);
  }

  lemma TwiceNamedFails(rd: Readers, mem: Memory, arr: Id, x: Id, y: Id, s: Id, loc: nat, loc': nat)
    requires IsArray(mem, arr) && mem[arr].body.items == [x, y, s] && IsLive(mem, x) && IsLive(mem, y) && IsLive(mem, s)
    requires !(mem[s].body.Leaf? && mem[s].body.v.Int?)
    ensures var t, v := TwiceNamed(loc, loc'), Tree.Leaf('V', loc);
      && Reads(rd, mem, arr, t) == Fault(TypeError)
      && Writes(rd, mem, arr, t) == [Out(loc, Reference(x)), Out(loc, Reference(y))]
      && BranchTrees(Finished(rd, mem, arr, t)) == [v, v]
  {
    var t, v, i := TwiceNamed(loc, loc'), Tree.Leaf('V', loc), Tree.Leaf('i', loc');
    var o, o' := Out(loc, Reference(x)), Out(loc, Reference(y));
    var ids, ts := [x, y, s], [v, v, i];
    assert ids[..2] == [x, y] && ts[..2] == [v, v] && [v, v][..1] == [v] && [x, y][..1] == [x] && [v][..0] == [] && [x][..0] == [];
    assert Reads(rd, mem, x, v) == Ok([o]) && Reads(rd, mem, y, v) == Ok([o']) && Reads(rd, mem, s, i) == Fault(TypeError);
    hide Reads, Writes, Finished, ItemReads, ItemWrites, FinishedItems;
    TwoReads(rd, mem, [x, y], [v, v], o, o');
    ThirdFails(rd, mem, ids, ts);
    assert mem[arr].body.items[..3] == ids;
    LeafFails(rd, mem, s, i);
    ArrayCase(rd, mem, arr, t);
    assert [o, o'] + [] == [o, o'];
    PartsAppend(ItemBranches([x, y], [v, v]), []);
  }

  lemma TwoReads(rd: Readers, mem: Memory, ids: seq<Id>, ts: seq<Tree>, o: Out, o': Out)
    requires |ids| == |ts| == 2 && Reads(rd, mem, ids[0], ts[0]) == Ok([o]) && Reads(rd, mem, ids[1], ts[1]) == Ok([o'])
    ensures ItemReads(rd, mem, ids, ts) == Ok([o, o'])
  {
    hide Reads;
    assert ItemReads(rd, mem, ids[..1][..0], ts[..1][..0]) == Ok([]) && [] + [o] == [o];
    assert ItemReads(rd, mem, ids[..1], ts[..1]) == Ok([o]);
    assert [o] + [o'] == [o, o'];
  }

  lemma ThirdFails(rd: Readers, mem: Memory, ids: seq<Id>, ts: seq<Tree>)
    requires |ids| == |ts| == 3 && ItemReads(rd, mem, ids[..2], ts[..2]).Ok? && Reads(rd, mem, ids[2], ts[2]).Fault?
    ensures ItemReads(rd, mem, ids, ts) == Fault(Reads(rd, mem, ids[2], ts[2]).code)
    ensures ItemWrites(rd, mem, ids, ts) == ItemReads(rd, mem, ids[..2], ts[..2]).value + Writes(rd, mem, ids[2], ts[2])
    ensures FinishedItems(rd, mem, ids, ts) == ItemBranches(ids[..2], ts[..2]) + Finished(rd, mem, ids[2], ts[2])
  {
    hide Reads, Writes, Finished;
  }

  lemma LeafFails(rd: Readers, mem: Memory, id: Id, t: Tree)
    requires t.Leaf? && Reads(rd, mem, id, t).Fault?
    ensures Writes(rd, mem, id, t) == [] && Finished(rd, mem, id, t) == []
  {
    hide Reads;
  }

  lemma ArrayCase(rd: Readers, mem: Memory, arr: Id, t: Tree)
    requires IsArray(mem, arr) && t.ArrayOf? && |t.items| == |mem[arr].body.items|
    requires ItemReads(rd, mem, mem[arr].body.items[..|t.items|], t.items).Fault?
    ensures var ids := mem[arr].body.items[..|t.items|];
      && Reads(rd, mem, arr, t) == ItemReads(rd, mem, ids, t.items) && Writes(rd, mem, arr, t) == ItemWrites(rd, mem, ids, t.items)
      && Finished(rd, mem, arr, t) == FinishedItems(rd, mem, ids, t.items)
  {
    hide ItemReads, ItemWrites, FinishedItems;
  }

  lemma TwoTaken(o: Out, o': Out)
    ensures RefsIn([o, o']) == RefOf(o.content) + RefOf(o'.content) && BufsIn([o, o']) == BufOf(o.content) + BufOf(o'.content)
  {
    hide RefsIn, BufsIn;
    RefsOne(o);
    RefsSnoc([o], o');
    assert [o] + [o'] == [o, o'];
  }

  lemma TwoAt(now: map<nat, Content>, v: Tree)
    ensures ItemRefsAt(now, [v, v]) == RefsAt(now, v) + RefsAt(now, v) && ItemBufsAt(now, [v, v]) == BufsAt(now, v) + BufsAt(now, v)
  {
    hide RefsAt, BufsAt, ItemRefsAt, ItemBufsAt;
    NothingStored(now);
    assert [] + [v] == [v] && [v] + [v] == [v, v];
    ItemsAtSnoc(now, [], v);
    ItemsAtSnoc(now, [v], v);
  }

  lemma TwoStored(slots: map<nat, Content>, loc: nat, x: Id, y: Id)
    ensures var os, v := [Out(loc, Reference(x)), Out(loc, Reference(y))], Tree.Leaf('V', loc);
      && RefsIn(os) == multiset{x, y} && ItemRefsAt(StoreAll(slots, os), [v, v]) == multiset{y, y}
      && BufsIn(os) == ItemBufsAt(StoreAll(slots, os), [v, v]) == multiset{}
  {
    hide RefsIn, BufsIn, ItemRefsAt, ItemBufsAt;
    var os, v := [Out(loc, Reference(x)), Out(loc, Reference(y))], Tree.Leaf('V', loc);
    TwoTaken(os[0], os[1]);
    TwoAt(StoreAll(slots, os), v);
  }

  /** It fails at the third item with both others stored, and the rollback, which looks
      into the variable twice, gives back the second value twice and the first never: it is
      right if and only if they are the same value. */
  lemma AliasedRollback(rd: Readers, mem: Memory, arr: Id, x: Id, y: Id, s: Id, loc: nat, loc': nat, slots: map<nat, Content>)
    requires IsArray(mem, arr) && mem[arr].body.items == [x, y, s] && IsLive(mem, x) && IsLive(mem, y) && IsLive(mem, s)
    requires !(mem[s].body.Leaf? && mem[s].body.v.Int?)
    ensures var t := TwiceNamed(loc, loc');
      var ws, branches := Writes(rd, mem, arr, t), BranchTrees(Finished(rd, mem, arr, t));
      var now := StoreAll(slots, ws);
      && Compile("(VVi)", [Loc(loc), Loc(loc), Loc(loc')]) == Some(t) && Reads(rd, mem, arr, t) == Fault(TypeError)
      && RefsIn(ws) == multiset{x, y} && ItemRefsAt(now, branches) == multiset{y, y}
      && (Balanced(now, branches, ws) <==> x == y)
  {
    hide Compile, Reads, Writes, Finished, ItemRefsAt, ItemBufsAt, RefsIn, BufsIn, StoreAll;
    var t := TwiceNamed(loc, loc');
    TwiceNamedCompiles(loc, loc');
    TwiceNamedFails(rd, mem, arr, x, y, s, loc, loc');
    TwoStored(slots, loc, x, y);
    if x != y {
      FaultRollbackExact(rd, mem, arr, t, slots);
      var places := PlacesOf(Writes(rd, mem, arr, t));
      assert places[0] == places[1] == Place(loc, true);
    }
  }
}
