/** Formats that ignore items: what they read of a value is what the same format without
the ignored items reads of the part that is left. */
module Excess {
  import opened Text
  import opened Values
  import opened JsonLexer
  import opened Formats
  import opened Decompose
  import opened Build
  import opened Rebuild

  /** The tree without what it ignores. */
  function Wanted(t: Tree): Tree
    decreases t, 0
  {
    match t
    case ArrayOf(items, _) => ArrayOf(WantedItems(items), false)
    case StructOf(members) => StructOf(WantedMembers(members))
    case _ => t
  }

  function WantedItems(ts: seq<Tree>): seq<Tree>
    decreases ts, 0
  {
    if ts == [] then []
    else if ts[0].Ignored? then WantedItems(ts[1..])
    else [Wanted(ts[0])] + WantedItems(ts[1..])
  }

  function WantedMembers(ms: seq<Mbr>): seq<Mbr>
    decreases ms, 0
  {
    if ms == [] then []
    else if ms[0].tree.Ignored? then WantedMembers(ms[1..])
    else [ms[0].(tree := Wanted(ms[0].tree))] + WantedMembers(ms[1..])
  }

  /** The part of the value that the tree names: of an array the first items, as many as
      the tree has, without the ignored ones; of a struct the members named. */
  function Part(v: Value, t: Tree): Value
    decreases t, 0
  {
    match t
    case ArrayOf(items, _) => if v.Array? && |items| <= |v.items| then Array(PartItems(v.items[..|items|], items)) else v
    case StructOf(members) => if v.Struct? then Struct(PartMembers(v.members, members)) else v
    case _ => v
  }

  function PartItems(vs: seq<Value>, ts: seq<Tree>): seq<Value>
    requires |vs| == |ts|
    decreases ts, 0
  {
    if ts == [] then []
    else if ts[0].Ignored? then PartItems(vs[1..], ts[1..])
    else [Part(vs[0], ts[0])] + PartItems(vs[1..], ts[1..])
  }

  function PartMembers(all: seq<Member>, ms: seq<Mbr>): seq<Member>
    decreases ms, 0
  {
    if ms == [] then []
    else if ms[0].tree.Ignored? then PartMembers(all, ms[1..])
    else
      var v := ValueAt(all, ms[0].key);
      [Member(ms[0].key, if v.Some? then Part(v.value, ms[0].tree) else Nil)] + PartMembers(all, ms[1..])
  }

  /** A tree that names all there is, of the same kind. */
  ghost predicate Good(t: Tree) { KindsOk(t) && KeysOk(t) && Complete(t) }

  /** For every tree and value: when decomposing succeeds, the same list is stored from the
      part that the tree names, along the tree without what it ignores. */
  lemma {:induction false} PartIsRead(rd: Readers, v: Value, t: Tree)
    requires KindsOk(t) && KeysOk(t) && !t.Ignored? && ReadsV(rd, v, t).Ok?
    ensures Good(Wanted(t)) && Selected(Part(v, t), Wanted(t)) == Part(v, t)
    ensures ReadsV(rd, Part(v, t), Wanted(t)) == ReadsV(rd, v, t)
    decreases t, 1
  {
    hide ItemReadsV, MemberReadsV, WantedItems, WantedMembers, PartItems, PartMembers, SelectedItems, SelectedMembers, ReadText, LeafV;
    match t
    case ArrayOf(items, _) =>
      PartItemsRead(rd, v.items[..|items|], items);
      var vs := PartItems(v.items[..|items|], items);
      assert vs[..|vs|] == vs;
    case StructOf(members) =>
      PartMembersRead(rd, v.members, members, []);
      var some := PartMembers(v.members, members);
      assert [] + some == some;
    case _ =>
  }

  lemma {:induction false} PartItemsRead(rd: Readers, vs: seq<Value>, ts: seq<Tree>)
    requires |vs| == |ts| && (forall x :: x in ts ==> KindsOk(x) && KeysOk(x)) && ItemReadsV(rd, vs, ts).Ok?
    ensures var ps, ks := PartItems(vs, ts), WantedItems(ts);
      && |ps| == |ks| && (forall x :: x in ks ==> Good(x)) && SelectedItems(ps, ks) == ps
      && ItemReadsV(rd, ps, ks) == ItemReadsV(rd, vs, ts)
    decreases ts, 0
  {
    hide ReadsV, KindsOk, KeysOk, Good, Wanted, Part, Selected, ItemReadsV;
    if ts != [] {
      HeadAndTail(ts);
      assert [vs[0]] + vs[1..] == vs && [ts[0]] + ts[1..] == ts;
      ItemsCons(rd, vs[0], vs[1..], ts[0], ts[1..]);
      PartItemsRead(rd, vs[1..], ts[1..]);
      if ts[0].Ignored? {
        IgnoredFirst(rd, vs[0], ts[0], ItemReadsV(rd, vs[1..], ts[1..]));
      } else {
        PartIsRead(rd, vs[0], ts[0]);
        var ps, ks := PartItems(vs[1..], ts[1..]), WantedItems(ts[1..]);
        ItemsCons(rd, Part(vs[0], ts[0]), ps, Wanted(ts[0]), ks);
        HeadTail([Wanted(ts[0])] + ks, Wanted(ts[0]), ks);
        HeadTail([Part(vs[0], ts[0])] + ps, Part(vs[0], ts[0]), ps);
      }
    }
  }

  /** Nothing is stored for what is ignored. */
  lemma IgnoredFirst(rd: Readers, v: Value, t: Tree, r: Result<seq<OutV>>)
    requires t.Ignored?
    ensures ThenV(ReadsV(rd, v, t), r) == r
  {
    if r.Ok? { assert [] + r.value == r.value; }
  }

  lemma {:induction false} ValueAfter(before: seq<Member>, key: string, v: Value, after: seq<Member>)
    requires forall d :: d in before ==> d.key != key
    ensures ValueAt(before + ([Member(key, v)] + after), key) == Some(v)
  {
    var all := before + ([Member(key, v)] + after);
    assert forall j :: 0 <= j < |before| ==> all[j] == before[j] && before[j] in before;
    assert all[|before|] == Member(key, v);
    ValueAtIndex(all, |before|);
  }

  lemma {:induction false} PartMembersRead(rd: Readers, all: seq<Member>, ms: seq<Mbr>, before: seq<Member>)
    requires (forall m :: m in ms ==> KindsOk(m.tree) && KeyOk(m.key) && KeysOk(m.tree)) && MemberReadsV(rd, all, ms).Ok?
    requires forall i, j :: 0 <= i < j < |ms| ==> ms[i].key != ms[j].key
    requires forall d, m :: d in before && m in ms ==> d.key != m.key
    ensures var ps, ks := PartMembers(all, ms), WantedMembers(ms);
      && WantedFrom(ks, ms)
      && SelectedMembers(before + ps, ks) == ps
      && MemberReadsV(rd, before + ps, ks) == MemberReadsV(rd, all, ms)
    decreases ms, 0
  {
    hide ReadsV, KindsOk, KeysOk, KeyOk, Good, Wanted, Part, Selected, MemberReadsV, ValueAt, WantedFrom, ThenV;
    if ms == [] {
      NoMembersRead(rd, all);
      NoMembersRead(rd, before + PartMembers(all, ms));
      NoneWanted();
    } else {
      var m := ms[0];
      HeadAndTail(ms);
      MembersCons(rd, all, ms);
      ThenOk(if ValueAt(all, m.key).None? then Fault(IndexError) else ReadsV(rd, ValueAt(all, m.key).value, m.tree), MemberReadsV(rd, all, ms[1..]));
      var v := ValueAt(all, m.key).value;
      KeysApart(before, ms, Part(v, m.tree));
      if m.tree.Ignored? {
        PartMembersRead(rd, all, ms[1..], before);
        IgnoredFirst(rd, v, m.tree, MemberReadsV(rd, all, ms[1..]));
        WantedSkips(WantedMembers(ms[1..]), ms);
      } else {
        var p := Member(m.key, Part(v, m.tree));
        PartIsRead(rd, v, m.tree);
        PartMembersRead(rd, all, ms[1..], before + [p]);
        var ps, ks := PartMembers(all, ms[1..]), WantedMembers(ms[1..]);
        Assoc(before, [p], ps);
        ValueAfter(before, m.key, p.value, ps);
        var k := m.(tree := Wanted(m.tree));
        HeadTail([k] + ks, k, ks);
        MembersCons(rd, before + ([p] + ps), [k] + ks);
        WantedJoins(ks, ms, Wanted(m.tree));
      }
    }
  }

  lemma ThenOk(a: Result<seq<OutV>>, b: Result<seq<OutV>>)
    requires ThenV(a, b).Ok?
    ensures a.Ok? && b.Ok?
  {}

  /** What is wanted of the members of a struct is good, and its keys are among theirs. */
  ghost predicate WantedFrom(ks: seq<Mbr>, ms: seq<Mbr>) {
    && (forall k :: k in ks ==> KeyOk(k.key) && Good(k.tree) && exists m :: m in ms && m.key == k.key)
    && forall i, j :: 0 <= i < j < |ks| ==> ks[i].key != ks[j].key
  }

  lemma NoneWanted()
    ensures WantedFrom([], [])
  {}

  lemma WantedSkips(ks: seq<Mbr>, ms: seq<Mbr>)
    requires ms != [] && WantedFrom(ks, ms[1..])
    ensures WantedFrom(ks, ms)
  {
    hide Good, KeyOk;
  }

  lemma WantedJoins(ks: seq<Mbr>, ms: seq<Mbr>, t: Tree)
    requires ms != [] && WantedFrom(ks, ms[1..]) && KeyOk(ms[0].key) && Good(t)
    requires forall i, j :: 0 <= i < j < |ms| ==> ms[i].key != ms[j].key
    ensures WantedFrom([ms[0].(tree := t)] + ks, ms)
  {
    hide Good, KeyOk;
    assert forall k :: k in ks ==> k.key != ms[0].key;
  }

  /** For every value and every tree, whatever it ignores: when decomposing succeeds,
      building from the format of what is wanted and the list that was stored gives the part
      of the value that the tree names, if and only if that can be made again. */
  lemma PartIsRebuilt(mk: Makers, rd: Readers, v: Value, t: Tree, k: string, rest: seq<OutV>, more: seq<Given>)
    requires KindsOk(t) && KeysOk(t) && !t.Ignored? && Peek(k) != '#' && ReadsV(rd, v, t).Ok?
    ensures var (g, left) := GivenFrom(Wanted(t), ReadsV(rd, v, t).value + rest);
      && left == rest
      && Rebuilds(BuildValue(mk, BuildK(Wanted(t), k), g + more), Part(v, t), k, more, Remade(mk, rd, Part(v, t), Wanted(t)))
  {
    hide ReadsV, Rebuilds, Remade, BuildValue, GivenFrom, Selected, BuildK, KindsOk, KeysOk, Complete, Wanted, Part;
    PartIsRead(rd, v, t);
    BuildUndoesDecompose(mk, rd, Part(v, t), Wanted(t), k, rest, more);
  }
}
