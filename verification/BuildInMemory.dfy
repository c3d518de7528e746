/** Decomposing a value in memory stores what decomposing the tree it denotes stores. */
module BuildInMemory {
  import opened Text
  import opened Values
  import opened Cells
  import opened Structs
  import opened ValueStores
  import opened Formats
  import opened Decompose
  import opened Build
  import opened Sharing

  /** The same is stored at the same place; a reference stands for what it refers to. */
  ghost predicate Same(mem: Memory, o: Out, v: OutV) {
    && o.loc == v.loc
    && match v.stored
       case PlainV(x) => o.content == Plain(x)
       case TextV(text) => o.content == Buffer(text)
       case CountV(n) => o.content == Count(n)
       case WholeV(x) => o.content.Reference? && Denotes(mem, o.content.id, x)
  }

  ghost predicate AllSame(mem: Memory, r: Result<seq<Out>>, rv: Result<seq<OutV>>) {
    if rv.Fault? then r == Fault(rv.code)
    else r.Ok? && |r.value| == |rv.value| && forall i :: 0 <= i < |r.value| ==> Same(mem, r.value[i], rv.value[i])
  }

  lemma ThenSame(mem: Memory, a: Result<seq<Out>>, b: Result<seq<Out>>, av: Result<seq<OutV>>, bv: Result<seq<OutV>>)
    requires AllSame(mem, a, av) && AllSame(mem, b, bv)
    ensures AllSame(mem, Then(a, b), ThenV(av, bv))
  {
    hide Same;
  }

  lemma LookupSame(mem: Memory, id: Id, v: Value, key: string)
    requires Denotes(mem, id, v) && v.Struct?
    ensures var x, w := Lookup(mem, id, key), ValueAt(v.members, key);
      (x.Some? <==> w.Some?) && (x.Some? ==> Denotes(mem, x.value, w.value))
  {
    hide FindKey;
    var members := mem[id].body.members;
    assert AllStrings(mem, members);
    match FindKey(mem, members, key)
    case Some(i) =>
      assert v.members[i].key == key;
      ValueAtIndex(v.members, i);
    case None => NotThere(v.members, key);
  }

  lemma LeafSame(rd: Readers, mem: Memory, id: Id, v: Value, t: Tree)
    requires Denotes(mem, id, v) && !t.ArrayOf? && !t.StructOf?
    ensures AllSame(mem, Reads(rd, mem, id, t), ReadsV(rd, v, t))
  {
    hide ReadText, ReadPlain;
  }

  lemma {:induction false} ReadsSame(rd: Readers, mem: Memory, id: Id, v: Value, t: Tree)
    requires Denotes(mem, id, v)
    ensures AllSame(mem, Reads(rd, mem, id, t), ReadsV(rd, v, t))
    decreases t, 0
  {
    hide ItemReads, MemberReads, ItemReadsV, MemberReadsV, AllSame;
    match t
    case ArrayOf(items, ignoreExcess) =>
      FaultsSame(mem);
      if v.Array? && |items| <= |v.items| {
        ItemsSame(rd, mem, mem[id].body.items[..|items|], v.items[..|items|], items);
      }
    case StructOf(members) =>
      FaultsSame(mem);
      if v.Struct? { MembersSame(rd, mem, id, v, members); }
    case _ => LeafSame(rd, mem, id, v, t);
  }

  lemma FaultsSame(mem: Memory)
    ensures forall c :: AllSame(mem, Fault(c), Fault(c))
    ensures AllSame(mem, Ok([]), Ok([]))
  {}

  lemma {:induction false} ItemsSame(rd: Readers, mem: Memory, ids: seq<Id>, vs: seq<Value>, ts: seq<Tree>)
    requires |ids| == |vs| == |ts| && forall i :: 0 <= i < |ids| ==> Denotes(mem, ids[i], vs[i])
    ensures AllSame(mem, ItemReads(rd, mem, ids, ts), ItemReadsV(rd, vs, ts))
    decreases ts, 0
  {
    hide Reads, ReadsV, AllSame, Denotes, Then, ThenV;
    FaultsSame(mem);
    if ts != [] {
      var n := |ts| - 1;
      ItemsSame(rd, mem, ids[..n], vs[..n], ts[..n]);
      ReadsSame(rd, mem, ids[n], vs[n], ts[n]);
      ThenSame(mem, ItemReads(rd, mem, ids[..n], ts[..n]), Reads(rd, mem, ids[n], ts[n]),
        ItemReadsV(rd, vs[..n], ts[..n]), ReadsV(rd, vs[n], ts[n]));
    }
  }

  lemma {:induction false} MembersSame(rd: Readers, mem: Memory, id: Id, v: Value, ms: seq<Mbr>)
    requires Denotes(mem, id, v) && v.Struct?
    ensures AllSame(mem, MemberReads(rd, mem, id, ms), MemberReadsV(rd, v.members, ms))
    decreases ms, 0
  {
    hide Reads, ReadsV, AllSame, Denotes, Then, ThenV, Lookup, ValueAt;
    FaultsSame(mem);
    if ms != [] {
      var n := |ms| - 1;
      MembersSame(rd, mem, id, v, ms[..n]);
      LookupSame(mem, id, v, ms[n].key);
      var x, w := Lookup(mem, id, ms[n].key), ValueAt(v.members, ms[n].key);
      if x.Some? { ReadsSame(rd, mem, x.value, w.value, ms[n].tree); }
      ThenSame(mem, MemberReads(rd, mem, id, ms[..n]), if x.None? then Fault(IndexError) else Reads(rd, mem, x.value, ms[n].tree),
        MemberReadsV(rd, v.members, ms[..n]), if w.None? then Fault(IndexError) else ReadsV(rd, w.value, ms[n].tree));
    }
  }

  /** A value in memory that was built from a tree's format and an argument list: taking
      it apart along the tree that the format compiles to stores that list, if each
      argument reads back. */
  lemma BuiltThenDecomposed(mk: Makers, rd: Readers, t: Tree, args: seq<Given>, mem: Memory, id: Id)
    requires KindsOk(t) && Fits(t) && KeysOk(t) && Taken(mk, t, args).Some?
    ensures BuildAll(mk, BuildK(t, ""), args).Ok?
    ensures Compile(PrintK(t, ""), ArgsK(t, [])) == Some(t)
    ensures ReadBack(mk, rd, t, args) && Denotes(mem, id, BuildAll(mk, BuildK(t, ""), args).value) ==>
              AllSame(mem, Reads(rd, mem, id, t), Ok(Taken(mk, t, args).value.0))
  {
    hide ParseTree, BuildValue, KindsOk, Fits, KeysOk, Taken, Denotes, AllSame, Reads, ReadsV, ReadBack;
    TreeRoundTrip(t, "", []);
    DecomposeUndoesBuild(mk, rd, t, "", args);
    var v := BuildAll(mk, BuildK(t, ""), args).value;
    if Denotes(mem, id, v) { ReadsSame(rd, mem, id, v, t); }
  }
}
