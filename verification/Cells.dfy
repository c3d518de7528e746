/** The reference-counted values of xmlrpc-c/src/xmlrpc_data.c, with the arrays of
xmlrpc_array.c and the structs of xmlrpc_struct.c.

The memory that holds xmlrpc_value objects is a sequence of cells; the index of a
cell stands for a pointer to it, and a freed cell is never used again. */
module Cells {
  import opened Text
  import opened Values

  type Id = nat

  /** A struct member: the hash of its key text, its key and its value. */
  datatype MemberRec = MemberRec(hash: nat, key: Id, value: Id)

  datatype Body =
    | Leaf(v: Scalar)
    | ArrayBody(items: seq<Id>)
    | StructBody(members: seq<MemberRec>)

  /** A count of zero marks a value whose contents are being released. */
  datatype Cell = Live(refcount: nat, body: Body) | Freed

  type Memory = seq<Cell>

  function MemberRefs(members: seq<MemberRec>): (refs: seq<Id>)
    ensures |refs| == 2 * |members|
    ensures forall i :: 0 <= i < |members| ==> refs[2 * i] == members[i].key && refs[2 * i + 1] == members[i].value
  {
    if members == [] then []
    else
      var last := members[|members| - 1];
      MemberRefs(members[..|members| - 1]) + [last.key, last.value]
  }

  /** The references a value holds, in the order its destruction releases them. */
  function Refs(body: Body): seq<Id> {
    match body
    case Leaf(_) => []
    case ArrayBody(items) => items
    case StructBody(members) => MemberRefs(members)
  }

  function CellRefs(c: Cell): seq<Id> {
    if c.Live? && c.refcount > 0 then Refs(c.body) else []
  }

  function CellCount(c: Cell): nat { if c.Live? then c.refcount else 0 }

  function CountAt(mem: Memory, id: Id): nat { if id < |mem| then CellCount(mem[id]) else 0 }

  predicate IsLive(mem: Memory, id: Id)
    ensures IsLive(mem, id) ==> id < |mem| && mem[id].Live? && mem[id].refcount > 0
  {
    CountAt(mem, id) > 0
  }

  /** How many slots of live containers hold `id`. */
  function HeldCount(mem: Memory, id: Id): nat {
    if mem == [] then 0
    else HeldCount(mem[..|mem| - 1], id) + multiset(CellRefs(mem[|mem| - 1]))[id]
  }

  /** The law of reference counting: the count of every value is the number of
      container slots that hold it plus the number of references held outside, and
      nothing holds a value that has been freed. */
  ghost predicate Conserved(mem: Memory, held: multiset<Id>) {
    forall id: Id :: HeldCount(mem, id) + held[id] == CountAt(mem, id)
  }

  ghost predicate NoneDying(mem: Memory) {
    forall i :: 0 <= i < |mem| && mem[i].Live? ==> mem[i].refcount > 0
  }

  lemma {:induction false} HeldUpdate(mem: Memory, i: Id, c: Cell, id: Id)
    requires i < |mem|
    ensures HeldCount(mem[i := c], id) + multiset(CellRefs(mem[i]))[id]
              == HeldCount(mem, id) + multiset(CellRefs(c))[id]
  {
    hide CellRefs;
    var n := |mem| - 1;
    assert mem[i := c][n] == if i == n then c else mem[n];
    if i == n {
      assert mem[i := c][..n] == mem[..n];
    } else {
      HeldUpdate(mem[..n], i, c, id);
      assert mem[i := c][..n] == mem[..n][i := c];
    }
  }

  lemma HeldAppend(mem: Memory, c: Cell, id: Id)
    ensures HeldCount(mem + [c], id) == HeldCount(mem, id) + multiset(CellRefs(c))[id]
  {
    assert (mem + [c])[..|mem|] == mem;
  }

  /** A value held by a slot is counted, and what is counted is held by a slot. */
  lemma {:induction false} HeldBySlot(mem: Memory, p: Id, id: Id)
    requires p < |mem| && id in CellRefs(mem[p])
    ensures HeldCount(mem, id) > 0
  {
    if p == |mem| - 1 {
      assert id in multiset(CellRefs(mem[p]));
    } else {
      HeldBySlot(mem[..|mem| - 1], p, id);
    }
  }

  lemma {:induction false} SlotOfHeld(mem: Memory, id: Id) returns (p: Id)
    requires HeldCount(mem, id) > 0
    ensures p < |mem| && id in CellRefs(mem[p])
  {
    p := |mem| - 1;
    if multiset(CellRefs(mem[p]))[id] == 0 {
      p := SlotOfHeld(mem[..p], id);
    } else {
      assert id in multiset(CellRefs(mem[p]));
    }
  }

  lemma HeldIsLive(mem: Memory, held: multiset<Id>, p: Id, id: Id)
    requires Conserved(mem, held) && p < |mem| && id in CellRefs(mem[p])
    ensures IsLive(mem, id)
  {
    HeldBySlot(mem, p, id);
    assert HeldCount(mem, id) + held[id] == CountAt(mem, id);
  }

  // ---------------------------------------------------------------------
  // DECREF and the cascade it may start

  function Total(mem: Memory): nat {
    if mem == [] then 0 else Total(mem[..|mem| - 1]) + CellCount(mem[|mem| - 1])
  }

  lemma {:induction false} TotalUpdate(mem: Memory, i: Id, c: Cell)
    requires i < |mem|
    ensures Total(mem[i := c]) + CellCount(mem[i]) == Total(mem) + CellCount(c)
  {
    var n := |mem| - 1;
    if i == n {
      assert mem[i := c][..n] == mem[..n];
    } else {
      TotalUpdate(mem[..n], i, c);
      assert mem[i := c][..n] == mem[..n][i := c];
    }
  }

  /** One reference to `id` released: the cell's new content and the references
      that are released with it. */
  function Released(c: Cell): (r: (Cell, seq<Id>))
    requires c.Live? && c.refcount > 0
    ensures CellCount(r.0) == c.refcount - 1
    ensures multiset(CellRefs(r.0)) + multiset(r.1) == multiset(CellRefs(c))
  {
    if c.refcount > 1 then (Live(c.refcount - 1, c.body), []) else (Freed, Refs(c.body))
  }

  /** Release the references `ids` in order; a value whose last reference goes is
      freed, and then the references it held are released. The total of all counts
      bounds the cascade. */
  function Drop(mem: Memory, ids: seq<Id>): (mem': Memory)
    ensures |mem'| == |mem|
    decreases Total(mem), |ids|
  {
    if ids == [] then mem
    else if !IsLive(mem, ids[0]) then Drop(mem, ids[1..])
    else
      var id := ids[0];
      var (c, more) := Released(mem[id]);
      TotalUpdate(mem, id, c);
      Drop(mem[id := c], more + ids[1..])
  }

  lemma DropLive(mem: Memory, ids: seq<Id>)
    requires ids != [] && IsLive(mem, ids[0])
    ensures var (c, more) := Released(mem[ids[0]]);
      Drop(mem, ids) == Drop(mem[ids[0] := c], more + ids[1..]) && Total(mem[ids[0] := c]) < Total(mem)
  {
    hide Released, Total;
    TotalUpdate(mem, ids[0], Released(mem[ids[0]]).0);
  }

  lemma DropDead(mem: Memory, ids: seq<Id>)
    requires ids != [] && !IsLive(mem, ids[0])
    ensures Drop(mem, ids) == Drop(mem, ids[1..])
  {}

  lemma TailThen<T>(more: seq<T>, a: seq<T>, b: seq<T>)
    requires a != []
    ensures (a + b)[1..] == a[1..] + b && (a + b)[0] == a[0]
    ensures more + (a[1..] + b) == (more + a[1..]) + b
  {}

  lemma DropNothing(mem: Memory, b: seq<Id>)
    ensures Drop(mem, []) == mem && [] + b == b
  {}

  lemma {:induction false} DropThen(mem: Memory, a: seq<Id>, b: seq<Id>)
    ensures Drop(mem, a + b) == Drop(Drop(mem, a), b)
    decreases Total(mem), |a|
  {
    hide Drop, Released, Total, IsLive;
    DropNothing(mem, b);
    if a != [] {
      TailThen([], a, b);
      if !IsLive(mem, a[0]) {
        DropDead(mem, a);
        DropDead(mem, a + b);
        DropThen(mem, a[1..], b);
      } else {
        DropLive(mem, a);
        DropLive(mem, a + b);
        var (c, more) := Released(mem[a[0]]);
        TailThen(more, a, b);
        DropThen(mem[a[0] := c], more + a[1..], b);
      }
    }
  }

  lemma {:induction false} DropTotal(mem: Memory, ids: seq<Id>)
    ensures Total(Drop(mem, ids)) <= Total(mem)
    decreases Total(mem), |ids|
  {
    if ids != [] {
      if !IsLive(mem, ids[0]) {
        DropTotal(mem, ids[1..]);
      } else {
        var (c, more) := Released(mem[ids[0]]);
        TotalUpdate(mem, ids[0], c);
        DropTotal(mem[ids[0] := c], more + ids[1..]);
      }
    }
  }

  lemma ReleaseAt(mem: Memory, held: multiset<Id>, ids: seq<Id>, x: Id)
    requires ids != [] && IsLive(mem, ids[0])
    requires HeldCount(mem, x) + (held + multiset(ids))[x] == CountAt(mem, x)
    ensures var (c, more) := Released(mem[ids[0]]);
      HeldCount(mem[ids[0] := c], x) + (held + multiset(more + ids[1..]))[x] == CountAt(mem[ids[0] := c], x)
  {
    hide HeldCount, Released, CellRefs;
    var (c, more) := Released(mem[ids[0]]);
    HeldUpdate(mem, ids[0], c, x);
    assert ids == [ids[0]] + ids[1..];
    assert (held + multiset(ids))[x] == held[x] + multiset([ids[0]])[x] + multiset(ids[1..])[x];
    assert (held + multiset(more + ids[1..]))[x] == held[x] + multiset(more)[x] + multiset(ids[1..])[x];
  }

  /** One step of the cascade keeps the law, with the references still to be
      released counted as held outside. */
  lemma DropStep(mem: Memory, held: multiset<Id>, ids: seq<Id>)
    requires ids != [] && Conserved(mem, held + multiset(ids))
    ensures IsLive(mem, ids[0])
    ensures var (c, more) := Released(mem[ids[0]]);
      Conserved(mem[ids[0] := c], held + multiset(more + ids[1..]))
  {
    hide HeldCount, Released;
    var id := ids[0];
    assert ids == [id] + ids[1..];
    assert HeldCount(mem, id) + (held + multiset(ids))[id] == CountAt(mem, id);
    var (c, more) := Released(mem[id]);
    forall x: Id ensures HeldCount(mem[id := c], x) + (held + multiset(more + ids[1..]))[x] == CountAt(mem[id := c], x) {
      assert HeldCount(mem, x) + (held + multiset(ids))[x] == CountAt(mem, x);
      ReleaseAt(mem, held, ids, x);
    }
  }

  /** Releasing references keeps the law of reference counting. */
  lemma {:induction false} DropConserves(mem: Memory, held: multiset<Id>, ids: seq<Id>)
    requires Conserved(mem, held + multiset(ids))
    ensures Conserved(Drop(mem, ids), held)
    decreases Total(mem), |ids|
  {
    if ids == [] {
      assert held + multiset(ids) == held;
    } else {
      DropStep(mem, held, ids);
      var (c, more) := Released(mem[ids[0]]);
      TotalUpdate(mem, ids[0], c);
      DropConserves(mem[ids[0] := c], held, more + ids[1..]);
    }
  }

  /** `now` is `before` with some values released: a survivor keeps its body. */
  ghost predicate Survives(before: Memory, now: Memory) {
    && |now| == |before|
    && forall i :: 0 <= i < |now| && now[i].Live? ==> before[i].Live? && before[i].body == now[i].body
  }

  lemma {:induction false} DropSurvives(mem: Memory, ids: seq<Id>)
    ensures Survives(mem, Drop(mem, ids))
    decreases Total(mem), |ids|
  {
    if ids != [] {
      if !IsLive(mem, ids[0]) {
        DropSurvives(mem, ids[1..]);
      } else {
        var (c, more) := Released(mem[ids[0]]);
        TotalUpdate(mem, ids[0], c);
        DropSurvives(mem[ids[0] := c], more + ids[1..]);
      }
    }
  }

  /** A value being destroyed is as good as freed for the rest of the cascade. */
  lemma {:induction false} DyingIsFreed(mem: Memory, k: Id, body: Body, ids: seq<Id>)
    requires k < |mem| && mem[k] == Live(0, body)
    ensures Drop(mem, ids)[k] == mem[k]
    ensures Drop(mem[k := Freed], ids) == Drop(mem, ids)[k := Freed]
    decreases Total(mem), |ids|
  {
    if ids != [] {
      var mem' := mem[k := Freed];
      if !IsLive(mem, ids[0]) {
        DyingIsFreed(mem, k, body, ids[1..]);
      } else {
        var id := ids[0];
        var (c, more) := Released(mem[id]);
        TotalUpdate(mem, id, c);
        DyingIsFreed(mem[id := c], k, body, more + ids[1..]);
        assert mem'[id := c] == mem[id := c][k := Freed];
      }
    }
  }
}
