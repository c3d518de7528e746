/** What a DECREF frees: exactly the values that nothing held outside can reach any
more, unless some of them hold one another in a ring. */
module Reachability {
  import opened Values
  import opened Cells

  /** `id` is reached from a reference held outside through `n` container slots. */
  ghost predicate ReachedIn(mem: Memory, held: multiset<Id>, id: Id, n: nat)
    decreases n
  {
    if n == 0 then id in held
    else exists p: Id :: p < |mem| && id in CellRefs(mem[p]) && ReachedIn(mem, held, p, n - 1)
  }

  ghost predicate Reachable(mem: Memory, held: multiset<Id>, id: Id) {
    exists n: nat :: ReachedIn(mem, held, id, n)
  }

  /** Live values each of which is held by one of them. */
  ghost predicate Ring(mem: Memory, s: set<Id>) {
    forall x :: x in s ==> IsLive(mem, x) && HeldWithin(mem, s, x)
  }

  ghost predicate HeldWithin(mem: Memory, s: set<Id>, x: Id) { exists p :: p in s && HoldsValue(mem, p, x) }

  ghost predicate HoldsValue(mem: Memory, p: Id, x: Id) { p < |mem| && x in CellRefs(mem[p]) }

  lemma OwnerWithin(mem: Memory, s: set<Id>, x: Id) returns (p: Id)
    requires HeldWithin(mem, s, x)
    ensures p in s && p < |mem| && x in CellRefs(mem[p])
  {
    p :| p in s && HoldsValue(mem, p, x);
  }

  lemma WithinByOwner(mem: Memory, s: set<Id>, p: Id, x: Id)
    requires p in s && p < |mem| && x in CellRefs(mem[p])
    ensures HeldWithin(mem, s, x)
  {
    assert HoldsValue(mem, p, x);
  }

  /** Lost values: a ring that no reference held outside reaches. */
  ghost predicate Lost(mem: Memory, held: multiset<Id>, s: set<Id>) {
    s != {} && Ring(mem, s) && forall x :: x in s ==> !Reachable(mem, held, x)
  }

  /** `depth` puts every container above what it holds: there is no cycle. */
  ghost predicate Layered(mem: Memory, depth: Id -> nat) {
    forall p: Id, id: Id :: p < |mem| && id in CellRefs(mem[p]) ==> depth(p) < depth(id)
  }

  lemma ReachBase(mem: Memory, held: multiset<Id>, id: Id)
    ensures ReachedIn(mem, held, id, 0) <==> id in held
  {}

  lemma ReachStep(mem: Memory, held: multiset<Id>, p: Id, id: Id, n: nat)
    requires p < |mem| && id in CellRefs(mem[p]) && ReachedIn(mem, held, p, n)
    ensures ReachedIn(mem, held, id, n + 1)
  {}

  lemma ReachOwner(mem: Memory, held: multiset<Id>, id: Id, n: nat) returns (p: Id)
    requires n > 0 && ReachedIn(mem, held, id, n)
    ensures p < |mem| && id in CellRefs(mem[p]) && ReachedIn(mem, held, p, n - 1)
  {
    p :| p < |mem| && id in CellRefs(mem[p]) && ReachedIn(mem, held, p, n - 1);
  }

  /** What can be reached is live. */
  lemma {:induction false} ReachedIsLive(mem: Memory, held: multiset<Id>, id: Id, n: nat)
    requires Conserved(mem, held) && ReachedIn(mem, held, id, n)
    ensures IsLive(mem, id)
  {
    hide HeldCount, ReachedIn, CellRefs;
    ReachBase(mem, held, id);
    if n == 0 {
      assert HeldCount(mem, id) + held[id] == CountAt(mem, id);
    } else {
      var p := ReachOwner(mem, held, id, n);
      HeldIsLive(mem, held, p, id);
    }
  }

  lemma SlotOwnerIsLive(mem: Memory, p: Id, id: Id)
    requires p < |mem| && id in CellRefs(mem[p])
    ensures IsLive(mem, p)
  {}

  /** The values that are live but not reached make up a ring. */
  lemma UnreachedIsLost(mem: Memory, held: multiset<Id>, id: Id) returns (s: set<Id>)
    requires Conserved(mem, held) && IsLive(mem, id) && !Reachable(mem, held, id)
    ensures Lost(mem, held, s)
  {
    hide HeldCount, CellRefs, ReachedIn, HeldWithin;
    s := set x: Id | x < |mem| && IsLive(mem, x) && !Reachable(mem, held, x);
    assert id in s;
    forall x | x in s ensures HeldWithin(mem, s, x) {
      ReachBase(mem, held, x);
      assert !ReachedIn(mem, held, x, 0);
      assert HeldCount(mem, x) + held[x] == CountAt(mem, x);
      var p := SlotOfHeld(mem, x);
      SlotOwnerIsLive(mem, p, x);
      if Reachable(mem, held, p) {
        var n: nat :| ReachedIn(mem, held, p, n);
        ReachStep(mem, held, p, x, n);
      }
      WithinByOwner(mem, s, p, x);
    }
  }

  /** Reference counting leaves no garbage if and only if no ring is lost. */
  lemma GarbageIsRings(mem: Memory, held: multiset<Id>)
    requires Conserved(mem, held)
    ensures (forall id: Id :: IsLive(mem, id) <==> Reachable(mem, held, id)) <==> !exists s: set<Id> :: Lost(mem, held, s)
  {
    hide Conserved, ReachedIn, HeldWithin;
    forall id: Id | Reachable(mem, held, id) ensures IsLive(mem, id) {
      var n: nat :| ReachedIn(mem, held, id, n);
      ReachedIsLive(mem, held, id, n);
    }
    if id: Id :| IsLive(mem, id) && !Reachable(mem, held, id) {
      var s := UnreachedIsLost(mem, held, id);
    }
    if s: set<Id> :| Lost(mem, held, s) {
      var x :| x in s;
      assert IsLive(mem, x) && !Reachable(mem, held, x);
    }
  }

  /** Without containment cycles there is no ring: a value at the top of one would have
      to be held by a higher one. */
  lemma {:induction false} LayeredHasNoRing(mem: Memory, depth: Id -> nat, s: set<Id>, x: Id)
    requires Layered(mem, depth) && Ring(mem, s)
    ensures x !in s
    decreases depth(x)
  {
    hide HeldWithin, CellRefs, IsLive;
    if x in s {
      var p := OwnerWithin(mem, s, x);
      LayeredHasNoRing(mem, depth, s, p);
    }
  }

  lemma LayeredLosesNothing(mem: Memory, held: multiset<Id>, depth: Id -> nat)
    requires Layered(mem, depth)
    ensures !exists s: set<Id> :: Lost(mem, held, s)
  {
    hide Layered, Ring;
    if s: set<Id> :| Lost(mem, held, s) {
      var x :| x in s;
      LayeredHasNoRing(mem, depth, s, x);
    }
  }

  lemma NoGarbage(mem: Memory, held: multiset<Id>, depth: Id -> nat)
    requires Conserved(mem, held) && Layered(mem, depth)
    ensures forall id: Id :: IsLive(mem, id) <==> Reachable(mem, held, id)
  {
    hide Conserved, Reachable, Lost;
    LayeredLosesNothing(mem, held, depth);
    GarbageIsRings(mem, held);
  }

  lemma SurvivorRefs(before: Memory, now: Memory, p: Id)
    requires Survives(before, now) && NoneDying(before) && IsLive(now, p)
    ensures p < |before| && CellRefs(now[p]) == CellRefs(before[p])
  {}

  /** A survivor that was reached before the cascade still is. */
  lemma {:induction false} StillReached(before: Memory, now: Memory, held: multiset<Id>, id: Id, n: nat)
    requires Survives(before, now) && Conserved(now, held) && NoneDying(before)
    requires ReachedIn(before, held, id, n)
    ensures ReachedIn(now, held, id, n)
    decreases n
  {
    hide ReachedIn, Survives, Conserved, CellRefs;
    ReachBase(before, held, id);
    ReachBase(now, held, id);
    if n > 0 {
      var p := ReachOwner(before, held, id, n);
      StillReached(before, now, held, p, n - 1);
      ReachedIsLive(now, held, p, n - 1);
      SurvivorRefs(before, now, p);
      ReachStep(now, held, p, id, n - 1);
    }
  }

  /** Nothing is reached that was not reached before. */
  lemma {:induction false} ReachedBefore(before: Memory, now: Memory, held: multiset<Id>, id: Id, n: nat)
    requires Survives(before, now) && NoneDying(before)
    requires ReachedIn(now, held, id, n)
    ensures ReachedIn(before, held, id, n)
    decreases n
  {
    hide ReachedIn, Survives, CellRefs;
    ReachBase(before, held, id);
    ReachBase(now, held, id);
    if n > 0 {
      var p := ReachOwner(now, held, id, n);
      SlotOwnerIsLive(now, p, id);
      SurvivorRefs(before, now, p);
      ReachedBefore(before, now, held, p, n - 1);
      ReachStep(before, held, p, id, n - 1);
    }
  }

  /** One step of a cascade frees no value of a ring: besides the reference released, one
      of the ring holds it. */
  lemma RingStep(mem: Memory, held: multiset<Id>, ids: seq<Id>, s: set<Id>)
    requires ids != [] && Conserved(mem, held + multiset(ids)) && IsLive(mem, ids[0]) && Ring(mem, s)
    ensures Ring(mem[ids[0] := Released(mem[ids[0]]).0], s)
  {
    hide HeldCount, HeldWithin, Refs;
    var id := ids[0];
    var now := mem[id := Released(mem[id]).0];
    if id in s {
      var p := OwnerWithin(mem, s, id);
      HeldBySlot(mem, p, id);
      assert HeldCount(mem, id) + (held + multiset(ids))[id] == CountAt(mem, id);
      assert id in multiset(ids);
    }
    assert forall p :: p in s ==> IsLive(now, p) && CellRefs(now[p]) == CellRefs(mem[p]);
    forall x | x in s ensures HeldWithin(now, s, x) {
      var p := OwnerWithin(mem, s, x);
      WithinByOwner(now, s, p, x);
    }
  }

  lemma {:induction false} RingOutlivesDrop(mem: Memory, held: multiset<Id>, ids: seq<Id>, s: set<Id>)
    requires Conserved(mem, held + multiset(ids)) && Ring(mem, s)
    ensures Ring(Drop(mem, ids), s)
    decreases Total(mem), |ids|
  {
    hide Conserved, Ring, Released, IsLive;
    if ids != [] {
      DropStep(mem, held, ids);
      RingStep(mem, held, ids, s);
      var (c, more) := Released(mem[ids[0]]);
      TotalUpdate(mem, ids[0], c);
      RingOutlivesDrop(mem[ids[0] := c], held, more + ids[1..], s);
    }
  }

  /** What is reached after a cascade is what was reached before. */
  lemma SameReached(mem: Memory, now: Memory, held: multiset<Id>, x: Id)
    requires Survives(mem, now) && Conserved(now, held) && NoneDying(mem)
    ensures Reachable(now, held, x) <==> Reachable(mem, held, x)
  {
    hide ReachedIn;
    if Reachable(now, held, x) {
      var n: nat :| ReachedIn(now, held, x, n);
      ReachedBefore(mem, now, held, x, n);
    }
    if Reachable(mem, held, x) {
      var n: nat :| ReachedIn(mem, held, x, n);
      StillReached(mem, now, held, x, n);
    }
  }

  lemma RingWasThere(mem: Memory, now: Memory, s: set<Id>)
    requires Survives(mem, now) && NoneDying(mem) && Ring(now, s)
    ensures Ring(mem, s)
  {
    hide HeldWithin, CellRefs;
    forall x | x in s ensures IsLive(mem, x) && HeldWithin(mem, s, x) {
      var p := OwnerWithin(now, s, x);
      SurvivorRefs(mem, now, p);
      WithinByOwner(mem, s, p, x);
    }
  }

  /** A cascade neither makes a lost ring nor frees one. */
  lemma SameLost(mem: Memory, held: multiset<Id>, ids: seq<Id>, s: set<Id>)
    requires Conserved(mem, held + multiset(ids)) && NoneDying(mem)
    ensures Lost(Drop(mem, ids), held, s) <==> Lost(mem, held, s)
  {
    hide Conserved, Ring, Reachable, Drop, NoneDying, Survives;
    var now := Drop(mem, ids);
    DropConserves(mem, held, ids);
    DropSurvives(mem, ids);
    forall x: Id ensures Reachable(now, held, x) <==> Reachable(mem, held, x) { SameReached(mem, now, held, x); }
    if Ring(now, s) { RingWasThere(mem, now, s); }
    if Ring(mem, s) { RingOutlivesDrop(mem, held, ids, s); }
  }

  /** Dropping a reference leaves alive exactly what the references still held can reach,
      and frees all else, if and only if no ring of values out of their reach is there: no
      set of live values each held by one of them. */
  lemma DropExactIff(mem: Memory, held: multiset<Id>, id: Id)
    requires Conserved(mem, held + multiset{id}) && NoneDying(mem)
    ensures (forall x: Id :: IsLive(Drop(mem, [id]), x) <==> Reachable(mem, held, x)) <==> !exists s: set<Id> :: Lost(mem, held, s)
    ensures forall x: Id :: IsLive(Drop(mem, [id]), x) ==> mem[x].Live? && Drop(mem, [id])[x].body == mem[x].body
    ensures Conserved(Drop(mem, [id]), held)
  {
    hide Conserved, Lost, Reachable, Drop, NoneDying;
    var now := Drop(mem, [id]);
    assert multiset([id]) == multiset{id};
    DropConserves(mem, held, [id]);
    DropSurvives(mem, [id]);
    GarbageIsRings(now, held);
    forall s: set<Id> ensures Lost(now, held, s) <==> Lost(mem, held, s) { SameLost(mem, held, [id], s); }
    forall x: Id ensures Reachable(now, held, x) <==> Reachable(mem, held, x) { SameReached(mem, now, held, x); }
  }

  /** Without containment cycles that is always so. */
  lemma DropIsExact(mem: Memory, held: multiset<Id>, id: Id, depth: Id -> nat)
    requires Conserved(mem, held + multiset{id}) && Layered(mem, depth) && NoneDying(mem)
    ensures forall x: Id :: IsLive(Drop(mem, [id]), x) <==> Reachable(mem, held, x)
    ensures forall x: Id :: IsLive(Drop(mem, [id]), x) ==> mem[x].Live? && Drop(mem, [id])[x].body == mem[x].body
    ensures Conserved(Drop(mem, [id]), held)
  {
    hide Conserved, Lost, Reachable, Drop, NoneDying, Layered;
    LayeredLosesNothing(mem, held, depth);
    DropExactIff(mem, held, id);
  }

  /** The smallest such ring: an array that holds itself outlives the last reference to
      it. */
  lemma SelfHoldingArrayLeaks()
    ensures var mem := [Live(2, ArrayBody([0]))];
      && Conserved(mem, multiset{} + multiset{0})
      && IsLive(Drop(mem, [0]), 0)
      && !Reachable(Drop(mem, [0]), multiset{}, 0)
  {
    var mem := [Live(2, ArrayBody([0]))];
    var now := Drop(mem, [0]);
    assert mem[..0] == [] && HeldCount([], 0) == 0;
    forall id: Id ensures HeldCount(mem, id) + (multiset{} + multiset{0})[id] == CountAt(mem, id) {
      assert HeldCount(mem, id) == HeldCount(mem[..0], id) + multiset([0])[id];
    }
    assert now == [Live(1, ArrayBody([0]))] by {
      assert mem[0 := Live(1, ArrayBody([0]))] == [Live(1, ArrayBody([0]))];
      assert [] + [0][1..] == [];
    }
    forall n: nat ensures !ReachedIn(now, multiset{}, 0, n) {
      NothingFromNothing(now, 0, n);
    }
  }

  lemma {:induction false} NothingFromNothing(mem: Memory, id: Id, n: nat)
    ensures !ReachedIn(mem, multiset{}, id, n)
    decreases n
  {
    hide ReachedIn, CellRefs;
    ReachBase(mem, multiset{}, id);
    if n > 0 && ReachedIn(mem, multiset{}, id, n) {
      var p := ReachOwner(mem, multiset{}, id, n);
      NothingFromNothing(mem, p, n - 1);
    }
  }
}
