/** The multi-server asynchronous call of xmlrpc-c/src/xmlrpc_client_global.c as a state
machine: the main thread creates one thread for each server, joins them all and drains
the transport; each thread starts one RPC as xmlrpc_client_start_rpcf() does; the
transport completes accepted requests at any time. Steps interleave in any order.

All threads share one fault flag, which only a refused request sets, and which nothing
clears. A thread tests it six times on its way, and cannot tell whose fault it was.

Assumed of the transport: an accepted request completes exactly once, and draining
returns only when nothing is in flight. */
module MultiCall {
  import opened Text

  /** How a thread's start ended.

      Started: accepted, and the flag was clear at the last test.
      Misled: accepted, but the flag was set at the last test, so that the thread
      destroyed the record of a request in flight.
      Declined: refused by the transport.
      NoRecord: the flag was set before there was a call record.
      Unfilled: the flag was set after the call text was made; the record was destroyed
      with nothing filled in.
      FreedEarly: the flag was set when the record had just been filled; the record was
      freed, and then destroyed.
      Unsent: the flag was set before the request was sent; the record was destroyed. */
  datatype Fate = Started | Misled | Declined | NoRecord | Unfilled | FreedEarly | Unsent

  /** Where a thread is: before it exists; at each of the tests of the flag before it
      sends its request; sending; and then at the last test, with what it will find
      there known if it is `Failing`. */
  datatype Thread =
    | NotCreated
    | Informed   // before the test after xmlrpc_server_info_new()
    | Listed     // before the test after computeParamArray()
    | Printed    // before the test after makeCallXml()
    | Filled     // before the test after callInfoSetCompletion()
    | Made       // before the test after callInfoCreate()
    | Sending
    | Accepted
    | Failing(fate: Fate)
    | Done(fate: Fate)

  datatype Main = Creating(next: nat) | Joining(next: nat) | Draining | Returned

  /** The order in which the main thread waits; the other one is version 1's. */
  datatype Order = JoinThenDrain | DrainThenJoin

  /** `fault` is the one fault flag. `handled` counts the calls of each response handler
      and `released` the times each call record was freed or destroyed. */
  datatype State = State(main: Main, threads: seq<Thread>, fault: bool, inFlight: set<nat>,
                         handled: seq<nat>, released: seq<nat>)

  datatype Step =
    | Create | Join | Drain
    | Test(id: nat) | Accept(id: nat) | Refuse(id: nat) | Finish(id: nat)
    | Complete(id: nat)

  function Start(n: nat): State {
    State(Creating(0), seq(n, i => NotCreated), false, {}, seq(n, i => 0), seq(n, i => 0))
  }

  /** Where a thread goes from a test of the flag before the request is sent. */
  function AfterTest(t: Thread, fault: bool): Option<Thread> {
    match t
    case Informed => Some(if fault then Done(NoRecord) else Listed)
    case Listed => Some(if fault then Done(NoRecord) else Printed)
    case Printed => Some(if fault then Failing(Unfilled) else Filled)
    case Filled => Some(if fault then Failing(FreedEarly) else Made)
    case Made => Some(if fault then Failing(Unsent) else Sending)
    case _ => None
  }

  predicate Enabled(order: Order, s: State, step: Step) {
    match step
    case Create => s.main.Creating?
    case Join => s.main.Joining? && (s.main.next < |s.threads| ==> s.threads[s.main.next].Done?)
    case Drain => s.main.Draining? && s.inFlight == {}
    case Test(i) => i < |s.threads| && AfterTest(s.threads[i], s.fault).Some?
    case Accept(i) => i < |s.threads| && s.threads[i] == Sending
    case Refuse(i) => i < |s.threads| && s.threads[i] == Sending
    case Finish(i) => i < |s.threads| && (s.threads[i] == Accepted || s.threads[i].Failing?)
    case Complete(i) => i in s.inFlight
  }

  function FirstWait(order: Order): Main { if order == JoinThenDrain then Joining(0) else Draining }

  function AfterJoin(order: Order): Main { if order == JoinThenDrain then Draining else Returned }

  function AfterDrain(order: Order): Main { if order == JoinThenDrain then Returned else Joining(0) }

  function Count(counts: seq<nat>, i: nat): seq<nat> { if i < |counts| then counts[i := counts[i] + 1] else counts }

  function Apply(order: Order, s: State, step: Step): State
    requires Enabled(order, s, step)
  {
    match step
    case Create =>
      var i := s.main.next;
      if i < |s.threads| then s.(main := Creating(i + 1), threads := s.threads[i := Informed])
      else s.(main := FirstWait(order))
    case Join =>
      if s.main.next < |s.threads| then s.(main := Joining(s.main.next + 1)) else s.(main := AfterJoin(order))
    case Drain => s.(main := AfterDrain(order))
    case Test(i) =>
      var t := AfterTest(s.threads[i], s.fault).value;
      s.(threads := s.threads[i := t], released := if t == Failing(FreedEarly) then Count(s.released, i) else s.released)
    case Accept(i) => s.(threads := s.threads[i := Accepted], inFlight := s.inFlight + {i})
    case Refuse(i) => s.(threads := s.threads[i := Failing(Declined)], fault := true)
    case Finish(i) =>
      // the flag says that some start failed, not that this one did
      var fate := if s.threads[i].Failing? then s.threads[i].fate else if s.fault then Misled else Started;
      s.(threads := s.threads[i := Done(fate)], released := if s.fault then Count(s.released, i) else s.released)
    case Complete(i) =>
      s.(inFlight := s.inFlight - {i}, handled := Count(s.handled, i), released := Count(s.released, i))
  }

  /** The states that runs reach, with the steps taken. */
  ghost predicate Runs(order: Order, s: State, steps: seq<Step>, t: State)
    decreases |steps|
  {
    if steps == [] then s == t
    else Enabled(order, s, steps[0]) && Runs(order, Apply(order, s, steps[0]), steps[1..], t)
  }

  // ---------------------------------------------------------------------
  // The invariant

  /** How often a thread of this fate calls its handler, once its request is complete. */
  function HandledBy(fate: Fate): nat { if fate in {Started, Misled} then 1 else 0 }

  /** How often its record is freed or destroyed. */
  function ReleasedBy(fate: Fate): nat {
    if fate == NoRecord then 0 else if fate in {Misled, FreedEarly} then 2 else 1
  }

  /** What is true of thread `i` and its call record. */
  ghost predicate ThreadOk(s: State, i: nat)
    requires i < |s.threads| == |s.handled| == |s.released|
  {
    var pending := if i in s.inFlight then 1 else 0;
    match s.threads[i]
    case Accepted => s.handled[i] + pending == 1 && s.released[i] == s.handled[i]
    case Failing(f) =>
      && f in {Declined, Unfilled, FreedEarly, Unsent} && s.fault
      && pending == 0 && s.handled[i] == 0 && s.released[i] + 1 == ReleasedBy(f)
    case Done(f) =>
      && (f != Started ==> s.fault) && (HandledBy(f) == 0 ==> pending == 0)
      && s.handled[i] + pending == HandledBy(f) && s.released[i] + pending == ReleasedBy(f)
    case _ => pending == 0 && s.handled[i] == 0 && s.released[i] == 0
  }

  ghost predicate WasDeclined(t: Thread) { t == Failing(Declined) || t == Done(Declined) }

  ghost predicate SomeDeclined(s: State) { exists i :: 0 <= i < |s.threads| && WasDeclined(s.threads[i]) }

  ghost predicate MainOk(order: Order, s: State) {
    match s.main
    case Creating(k) => k <= |s.threads| && forall i :: 0 <= i < |s.threads| ==> (s.threads[i] == NotCreated <==> i >= k)
    case Joining(k) => k <= |s.threads| && (forall i :: 0 <= i < k ==> s.threads[i].Done?) && AllCreated(s)
    case Draining => AllCreated(s) && (order == JoinThenDrain ==> AllDone(s))
    case Returned => AllDone(s) && (order == JoinThenDrain ==> s.inFlight == {})
  }

  ghost predicate AllCreated(s: State) { forall i :: 0 <= i < |s.threads| ==> s.threads[i] != NotCreated }

  ghost predicate AllDone(s: State) { forall i :: 0 <= i < |s.threads| ==> s.threads[i].Done? }

  ghost predicate Inv(order: Order, s: State) {
    && |s.threads| == |s.handled| == |s.released|
    && (forall i :: i in s.inFlight ==> i < |s.threads|)
    && (s.fault <==> SomeDeclined(s))
    && (forall i :: 0 <= i < |s.threads| ==> ThreadOk(s, i))
    && MainOk(order, s)
  }

  lemma StartInv(order: Order, n: nat)
    ensures Inv(order, Start(n))
  {}

  lemma StepThreads(order: Order, s: State, step: Step, i: nat)
    requires Inv(order, s) && Enabled(order, s, step) && i < |s.threads|
    ensures var t := Apply(order, s, step);
      |t.threads| == |t.handled| == |t.released| == |s.threads| && ThreadOk(t, i)
  {
    hide SomeDeclined;
    assert ThreadOk(s, i);
  }

  /** Every step keeps the invariant, in either order of waiting. */
  lemma StepInv(order: Order, s: State, step: Step)
    requires Inv(order, s) && Enabled(order, s, step)
    ensures Inv(order, Apply(order, s, step)) && |Apply(order, s, step).threads| == |s.threads|
  {
    hide ThreadOk, SomeDeclined, MainOk;
    var t := Apply(order, s, step);
    forall i | 0 <= i < |s.threads|
      ensures |t.threads| == |t.handled| == |t.released| == |s.threads| && ThreadOk(t, i)
    {
      StepThreads(order, s, step, i);
    }
    StepMain(order, s, step);
    StepFault(order, s, step);
  }

  lemma StepMain(order: Order, s: State, step: Step)
    requires Inv(order, s) && Enabled(order, s, step)
    ensures MainOk(order, Apply(order, s, step))
  {
    hide ThreadOk, SomeDeclined;
  }

  lemma StepFault(order: Order, s: State, step: Step)
    requires Inv(order, s) && Enabled(order, s, step)
    ensures var t := Apply(order, s, step); t.fault <==> SomeDeclined(t)
  {
    var t := Apply(order, s, step);
    if s.fault {
      var i :| 0 <= i < |s.threads| && WasDeclined(s.threads[i]);
      assert WasDeclined(t.threads[i]);
    } else if step.Refuse? {
      assert WasDeclined(t.threads[step.id]);
    } else {
      forall i | 0 <= i < |s.threads| ensures !WasDeclined(t.threads[i]) {
        assert ThreadOk(s, i) && !WasDeclined(s.threads[i]);
      }
    }
  }

  lemma {:induction false} RunInv(order: Order, s: State, steps: seq<Step>, t: State)
    requires Inv(order, s) && Runs(order, s, steps, t)
    ensures Inv(order, t) && |t.threads| == |s.threads|
    decreases |steps|
  {
    hide Inv, Enabled, Apply;
    if steps != [] {
      StepInv(order, s, steps[0]);
      RunInv(order, Apply(order, s, steps[0]), steps[1..], t);
    }
  }

  // ---------------------------------------------------------------------
  // What is true at return

  /** In every interleaving, when the call returns: nothing is in flight, and each
      thread's fate says how often its handler has run and its record was released. A
      fate other than to be started takes a refused request, of this thread or of
      another. */
  lemma AtReturn(n: nat, steps: seq<Step>, t: State)
    requires Runs(JoinThenDrain, Start(n), steps, t) && t.main.Returned?
    ensures |t.threads| == |t.handled| == |t.released| == n && t.inFlight == {}
    ensures forall i :: 0 <= i < n ==>
              && t.threads[i].Done?
              && t.handled[i] == HandledBy(t.threads[i].fate) && t.released[i] == ReleasedBy(t.threads[i].fate)
              && (t.threads[i].fate != Started ==> exists j :: 0 <= j < n && t.threads[j] == Done(Declined))
  {
    hide Apply;
    StartInv(JoinThenDrain, n);
    RunInv(JoinThenDrain, Start(n), steps, t);
    forall i | 0 <= i < n
      ensures && t.threads[i].Done?
              && t.handled[i] == HandledBy(t.threads[i].fate) && t.released[i] == ReleasedBy(t.threads[i].fate)
              && (t.threads[i].fate != Started ==> exists j :: 0 <= j < n && t.threads[j] == Done(Declined))
    {
      assert ThreadOk(t, i) && t.threads[i].Done?;
      if t.threads[i].fate != Started {
        var j :| 0 <= j < |t.threads| && WasDeclined(t.threads[j]);
        assert t.threads[j].Done?;
      }
    }
  }

  ghost predicate OnceEach(counts: seq<nat>) { forall i :: 0 <= i < |counts| ==> counts[i] == 1 }

  /** Each handler runs exactly once if and only if no start was refused, and then each
      record is released exactly once. */
  lemma ExactlyOnce(n: nat, steps: seq<Step>, t: State)
    requires Runs(JoinThenDrain, Start(n), steps, t) && t.main.Returned?
    ensures |t.handled| == |t.released| == n
    ensures OnceEach(t.handled) <==> !t.fault
    ensures !t.fault ==> OnceEach(t.released)
  {
    hide Runs;
    AtReturn(n, steps, t);
    StartInv(JoinThenDrain, n);
    RunInv(JoinThenDrain, Start(n), steps, t);
    hide Apply, Enabled;
    if t.fault {
      var j :| 0 <= j < |t.threads| && WasDeclined(t.threads[j]);
      assert t.threads[j].Done? && t.handled[j] == 0;
    } else {
      forall i | 0 <= i < n ensures t.handled[i] == t.released[i] == 1 { assert ThreadOk(t, i); }
    }
  }

  // ---------------------------------------------------------------------
  // The call returns

  function ThreadLeft(t: Thread): nat {
    match t
    case NotCreated => 8
    case Informed => 8
    case Listed => 7
    case Printed => 6
    case Filled => 5
    case Made => 4
    case Sending => 3
    case Accepted => 1
    case Failing(_) => 1
    case Done(_) => 0
  }

  function ThreadsLeft(ts: seq<Thread>): nat { if ts == [] then 0 else ThreadLeft(ts[0]) + ThreadsLeft(ts[1..]) }

  function Minus(a: nat, b: nat): nat { if a >= b then a - b else 0 }

  function MainLeft(order: Order, n: nat, main: Main): nat {
    match main
    case Creating(k) => Minus(n, k) + n + 3
    case Joining(k) => Minus(n, k) + 1 + (if order == JoinThenDrain then 1 else 0)
    case Draining => if order == JoinThenDrain then 1 else n + 2
    case Returned => 0
  }

  /** How many steps are left at most. */
  function Left(order: Order, s: State): nat {
    MainLeft(order, |s.threads|, s.main) + ThreadsLeft(s.threads) + |s.inFlight|
  }

  lemma {:induction false} OneThread(ts: seq<Thread>, i: nat, t: Thread)
    requires i < |ts|
    ensures ThreadsLeft(ts[i := t]) + ThreadLeft(ts[i]) == ThreadsLeft(ts) + ThreadLeft(t)
  {
    if i == 0 {
      assert ts[0 := t][1..] == ts[1..];
    } else {
      OneThread(ts[1..], i - 1, t);
      assert ts[i := t][1..] == ts[1..][i - 1 := t];
    }
  }

  lemma MainStep(order: Order, s: State, step: Step)
    requires MainOk(order, s) && Enabled(order, s, step) && (step.Create? || step.Join? || step.Drain?)
    ensures var t := Apply(order, s, step);
      MainLeft(order, |t.threads|, t.main) < MainLeft(order, |s.threads|, s.main)
  {}

  lemma ThreadStep(order: Order, s: State, step: Step)
    requires Enabled(order, s, step) && (step.Test? || step.Accept? || step.Refuse? || step.Finish?)
    ensures var t := Apply(order, s, step);
      ThreadsLeft(t.threads) + |t.inFlight| < ThreadsLeft(s.threads) + |s.inFlight|
      && t.main == s.main && |t.threads| == |s.threads|
  {
    hide ThreadsLeft;
    var i := step.id;
    OneThread(s.threads, i, Apply(order, s, step).threads[i]);
  }

  /** Every step brings the end nearer: no run goes on for ever. */
  lemma StepsRunOut(order: Order, s: State, step: Step)
    requires Inv(order, s) && Enabled(order, s, step)
    ensures Left(order, Apply(order, s, step)) < Left(order, s)
  {
    hide ThreadsLeft, MainLeft, ThreadOk, SomeDeclined;
    match step
    case Create =>
      MainStep(order, s, step);
      if s.main.next < |s.threads| { OneThread(s.threads, s.main.next, Informed); }
    case Join => MainStep(order, s, step);
    case Drain => MainStep(order, s, step);
    case Complete(i) =>
    case _ => ThreadStep(order, s, step);
  }

  /** A step that can be taken: nobody waits for ever. Of the runs that take this step
      each time, none has a request refused. */
  ghost function NextStep(order: Order, s: State): (step: Step)
    requires Inv(order, s) && !s.main.Returned?
    ensures Enabled(order, s, step)
  {
    match s.main
    case Creating(_) => Create
    case Joining(k) =>
      if k == |s.threads| || s.threads[k].Done? then Join
      else if s.threads[k] == Sending then Accept(k)
      else if s.threads[k] == Accepted || s.threads[k].Failing? then Finish(k)
      else Test(k)
    case Draining =>
      if s.inFlight == {} then Drain else var i :| i in s.inFlight; Complete(i)
  }

  /** Until the call returns, some step can be taken. */
  lemma NoDeadlock(order: Order, s: State)
    requires Inv(order, s) && !s.main.Returned?
    ensures exists step :: Enabled(order, s, step)
  {
    hide Enabled, Inv;
    assert Enabled(order, s, NextStep(order, s));
  }

  /** Any run so far can be finished, and no run is longer than its start allows. */
  lemma {:induction false} RunLength(order: Order, s: State, steps: seq<Step>, t: State)
    requires Inv(order, s) && Runs(order, s, steps, t)
    ensures |steps| + Left(order, t) <= Left(order, s)
    decreases |steps|
  {
    hide Inv, Enabled, Apply, Left;
    if steps != [] {
      StepInv(order, s, steps[0]);
      StepsRunOut(order, s, steps[0]);
      RunLength(order, Apply(order, s, steps[0]), steps[1..], t);
    }
  }

  /** From every state that is reached, the call can return. */
  lemma {:induction false} CanReturn(order: Order, s: State) returns (steps: seq<Step>, t: State)
    requires Inv(order, s)
    ensures Runs(order, s, steps, t) && t.main.Returned?
    decreases Left(order, s)
  {
    hide Inv, Enabled, Apply, Left;
    if s.main.Returned? {
      steps, t := [], s;
    } else {
      var step := NextStep(order, s);
      StepInv(order, s, step);
      StepsRunOut(order, s, step);
      steps, t := CanReturn(order, Apply(order, s, step));
      OneMore(order, s, step, steps, t);
      steps := [step] + steps;
    }
  }

  lemma OneMore(order: Order, s: State, step: Step, steps: seq<Step>, t: State)
    requires Enabled(order, s, step) && Runs(order, Apply(order, s, step), steps, t)
    ensures Runs(order, s, [step] + steps, t)
  {
    hide Apply, Enabled;
    assert ([step] + steps)[1..] == steps;
  }

  lemma {:induction false} RunsJoin(order: Order, s: State, a: seq<Step>, t: State, b: seq<Step>, u: State)
    requires Runs(order, s, a, t) && Runs(order, t, b, u)
    ensures Runs(order, s, a + b, u)
    decreases |a|
  {
    hide Apply, Enabled;
    if a == [] {
      assert a + b == b;
    } else {
      RunsJoin(order, Apply(order, s, a[0]), a[1..], t, b, u);
      assert (a + b)[1..] == a[1..] + b;
    }
  }

  // ---------------------------------------------------------------------
  // The order of waiting

  /** Every run without a refused request that returns has called each handler once. */
  ghost predicate AlwaysOnce(order: Order, n: nat) {
    forall steps, t :: Runs(order, Start(n), steps, t) && t.main.Returned? && !t.fault ==> OnceEach(t.handled)
  }

  /** No handler has been called; until the main thread has drained, no request has been
      sent either. */
  ghost predicate Quiet(s: State) {
    && !s.fault && (forall i :: 0 <= i < |s.handled| ==> s.handled[i] == 0)
    && (s.main.Creating? || s.main.Draining? ==> s.inFlight == {})
  }

  lemma QuietStep(s: State)
    requires Inv(DrainThenJoin, s) && Quiet(s) && !s.main.Returned?
    ensures var step := NextStep(DrainThenJoin, s);
      Enabled(DrainThenJoin, s, step) && Quiet(Apply(DrainThenJoin, s, step))
  {
    hide ThreadOk, SomeDeclined;
  }

  lemma {:induction false} QuietReturn(s: State) returns (steps: seq<Step>, t: State)
    requires Inv(DrainThenJoin, s) && Quiet(s)
    ensures Runs(DrainThenJoin, s, steps, t) && t.main.Returned? && Quiet(t)
    decreases Left(DrainThenJoin, s)
  {
    hide Inv, Enabled, Apply, Left, Quiet;
    if s.main.Returned? {
      steps, t := [], s;
    } else {
      var step := NextStep(DrainThenJoin, s);
      QuietStep(s);
      StepInv(DrainThenJoin, s, step);
      StepsRunOut(DrainThenJoin, s, step);
      steps, t := QuietReturn(Apply(DrainThenJoin, s, step));
      OneMore(DrainThenJoin, s, step, steps, t);
      steps := [step] + steps;
    }
  }

  /** Joining all threads before draining calls each handler once for any number of
      servers. Version 1's order does so for none at all only: from one server on, there
      is a run that drains before the first thread has sent its request, and returns with
      no handler called. */
  lemma OrderMatters(n: nat)
    ensures AlwaysOnce(JoinThenDrain, n)
    ensures AlwaysOnce(DrainThenJoin, n) <==> n == 0
  {
    hide Runs;
    forall steps, t | Runs(JoinThenDrain, Start(n), steps, t) && t.main.Returned? && !t.fault ensures OnceEach(t.handled) {
      ExactlyOnce(n, steps, t);
    }
    StartInv(DrainThenJoin, n);
    if n == 0 {
      forall steps, t | Runs(DrainThenJoin, Start(n), steps, t) ensures OnceEach(t.handled) {
        RunInv(DrainThenJoin, Start(n), steps, t);
      }
    } else {
      var steps, t := QuietReturn(Start(n));
      RunInv(DrainThenJoin, Start(n), steps, t);
      assert t.handled[0] == 0 && !OnceEach(t.handled);
    }
  }

  // ---------------------------------------------------------------------
  // The shared flag

  /** With the flag clear, thread `i` gets as far as sending its request. */
  lemma Sends(s: State, i: nat) returns (steps: seq<Step>)
    requires i < |s.threads| && s.threads[i] == Informed && !s.fault
    ensures Runs(JoinThenDrain, s, steps, s.(threads := s.threads[i := Sending]))
  {
    var o := JoinThenDrain;
    var s1, s2 := s.(threads := s.threads[i := Listed]), s.(threads := s.threads[i := Printed]);
    var s3, s4 := s.(threads := s.threads[i := Filled]), s.(threads := s.threads[i := Made]);
    var s5 := s.(threads := s.threads[i := Sending]);
    assert s.threads[i := Listed][i := Printed] == s.threads[i := Printed];
    assert s.threads[i := Printed][i := Filled] == s.threads[i := Filled];
    assert s.threads[i := Filled][i := Made] == s.threads[i := Made];
    assert s.threads[i := Made][i := Sending] == s.threads[i := Sending];
    assert Apply(o, s, Test(i)) == s1 && Apply(o, s1, Test(i)) == s2 && Apply(o, s2, Test(i)) == s3;
    assert Apply(o, s3, Test(i)) == s4 && Apply(o, s4, Test(i)) == s5;
    assert Runs(o, s5, [], s5);
    OneMore(o, s4, Test(i), [], s5);
    OneMore(o, s3, Test(i), [Test(i)] + [], s5);
    OneMore(o, s2, Test(i), [Test(i)] + ([Test(i)] + []), s5);
    OneMore(o, s1, Test(i), [Test(i)] + ([Test(i)] + ([Test(i)] + [])), s5);
    steps := [Test(i)] + ([Test(i)] + ([Test(i)] + ([Test(i)] + [])));
    OneMore(o, s, Test(i), steps, s5);
    steps := [Test(i)] + steps;
  }

  lemma DoneStays(order: Order, s: State, step: Step, i: nat)
    requires Inv(order, s) && Enabled(order, s, step) && i < |s.threads| && s.threads[i].Done?
    ensures Apply(order, s, step).threads[i] == s.threads[i]
  {
    hide ThreadOk, SomeDeclined;
  }

  lemma {:induction false} DoneForGood(order: Order, s: State, steps: seq<Step>, t: State, i: nat)
    requires Inv(order, s) && Runs(order, s, steps, t) && i < |s.threads| && s.threads[i].Done?
    ensures |t.threads| == |s.threads| && t.threads[i] == s.threads[i]
    decreases |steps|
  {
    hide Inv, Enabled, Apply;
    if steps != [] {
      DoneStays(order, s, steps[0], i);
      StepInv(order, s, steps[0]);
      DoneForGood(order, Apply(order, s, steps[0]), steps[1..], t, i);
    }
  }

  /** Every run that returns has released each record at most once. */
  ghost predicate NeverTwice(n: nat) {
    forall steps, t :: Runs(JoinThenDrain, Start(n), steps, t) && t.main.Returned? ==>
      forall i :: 0 <= i < |t.released| ==> t.released[i] <= 1
  }

  /** One refused start can make another thread destroy the record of a request that is
      in flight; the completion then destroys it again. So records are safe if and only
      if there is no other thread. */
  lemma SharedFlagReleasesTwice(n: nat)
    ensures NeverTwice(n) <==> n <= 1
  {
    hide Runs;
    if n <= 1 {
      forall steps, t | Runs(JoinThenDrain, Start(n), steps, t) && t.main.Returned?
        ensures forall i :: 0 <= i < |t.released| ==> t.released[i] <= 1
      {
        AtReturn(n, steps, t);
      }
    } else {
      var steps, t := MisledRun(n);
      AtReturn(n, steps, t);
      assert t.released[0] == 2;
    }
  }

  /** Request 0 is accepted, request 1 refused, and thread 0 then finds the flag. */
  lemma MisledRun(n: nat) returns (steps: seq<Step>, t: State)
    requires n >= 2
    ensures Runs(JoinThenDrain, Start(n), steps, t) && t.main.Returned? && |t.threads| == n && t.threads[0] == Done(Misled)
  {
    hide Inv, Runs;
    var o, s := JoinThenDrain, Start(n);
    StartInv(o, n);
    steps, s := Onward(o, Start(n), [], s, Create) by { NoSteps(o, s); }
    steps, s := Onward(o, Start(n), steps, s, Create);
    steps, s := ToSending(Start(n), steps, s, 0);
    steps, s := Onward(o, Start(n), steps, s, Accept(0));
    steps, s := ToSending(Start(n), steps, s, 1);
    steps, s := Onward(o, Start(n), steps, s, Refuse(1));
    steps, s := Onward(o, Start(n), steps, s, Finish(0));
    RunInv(o, Start(n), steps, s);
    var more;
    more, t := CanReturn(o, s);
    DoneForGood(o, s, more, t, 0);
    RunsJoin(o, Start(n), steps, s, more, t);
    steps := steps + more;
  }

  lemma NoSteps(order: Order, s: State)
    ensures Runs(order, s, [], s)
  {}

  lemma Onward(order: Order, start: State, steps: seq<Step>, s: State, step: Step) returns (steps': seq<Step>, t: State)
    requires Runs(order, start, steps, s) && Enabled(order, s, step)
    ensures Runs(order, start, steps', t) && t == Apply(order, s, step)
  {
    hide Enabled, Apply;
    t := Apply(order, s, step);
    OneMore(order, s, step, [], t);
    steps' := steps + ([step] + []);
    RunsJoin(order, start, steps, s, [step] + [], t);
  }

  lemma ToSending(start: State, steps: seq<Step>, s: State, i: nat) returns (steps': seq<Step>, t: State)
    requires Runs(JoinThenDrain, start, steps, s) && i < |s.threads| && s.threads[i] == Informed && !s.fault
    ensures Runs(JoinThenDrain, start, steps', t) && t == s.(threads := s.threads[i := Sending])
  {
    t := s.(threads := s.threads[i := Sending]);
    var more := Sends(s, i);
    RunsJoin(JoinThenDrain, start, steps, s, more, t);
    steps' := steps + more;
  }

  /** Request 0 was refused before any other thread had a call record. */
  ghost predicate Stopped(s: State) {
    && s.fault && s.inFlight == {} && s.threads != [] && s.threads[0] in {Failing(Declined), Done(Declined)}
    && forall i :: 1 <= i < |s.threads| ==> s.threads[i] in {NotCreated, Informed, Done(NoRecord)}
  }

  lemma StoppedStep(s: State)
    requires Inv(JoinThenDrain, s) && Stopped(s) && !s.main.Returned?
    ensures var step := NextStep(JoinThenDrain, s);
      Enabled(JoinThenDrain, s, step) && Stopped(Apply(JoinThenDrain, s, step))
  {
    hide ThreadOk, SomeDeclined;
  }

  lemma {:induction false} StoppedReturn(s: State) returns (steps: seq<Step>, t: State)
    requires Inv(JoinThenDrain, s) && Stopped(s)
    ensures Runs(JoinThenDrain, s, steps, t) && t.main.Returned? && Stopped(t)
    decreases Left(JoinThenDrain, s)
  {
    hide Inv, Enabled, Apply, Left, Stopped;
    if s.main.Returned? {
      steps, t := [], s;
    } else {
      var step := NextStep(JoinThenDrain, s);
      StoppedStep(s);
      StepInv(JoinThenDrain, s, step);
      StepsRunOut(JoinThenDrain, s, step);
      steps, t := StoppedReturn(Apply(JoinThenDrain, s, step));
      OneMore(JoinThenDrain, s, step, steps, t);
      steps := [step] + steps;
    }
  }

  /** For any number of servers, one refused request can keep all others from being sent:
      their threads find the flag and leave without a call record, and no handler runs. */
  lemma OneRefusalStopsAll(n: nat) returns (steps: seq<Step>, t: State)
    requires n >= 1
    ensures Runs(JoinThenDrain, Start(n), steps, t) && t.main.Returned? && |t.threads| == |t.handled| == n
    ensures t.threads[0] == Done(Declined) && forall i :: 1 <= i < n ==> t.threads[i] == Done(NoRecord)
    ensures forall i :: 0 <= i < n ==> t.handled[i] == 0
  {
    hide Inv, Runs;
    var o, s := JoinThenDrain, Start(n);
    StartInv(o, n);
    steps, s := Onward(o, Start(n), [], s, Create) by { NoSteps(o, s); }
    steps, s := ToSending(Start(n), steps, s, 0);
    steps, s := Onward(o, Start(n), steps, s, Refuse(0));
    RunInv(o, Start(n), steps, s);
    var more;
    more, t := StoppedReturn(s);
    RunsJoin(o, Start(n), steps, s, more, t);
    steps := steps + more;
    AtReturn(n, steps, t);
    forall i | 0 <= i < n ensures t.threads[i] == Done(if i == 0 then Declined else NoRecord) && t.handled[i] == 0 {
      assert t.threads[i].Done?;
    }
  }
}
