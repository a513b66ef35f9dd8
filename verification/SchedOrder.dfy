/**
  Who runs next: where each event puts a thread in the ready queue, and which
  thread has the processor after it.
 */
module SchedOrder {
  import opened Lists
  import opened SchedSpec
  import opened SchedTheorems
  import opened SchedFairness

  // ---------------------------------------------------------------------
  // Waking up
  // ---------------------------------------------------------------------

  /** A thread that is woken is the next one to run; everybody else waits for one more thread. */
  lemma UnblockedRunsNext(s: Sched, t: Tid)
    requires SchedInv(s) && t in s.blocked
    ensures var r := Unblock(s, t).ready;
      t in r && Position(r, t) == 0 && forall x :: x in s.ready ==> x in r && Position(r, x) == Position(s.ready, x) + 1
    ensures t !in Unblock(s, t).blocked && |Unblock(s, t).ready| == |s.ready| + 1
    ensures s.enabled ==> DispatchNext(Unblock(s, t)).current == Some(t)
  {
    forall x | x in s.ready ensures Position([t] + s.ready, x) == Position(s.ready, x) + 1 { PositionFront(s.ready, x, t); }
  }

  /** Place k of the waiting list is the first one whose thread still exists. */
  ghost predicate OldestWaiter(w: seq<Tid>, live: set<Tid>, k: int) {
    0 <= k < |w| && w[k] in live && forall j :: 0 <= j < k ==> w[j] !in live
  }

  /** After a signal the oldest waiter that exists is the next thread to run, before all that were ready. */
  lemma PostRunsOldestWaiter(y: System, m: int, k: int)
    requires Inv(y) && m in y.sems && y.sched.enabled && OldestWaiter(y.sems[m].waiting, y.sched.live, k)
    ensures Step(y, Post(m)).Some? && Step(Step(y, Post(m)).value, Preempt).Some?
    ensures Step(Step(y, Post(m)).value, Preempt).value.sched.current == Some(y.sems[m].waiting[k])
  {
    var w, t := y.sems[m].waiting, y.sems[m].waiting[k];
    SignalGrantsOldest(y.sems[m], y.sched.live);
    var (m', o) := Signal(y.sems[m], y.sched.live);
    assert t in w && o.Some?;
    var j :| Grants(w, j, o.value, m'.waiting, y.sched.live);
    assert j == k;
    assert WaitsIn(y.sems, t, m);
    UnblockedRunsNext(y.sched, t);
  }

  /** The threads of a waiting list that still exist, in order. */
  function LiveOf(w: seq<Tid>, live: set<Tid>): (r: seq<Tid>)
    ensures forall t :: t in r <==> t in w && t in live
  {
    if w == [] then [] else (if w[0] in live then [w[0]] else []) + LiveOf(w[1..], live)
  }

  function Reverse(s: seq<Tid>): (r: seq<Tid>)
    ensures |r| == |s| && forall i :: 0 <= i < |s| ==> r[i] == s[|s| - 1 - i]
  {
    if s == [] then [] else Reverse(s[1..]) + [s[0]]
  }

  lemma {:induction false} UnblockAllReady(s: Sched, w: seq<Tid>)
    requires Distinct(w) && forall t :: t in w && t in s.live ==> t in s.blocked
    ensures UnblockAll(s, w).ready == Reverse(LiveOf(w, s.live)) + s.ready
    ensures UnblockAll(s, w).enabled == s.enabled
    decreases |w|
  {
    if w == [] {
      assert Reverse([]) + s.ready == s.ready;
    } else {
      DistinctTail(w);
      var h, rest := w[0], LiveOf(w[1..], s.live);
      if h in s.live {
        UnblockAllReady(Unblock(s, h), w[1..]);
        assert ([h] + rest)[1..] == rest;
        assert Reverse(rest) + ([h] + s.ready) == (Reverse(rest) + [h]) + s.ready;
      } else {
        UnblockAllReady(s, w[1..]);
        assert [] + rest == rest;
      }
    }
  }

  /**
    When everyone is released, all waiters that exist get in front of the ready
    threads, the latest one first, since each is put at the front in turn; the
    latest one runs next.
   */
  lemma PostAllReverses(y: System, m: int)
    requires Inv(y) && m in y.sems
    ensures var woken := LiveOf(y.sems[m].waiting, y.sched.live); var z := Step(y, PostAll(m)).value;
      && z.sched.ready == Reverse(woken) + y.sched.ready
      && (y.sched.enabled && woken != [] ==> Step(z, Preempt).value.sched.current == Some(woken[|woken| - 1]))
  {
    var w := y.sems[m].waiting;
    assert SemInv(y.sems[m], y.sched.next);
    forall t | t in w && t in y.sched.live ensures t in y.sched.blocked { assert WaitsIn(y.sems, t, m); }
    UnblockAllReady(y.sched, w);
  }

  // ---------------------------------------------------------------------
  // Taking turns
  // ---------------------------------------------------------------------

  /** A new thread is behind all that are ready. */
  lemma StartedIsLast(s: Sched)
    requires SchedInv(s)
    ensures var r := Spawn(s).ready;
      && s.next in r && Position(r, s.next) == |s.ready| == |r| - 1
      && forall x :: x in s.ready ==> x in r && Position(r, x) == Position(s.ready, x)
  {
    forall x | x in s.ready ensures Position(s.ready + [s.next], x) == Position(s.ready, x) { PositionAppend(s.ready, [s.next], x); }
    PositionOfLast(s.ready, s.next);
  }

  lemma {:induction false} PositionOfLast(s: seq<int>, x: int)
    requires x !in s
    ensures Position(s + [x], x) == |s|
  {
    if s != [] {
      assert (s + [x])[1..] == s[1..] + [x];
      PositionOfLast(s[1..], x);
    }
  }

  /**
    With the scheduler enabled, an event that dispatches runs the front thread of
    the queue. With an empty queue, a thread whose time is up goes on, and one
    that stops is followed by the idle thread. Other events leave the processor
    to the running thread, but for a pause, which gives it to the idle thread.
   */
  lemma DispatchRunsFront(y: System, e: Event)
    requires Inv(y) && Possible(y, e) && Step(y, e).Some? && y.sched.current.Some?
    ensures var s, z := y.sched, Step(y, e).value.sched;
      if e == Halt then z.current == Some(s.idle)
      else if Dispatches(y, e) == 0 then z.current == s.current
      else if !s.enabled then z.current == Some(s.idle)
      else if s.ready != [] then z.current == Some(s.ready[0])
      else z.current == if e == Preempt then s.current else Some(s.idle)
  {
    if e.Kill? { WithoutDistinct(y.sched.ready, e.victim); }
    if e.PostAll? { UnblockAllKeeps(y.sched, y.sems[e.sem].waiting); }
  }

  /** Somebody runs in every reachable state. */
  lemma {:induction false} SomebodyRuns(y: System, run: seq<Event>)
    requires Inv(y) && y.sched.current.Some? && Exec(y, run).Some?
    ensures Exec(y, run).value.sched.current.Some?
    decreases |run|
  {
    if run != [] {
      DispatchRunsFront(y, run[0]);
      StepKeepsInv(y, run[0]);
      SomebodyRuns(Step(y, run[0]).value, run[1..]);
    }
  }

  /** The idle thread runs, and nobody else gets the processor. */
  predicate Paused(s: Sched) { !s.enabled && s.current == Some(s.idle) }

  lemma {:induction false} PausedRun(y: System, run: seq<Event>)
    requires Inv(y) && Paused(y.sched) && Exec(y, run).Some? && Unhalt !in run
    ensures Paused(Exec(y, run).value.sched)
    decreases |run|
  {
    if run != [] {
      assert run[0] in run;
      DispatchRunsFront(y, run[0]);
      StepKeepsInv(y, run[0]);
      PausedStep(y, run[0]);
      PausedRun(Step(y, run[0]).value, run[1..]);
    }
  }

  /** From a pause until the scheduler is resumed only the idle thread runs. */
  lemma PausedRunsIdle(y: System, run: seq<Event>)
    requires Inv(y) && Exec(y, [Halt] + run).Some? && Unhalt !in run
    ensures Paused(Exec(y, [Halt] + run).value.sched)
  {
    assert ([Halt] + run)[1..] == run;
    StepKeepsInv(y, Halt);
    PausedRun(Step(y, Halt).value, run);
  }

  lemma PausedStep(y: System, e: Event)
    requires Inv(y) && Possible(y, e) && Step(y, e).Some? && e != Unhalt && (e == Halt || !y.sched.enabled)
    ensures var z := Step(y, e).value.sched; !z.enabled && z.idle == y.sched.idle
  {
    if e.PostAll? { UnblockAllKeeps(y.sched, y.sems[e.sem].waiting); }
  }

  lemma {:induction false} UnblockAllKeeps(s: Sched, w: seq<Tid>)
    ensures var z := UnblockAll(s, w); z.enabled == s.enabled && z.idle == s.idle && z.current == s.current
    decreases |w|
  {
    if w != [] { UnblockAllKeeps(if w[0] in s.live then Unblock(s, w[0]) else s, w[1..]); }
  }

  /** The scheduler after k preemptions. */
  function Preempted(s: Sched, k: nat): Sched { if k == 0 then s else DispatchNext(Preempted(s, k - 1)) }

  /** The threads of a list, from place k on and round. */
  function Turned(order: seq<Tid>, k: nat): seq<Tid>
    requires k <= |order|
  {
    order[k..] + order[..k]
  }

  /**
    Round robin: threads that only use up their time run one after the other,
    in the order of the queue, and after a full round everything is as before.
   */
  lemma {:induction false} RoundRobin(s: Sched, k: nat)
    requires SchedInv(s) && s.enabled && s.current.Some? && s.current.value != s.idle && s.idle !in s.ready
    requires k <= |s.ready| + 1
    ensures var turned := Turned([s.current.value] + s.ready, k);
      Preempted(s, k) == s.(current := Some(turned[0]), ready := turned[1..])
    ensures k == |s.ready| + 1 ==> Preempted(s, k) == s
  {
    var order := [s.current.value] + s.ready;
    assert order[1..] == s.ready;
    if k == 0 {
      assert Turned(order, 0) == order;
    } else {
      RoundRobin(s, k - 1);
      DistinctAppend(s.ready, s.current.value);
      TurnedOnce(order, k);
      var a := Turned(order, k - 1);
      assert a[0] in order;
      NextTurn(s.(current := Some(a[0]), ready := a[1..]), Turned(order, k));
    }
    if k == |order| { assert Turned(order, k) == order; }
  }

  lemma TurnedOnce(order: seq<Tid>, k: nat)
    requires 0 < k <= |order| && Distinct(order)
    ensures var a, b := Turned(order, k - 1), Turned(order, k);
      a[0] == order[k - 1] && a[1..] + [a[0]] == b && a[0] !in a[1..]
  {
    var a := Turned(order, k - 1);
    forall j | 0 <= j < |a| - 1 ensures a[1..][j] != a[0] {
      var i := if k + j < |order| then k + j else k + j - |order|;
      assert a[1..][j] == order[i];
      assert Differ(order, if i < k - 1 then i else k - 1, if i < k - 1 then k - 1 else i);
    }
  }

  lemma NextTurn(s: Sched, all: seq<Tid>)
    requires s.enabled && s.current.Some? && s.current.value !in s.blocked && s.current.value != s.idle
    requires s.current.value !in s.ready && all == s.ready + [s.current.value]
    ensures DispatchNext(s) == s.(current := Some(all[0]), ready := all[1..])
  {
    assert s.blocked - {s.current.value} == s.blocked;
    if s.ready != [] { assert all[1..] == s.ready[1..] + [s.current.value]; } else { assert all[1..] == s.ready; }
  }
}
