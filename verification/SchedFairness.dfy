/** Tokens, arrival order, mutual exclusion and fairness over runs of the scheduler and its semaphores. */
module SchedFairness {
  import opened Lists
  import opened SchedSpec
  import opened SchedTheorems

  // ---------------------------------------------------------------------
  // Conservation of tokens
  // ---------------------------------------------------------------------

  /** Signals of semaphore m in an event. */
  function Posts(e: Event, m: int): nat { if e == Post(m) then 1 else 0 }

  /** Waits on m that an event completes by taking a token: at once, or handed over by a signal. */
  function Takes(y: System, e: Event, m: int): nat
    requires m in y.sems
  {
    if (e == Wait(m) || e == TryWait(m)) && y.sems[m].i > 0 then 1
    else if e == Post(m) && Signal(y.sems[m], y.sched.live).1.Some? then 1
    else 0
  }

  function RunPosts(run: seq<Event>, m: int): nat {
    if run == [] then 0 else Posts(run[0], m) + RunPosts(run[1..], m)
  }

  function RunTakes(y: System, run: seq<Event>, m: int): nat
    requires m in y.sems && Exec(y, run).Some?
    decreases |run|
  {
    if run == [] then 0 else Takes(y, run[0], m) + RunTakes(Step(y, run[0]).value, run[1..], m)
  }

  /**
    A semaphore never gains or loses a token: what it started with and all
    signals are accounted for by its counter and by the completed waits,
    whatever threads are killed and however often everyone is released.
   */
  lemma {:induction false} TokensConserved(y: System, run: seq<Event>, m: int)
    requires m in y.sems && Exec(y, run).Some?
    ensures m in Exec(y, run).value.sems
    ensures y.sems[m].i + RunPosts(run, m) == Exec(y, run).value.sems[m].i + RunTakes(y, run, m)
    decreases |run|
  {
    if run != [] {
      TokensConserved(Step(y, run[0]).value, run[1..], m);
    }
  }

  // ---------------------------------------------------------------------
  // Arrival order
  // ---------------------------------------------------------------------

  /** Place k of the waiting list gets the token: all before it are dead, and all behind it go on waiting. */
  ghost predicate Grants(w: seq<Tid>, k: int, t: Tid, w': seq<Tid>, live: set<Tid>) {
    0 <= k < |w| && w[k] == t && w' == w[k + 1..] && forall j :: 0 <= j < k ==> w[j] !in live
  }

  /** A signal grants the oldest waiter that still exists; only dead waiters are skipped. */
  lemma {:induction false} SignalGrantsOldest(m: Sem, live: set<Tid>)
    ensures var (m', t) := Signal(m, live);
      && (t.None? ==> m' == Sem(m.i + 1, []) && forall x :: x in m.waiting ==> x !in live)
      && (t.Some? ==> m'.i == m.i && t.value in live && exists k :: Grants(m.waiting, k, t.value, m'.waiting, live))
  {
    var k := FirstLiveIndex(m.waiting, live);
    if k < |m.waiting| {
      assert m.waiting[k..][1..] == m.waiting[k + 1..];
      assert Signal(m, live) == (Sem(m.i, m.waiting[k + 1..]), Some(m.waiting[k]));
      assert Grants(m.waiting, k, m.waiting[k], m.waiting[k + 1..], live);
    } else {
      assert Signal(m, live) == (Sem(m.i + 1, []), None);
    }
  }

  lemma {:induction false} FirstLiveIndex(w: seq<Tid>, live: set<Tid>) returns (k: nat)
    ensures k <= |w| && FirstLive(w, live) == w[k..] && forall j :: 0 <= j < k ==> w[j] !in live
  {
    if w == [] || w[0] in live {
      k := 0;
    } else {
      var l := FirstLiveIndex(w[1..], live);
      k := l + 1;
      assert w[1..][l..] == w[k..];
      forall j | 0 <= j < k ensures w[j] !in live { if j > 0 { assert w[j] == w[1..][j - 1]; } }
    }
  }

  ghost predicate Earlier(w: seq<Tid>, a: Tid, b: Tid) { a in w && b in w && Position(w, a) < Position(w, b) }

  lemma {:induction false} PositionDrop(w: seq<Tid>, k: nat, x: Tid)
    requires k <= |w| && x in w && Distinct(w)
    ensures x in w[k..] <==> k <= Position(w, x)
    ensures k <= Position(w, x) ==> Position(w[k..], x) == Position(w, x) - k
    decreases k
  {
    if k > 0 {
      DistinctTail(w);
      if w[0] != x {
        PositionDrop(w[1..], k - 1, x);
        assert w[1..][k - 1..] == w[k..];
      } else {
        assert x !in w[k..] by {
          forall j | 0 <= j < |w[k..]| ensures w[k..][j] != x { assert w[k..][j] == w[1..][k + j - 1]; }
        }
      }
    }
  }

  /** While both exist, the later of two waiters never gets ahead of the earlier one. */
  lemma NoOvertaking(y: System, e: Event, m: int, a: Tid, b: Tid)
    requires Inv(y) && Possible(y, e) && Step(y, e).Some? && m in y.sems
    requires Earlier(y.sems[m].waiting, a, b)
    requires var s := Step(y, e).value.sched; a in s.live && b in s.live
    ensures var w := Step(y, e).value.sems[m].waiting;
      (a in w ==> b in w) && (b in w ==> a !in w || Earlier(w, a, b))
  {
    var w := y.sems[m].waiting;
    var z := Step(y, e).value;
    if e == Post(m) {
      var k := FirstLiveIndex(w, y.sched.live);
      if k < |w| {
        assert FirstLive(w, y.sched.live)[1..] == w[k + 1..];
        PositionDrop(w, k + 1, a);
        PositionDrop(w, k + 1, b);
      }
    } else if e == Wait(m) && y.sems[m].i <= 0 {
      PositionAppend(w, [y.sched.current.value], a);
      PositionAppend(w, [y.sched.current.value], b);
    }
  }

  // ---------------------------------------------------------------------
  // Mutual exclusion
  // ---------------------------------------------------------------------

  /** Lock m is taken and released by its users in turn: only a holder unlocks, and no holder locks again. */
  predicate Disciplined(y: System, holders: set<Tid>, e: Event, m: int) {
    && (e == Post(m) ==> y.sched.current.Some? && y.sched.current.value in holders)
    && (e == Wait(m) ==> y.sched.current.Some? && y.sched.current.value !in holders)
    && (e == TryWait(m) ==> y.sched.current.Some? && y.sched.current.value !in holders)
    && e != PostAll(m)
  }

  /** The threads that hold m after an event; a killed holder never gives the lock back. */
  function Holders(y: System, holders: set<Tid>, e: Event, m: int): set<Tid>
    requires m in y.sems && Disciplined(y, holders, e, m)
  {
    if (e == Wait(m) || e == TryWait(m)) && y.sems[m].i > 0 then holders + {y.sched.current.value}
    else if e == Post(m) then
      holders - {y.sched.current.value}
      + (match Signal(y.sems[m], y.sched.live).1 case Some(t) => {t} case None => {})
    else holders
  }

  function RunHolders(y: System, holders: set<Tid>, run: seq<Event>, m: int): Option<set<Tid>>
    requires m in y.sems && Exec(y, run).Some?
    decreases |run|
  {
    if run == [] then Some(holders)
    else if !Disciplined(y, holders, run[0], m) then None
    else RunHolders(Step(y, run[0]).value, Holders(y, holders, run[0], m), run[1..], m)
  }

  /** Holders and the free token are one together, and nobody waits for a lock he holds. */
  ghost predicate LockInv(y: System, holders: set<Tid>, m: int)
    requires m in y.sems
  {
    |holders| + y.sems[m].i == 1 && forall t :: t in holders ==> t !in y.sems[m].waiting
  }

  lemma LockStep(y: System, holders: set<Tid>, e: Event, m: int)
    requires Inv(y) && Possible(y, e) && Step(y, e).Some? && m in y.sems
    requires LockInv(y, holders, m) && Disciplined(y, holders, e, m)
    ensures LockInv(Step(y, e).value, Holders(y, holders, e, m), m)
  {
    if e == Post(m) {
      SignalInv(y.sems[m], y.sched.live, y.sched.next);
    } else if e == Wait(m) || e == TryWait(m) {
      var c := y.sched.current.value;
      if y.sems[m].i > 0 { assert holders == {}; }
    }
  }

  /** A mutex has at most one holder on every run of locking and unlocking, and is free exactly when it has none. */
  lemma {:induction false} MutualExclusion(y: System, holders: set<Tid>, run: seq<Event>, m: int)
    requires Inv(y) && m in y.sems && Exec(y, run).Some?
    requires LockInv(y, holders, m) && RunHolders(y, holders, run, m).Some?
    ensures m in Exec(y, run).value.sems && LockInv(Exec(y, run).value, RunHolders(y, holders, run, m).value, m)
    ensures |RunHolders(y, holders, run, m).value| <= 1
    decreases |run|
  {
    if run == [] {
      assert SemInv(y.sems[m], y.sched.next);
    } else {
      LockStep(y, holders, run[0], m);
      StepKeepsInv(y, run[0]);
      MutualExclusion(Step(y, run[0]).value, Holders(y, holders, run[0], m), run[1..], m);
    }
  }

  // ---------------------------------------------------------------------
  // Bounded bypass
  // ---------------------------------------------------------------------

  /** Calls of `dispatch_next_thread` in an event. */
  function Dispatches(y: System, e: Event): nat
    requires Possible(y, e)
  {
    match e
    case Preempt => 1
    case Relinquish => if y.sched.current.Some? && y.sched.ready != [] then 1 else 0
    case Wait(m) => if y.sems[m].i > 0 then 0 else 1
    case Kill(t) => if y.sched.current == Some(t) then 1 else 0
    case _ => 0
  }

  /** The threads of a waiting list that still exist. */
  function CountLive(w: seq<Tid>, live: set<Tid>): nat {
    if w == [] then 0 else (if w[0] in live then 1 else 0) + CountLive(w[1..], live)
  }

  /** Threads that an event unblocks. */
  function Unblocks(y: System, e: Event): nat
    requires Possible(y, e)
  {
    match e
    case Post(m) => if Signal(y.sems[m], y.sched.live).1.Some? then 1 else 0
    case PostAll(m) => CountLive(y.sems[m].waiting, y.sched.live)
    case _ => 0
  }

  function RunDispatches(y: System, run: seq<Event>): nat
    requires Exec(y, run).Some?
    decreases |run|
  {
    if run == [] then 0 else Dispatches(y, run[0]) + RunDispatches(Step(y, run[0]).value, run[1..])
  }

  function RunUnblocks(y: System, run: seq<Event>): nat
    requires Exec(y, run).Some?
    decreases |run|
  {
    if run == [] then 0 else Unblocks(y, run[0]) + RunUnblocks(Step(y, run[0]).value, run[1..])
  }

  /** The scheduler stays enabled, and thread t is neither killed nor ever dispatched during the run. */
  predicate PassesOver(y: System, run: seq<Event>, t: Tid)
    requires Exec(y, run).Some?
    decreases |run|
  {
    run == [] ||
    (run[0] != Kill(t) && run[0] != Halt
     && var z := Step(y, run[0]).value; z.sched.current != Some(t) && PassesOver(z, run[1..], t))
  }

  lemma DispatchNextPosition(s: Sched, t: Tid)
    requires s.enabled && t in s.ready && s.current != Some(t) && DispatchNext(s).current != Some(t)
    ensures t in DispatchNext(s).ready && Position(DispatchNext(s).ready, t) + 1 == Position(s.ready, t)
  {
    var rest := s.ready[1..];
    assert t in rest;
    if s.current.Some? { PositionAppend(rest, [s.current.value], t); }
  }

  lemma {:induction false} UnblockAllPosition(s: Sched, w: seq<Tid>, t: Tid)
    requires t in s.ready && t !in s.blocked
    ensures UnblockAll(s, w).enabled == s.enabled
    ensures t in UnblockAll(s, w).ready && Position(UnblockAll(s, w).ready, t) <= Position(s.ready, t) + CountLive(w, s.live)
    decreases |w|
  {
    if w != [] {
      var s' := if w[0] in s.live then Unblock(s, w[0]) else s;
      if w[0] in s.live && w[0] in s.blocked { PositionFront(s.ready, t, w[0]); }
      UnblockAllPosition(s', w[1..], t);
    }
  }

  lemma WaitPosition(y: System, m: int, t: Tid)
    requires Inv(y) && Possible(y, Wait(m)) && Step(y, Wait(m)).Some? && y.sched.enabled && y.sems[m].i <= 0
    requires t in y.sched.ready && y.sched.current != Some(t) && Step(y, Wait(m)).value.sched.current != Some(t)
    ensures var z := Step(y, Wait(m)).value;
      z.sched.enabled && t in z.sched.ready && Position(z.sched.ready, t) + 1 == Position(y.sched.ready, t)
  {
    DispatchNextPosition(y.sched.(blocked := y.sched.blocked + {y.sched.current.value}), t);
  }

  lemma KillPosition(y: System, x: Tid, t: Tid)
    requires Inv(y) && Possible(y, Kill(x)) && y.sched.enabled && x != t
    requires t in y.sched.ready && y.sched.current != Some(t) && Step(y, Kill(x)).value.sched.current != Some(t)
    ensures var z := Step(y, Kill(x)).value;
      && z.sched.enabled && t in z.sched.ready
      && Position(z.sched.ready, t) + Dispatches(y, Kill(x)) <= Position(y.sched.ready, t)
  {
    PositionWithout(y.sched.ready, t, x);
    if y.sched.current == Some(x) { DispatchNextPosition(Unlink(y.sched, x), t); }
  }

  lemma PostPosition(y: System, m: int, t: Tid)
    requires Inv(y) && Possible(y, Post(m)) && t in y.sched.ready
    ensures var z := Step(y, Post(m)).value;
      && z.sched.enabled == y.sched.enabled && t in z.sched.ready
      && Position(z.sched.ready, t) <= Position(y.sched.ready, t) + Unblocks(y, Post(m))
  {
    var g := Signal(y.sems[m], y.sched.live).1;
    if g.Some? && g.value in y.sched.blocked { PositionFront(y.sched.ready, t, g.value); }
  }

  /** Every dispatch brings a waiting thread one place forward; only an unblocked thread can get in front. */
  lemma StepPosition(y: System, e: Event, t: Tid)
    requires Inv(y) && Possible(y, e) && Step(y, e).Some? && y.sched.enabled
    requires t in y.sched.ready && y.sched.current != Some(t)
    requires e != Kill(t) && e != Halt && Step(y, e).value.sched.current != Some(t)
    ensures var z := Step(y, e).value;
      && z.sched.enabled && t in z.sched.ready
      && Position(z.sched.ready, t) + Dispatches(y, e) <= Position(y.sched.ready, t) + Unblocks(y, e)
  {
    var s := y.sched;
    match e
    case Start => PositionAppend(s.ready, [s.next], t);
    case Preempt => DispatchNextPosition(s, t);
    case Relinquish => if s.current.Some? { DispatchNextPosition(s, t); }
    case Wait(m) => if y.sems[m].i <= 0 { WaitPosition(y, m, t); }
    case Post(m) => PostPosition(y, m, t);
    case PostAll(m) => UnblockAllPosition(s, y.sems[m].waiting, t);
    case Kill(x) => KillPosition(y, x, t);
    case _ =>
  }

  /**
    Bounded bypass: a thread at position k of the ready queue that is not
    deleted runs by the (k + 1 + u)-th dispatch, where u is the number of
    threads unblocked in between. For as long as it has been passed over, there
    have been at most k + u dispatches, and every one of them brought it closer.
   */
  lemma {:induction false} BoundedBypass(y: System, run: seq<Event>, t: Tid)
    requires Inv(y) && y.sched.enabled && t in y.sched.ready && y.sched.current != Some(t)
    requires Exec(y, run).Some? && PassesOver(y, run, t)
    ensures t in Exec(y, run).value.sched.ready
    ensures Position(Exec(y, run).value.sched.ready, t) + RunDispatches(y, run)
         <= Position(y.sched.ready, t) + RunUnblocks(y, run)
    decreases |run|
  {
    if run != [] {
      StepPosition(y, run[0], t);
      StepKeepsInv(y, run[0]);
      BoundedBypass(Step(y, run[0]).value, run[1..], t);
    }
  }
}
