/**
  What every run of the scheduler and its semaphores keeps: no thread is lost
  or duplicated, tokens are conserved, and the ready queue is fair.
 */
module SchedTheorems {
  import opened Lists
  import opened SchedSpec

  /** The scheduler's part of the invariant. */
  ghost predicate SchedInv(s: Sched) {
    && Distinct(s.ready)
    && (forall t :: t in s.ready ==> t in s.live && t !in s.blocked)
    && s.blocked <= s.live
    && s.idle in s.live && s.idle !in s.blocked
    && (s.current.Some? ==> s.current.value in s.live && s.current.value !in s.blocked)
    && (forall t :: t in s.ready && s.current == Some(t) ==> t == s.idle)
    && (forall t :: t in s.live && t != s.idle ==> s.current == Some(t) || t in s.ready || t in s.blocked)
    && (forall t :: t in s.live ==> t < s.next)
  }

  /** `SchedInv` while the running thread is giving up the processor: it may be blocked already. */
  ghost predicate Leaving(s: Sched) {
    && Distinct(s.ready)
    && (forall t :: t in s.ready ==> t in s.live && t !in s.blocked)
    && s.blocked <= s.live
    && s.idle in s.live && s.idle !in s.blocked
    && (s.current.Some? ==> s.current.value in s.live)
    && (forall t :: t in s.ready && s.current == Some(t) ==> t == s.idle)
    && (forall t :: t in s.live && t != s.idle ==> s.current == Some(t) || t in s.ready || t in s.blocked)
    && (forall t :: t in s.live ==> t < s.next)
  }

  lemma DispatchInv(s: Sched, t: Tid)
    requires Leaving(s) && t in s.live && t !in s.blocked
    requires t !in s.ready || t == s.idle
    ensures SchedInv(Dispatch(s, t))
  {
    if s.current.Some? && s.current.value !in s.ready { DistinctAppend(s.ready, s.current.value); }
  }

  lemma DispatchNextInv(s: Sched)
    requires Leaving(s)
    ensures SchedInv(DispatchNext(s))
  {
    if s.enabled && s.ready != [] {
      DequeueInv(s);
    } else if s.enabled && s.current.Some? && s.current.value !in s.blocked {
      DispatchInv(s, s.current.value);
    } else {
      DispatchInv(s, s.idle);
    }
  }

  /** The front thread leaves the queue and runs at once. */
  lemma DequeueInv(s: Sched)
    requires Leaving(s) && s.ready != []
    ensures SchedInv(Dispatch(s.(ready := s.ready[1..]), s.ready[0]))
  {
    var rest := s.ready[1..];
    DistinctTail(s.ready);
    assert forall t :: t in s.ready <==> t == s.ready[0] || t in rest;
    if s.current.Some? && s.current.value !in rest { DistinctAppend(rest, s.current.value); }
  }

  lemma SpawnInv(s: Sched)
    requires SchedInv(s)
    ensures SchedInv(Spawn(s))
  {
    DistinctAppend(s.ready, s.next);
  }

  lemma BlockInv(s: Sched)
    requires SchedInv(s) && s.current.Some? && s.current.value != s.idle
    ensures SchedInv(Block(s))
    ensures Block(s).blocked == s.blocked + {s.current.value} && Block(s).live == s.live && Block(s).next == s.next
  {
    DispatchNextInv(s.(blocked := s.blocked + {s.current.value}));
  }

  lemma UnblockInv(s: Sched, t: Tid)
    requires SchedInv(s)
    ensures SchedInv(Unblock(s, t))
  {
    if t in s.blocked { DistinctAppend(s.ready, t); }
  }

  lemma UnlinkLeaving(s: Sched, t: Tid)
    requires SchedInv(s) && t in s.live && t != s.idle
    ensures Leaving(Unlink(s, t))
  {
    WithoutDistinct(s.ready, t);
  }

  lemma DeleteInv(s: Sched, t: Tid)
    requires SchedInv(s) && t in s.live && t != s.idle
    ensures SchedInv(Delete(s, t))
    ensures Delete(s, t).live == s.live - {t} && Delete(s, t).blocked == s.blocked - {t} && Delete(s, t).next == s.next
  {
    UnlinkLeaving(s, t);
    if s.current == Some(t) { DispatchNextInv(Unlink(s, t)); } else { assert SchedInv(Unlink(s, t)); }
  }

  // ---------------------------------------------------------------------
  // Semaphores and the whole system
  // ---------------------------------------------------------------------

  /** Every waiting list is free of repetitions, and a free token means that nobody waits. */
  ghost predicate SemInv(m: Sem, next: Tid) {
    && Distinct(m.waiting) && 0 <= m.i && (0 < m.i ==> m.waiting == []) && |m.waiting| <= MAX_WAITING
    && (forall t :: t in m.waiting ==> t < next)
  }

  ghost predicate WaitsIn(sems: map<int, Sem>, t: Tid, m: int) { m in sems && t in sems[m].waiting }

  /** The blocked threads are exactly the live ones in some waiting list, and each is in one list only. */
  ghost predicate WaitInv(y: System) {
    && (forall t :: t in y.sched.blocked ==> exists m :: WaitsIn(y.sems, t, m))
    && (forall m, t :: WaitsIn(y.sems, t, m) && t in y.sched.live ==> t in y.sched.blocked)
    && (forall m, n, t :: WaitsIn(y.sems, t, m) && WaitsIn(y.sems, t, n) && t in y.sched.live ==> m == n)
  }

  ghost predicate Inv(y: System) {
    SchedInv(y.sched) && (forall m :: m in y.sems ==> SemInv(y.sems[m], y.sched.next)) && WaitInv(y)
  }

  lemma {:induction false} FirstLiveDistinct(w: seq<Tid>, live: set<Tid>)
    requires Distinct(w)
    ensures Distinct(FirstLive(w, live))
    ensures |FirstLive(w, live)| <= |w|
  {
    if w != [] && w[0] !in live {
      DistinctTail(w);
      FirstLiveDistinct(w[1..], live);
    }
  }

  lemma SignalInv(m: Sem, live: set<Tid>, next: Tid)
    requires SemInv(m, next)
    ensures var (m', t) := Signal(m, live);
      && SemInv(m', next)
      && (forall x :: x in m'.waiting ==> x in m.waiting)
      && (t.Some? ==> t.value in live && t.value in m.waiting && t.value !in m'.waiting)
      && (forall x :: x in m.waiting && x in live && t != Some(x) ==> x in m'.waiting)
  {
    var w := FirstLive(m.waiting, live);
    FirstLiveDistinct(m.waiting, live);
    if w != [] {
      DistinctTail(w);
      assert forall x :: x in w <==> x == w[0] || x in w[1..];
    }
  }

  lemma {:induction false} UnblockAllInv(s: Sched, w: seq<Tid>)
    requires SchedInv(s)
    ensures SchedInv(UnblockAll(s, w))
    ensures var s' := UnblockAll(s, w);
      s'.live == s.live && s'.next == s.next && (forall t :: t in s'.blocked <==> t in s.blocked && t !in w)
    decreases |w|
  {
    if w != [] {
      UnblockInv(s, w[0]);
      UnblockAllInv(if w[0] in s.live then Unblock(s, w[0]) else s, w[1..]);
    }
  }

  lemma WaitKeepsInv(y: System, m: int)
    requires Inv(y) && Possible(y, Wait(m)) && Step(y, Wait(m)).Some?
    ensures Inv(Step(y, Wait(m)).value)
  {
    var s, sem := y.sched, y.sems[m];
    var z := Step(y, Wait(m)).value;
    if sem.i <= 0 {
      var t := s.current.value;
      assert !WaitsIn(y.sems, t, m);
      BlockInv(s);
      DistinctAppend(sem.waiting, t);
      forall n, x ensures WaitsIn(z.sems, x, n) <==> WaitsIn(y.sems, x, n) || (x == t && n == m) {}
      forall x | x in z.sched.blocked ensures exists n :: WaitsIn(z.sems, x, n) {
        if x == t { assert WaitsIn(z.sems, t, m); }
        else { var n :| WaitsIn(y.sems, x, n); assert WaitsIn(z.sems, x, n); }
      }
    } else {
      forall n, x ensures WaitsIn(z.sems, x, n) <==> WaitsIn(y.sems, x, n) {}
    }
  }

  lemma TryWaitKeepsInv(y: System, m: int)
    requires Inv(y) && Possible(y, TryWait(m))
    ensures Inv(Step(y, TryWait(m)).value)
  {
    var z := Step(y, TryWait(m)).value;
    forall n, x ensures WaitsIn(z.sems, x, n) <==> WaitsIn(y.sems, x, n) {}
  }

  lemma PostKeepsInv(y: System, m: int)
    requires Inv(y) && Possible(y, Post(m))
    ensures Inv(Step(y, Post(m)).value)
  {
    var s := y.sched;
    var z := Step(y, Post(m)).value;
    var (sem, t) := Signal(y.sems[m], s.live);
    SignalInv(y.sems[m], s.live, s.next);
    if t.Some? {
      assert WaitsIn(y.sems, t.value, m);
      UnblockInv(s, t.value);
    }
    forall n, x ensures WaitsIn(z.sems, x, n) ==> WaitsIn(y.sems, x, n) {}
    forall x | x in z.sched.blocked ensures exists n :: WaitsIn(z.sems, x, n) {
      var n :| WaitsIn(y.sems, x, n);
      assert WaitsIn(z.sems, x, n);
    }
    forall n, x | WaitsIn(z.sems, x, n) && x in z.sched.live ensures x in z.sched.blocked {
      assert WaitsIn(y.sems, x, n);
    }
  }

  lemma PostAllKeepsInv(y: System, m: int)
    requires Inv(y) && Possible(y, PostAll(m))
    ensures Inv(Step(y, PostAll(m)).value)
  {
    var z := Step(y, PostAll(m)).value;
    UnblockAllInv(y.sched, y.sems[m].waiting);
    forall n, x ensures WaitsIn(z.sems, x, n) <==> WaitsIn(y.sems, x, n) && n != m {}
    forall x | x in z.sched.blocked ensures exists n :: WaitsIn(z.sems, x, n) {
      var n :| WaitsIn(y.sems, x, n);
      assert WaitsIn(z.sems, x, n);
    }
    forall n, x | WaitsIn(z.sems, x, n) && x in z.sched.live ensures x in z.sched.blocked {
      assert WaitsIn(y.sems, x, n);
      assert WaitsIn(y.sems, x, m) <==> x in y.sems[m].waiting;
    }
  }

  lemma KillKeepsInv(y: System, t: Tid)
    requires Inv(y) && Possible(y, Kill(t))
    ensures Inv(Step(y, Kill(t)).value)
  {
    DeleteInv(y.sched, t);
  }

  lemma StartKeepsInv(y: System)
    requires Inv(y)
    ensures Inv(Step(y, Start).value)
  {
    var z := Step(y, Start).value;
    SpawnInv(y.sched);
    forall m, x | WaitsIn(z.sems, x, m) && x in z.sched.live ensures x in z.sched.blocked {
      assert WaitsIn(y.sems, x, m);
    }
  }

  /** No event loses or duplicates a thread, or spoils a waiting list. */
  lemma StepKeepsInv(y: System, e: Event)
    requires Inv(y) && Possible(y, e) && Step(y, e).Some?
    ensures Inv(Step(y, e).value)
  {
    match e
    case Start => StartKeepsInv(y);
    case Preempt => DispatchNextInv(y.sched);
    case Relinquish => DispatchNextInv(y.sched);
    case Halt => DispatchInv(y.sched.(enabled := false), y.sched.idle);
    case Unhalt =>
    case Wait(m) => WaitKeepsInv(y, m);
    case TryWait(m) => TryWaitKeepsInv(y, m);
    case Post(m) => PostKeepsInv(y, m);
    case PostAll(m) => PostAllKeepsInv(y, m);
    case Kill(t) => KillKeepsInv(y, t);
    case Create(m, i) =>
      var z := Step(y, e).value;
      forall n, x ensures WaitsIn(z.sems, x, n) <==> WaitsIn(y.sems, x, n) {}
  }

  lemma {:induction false} ExecKeepsInv(y: System, run: seq<Event>)
    requires Inv(y) && Exec(y, run).Some?
    ensures Inv(Exec(y, run).value)
    decreases |run|
  {
    if run != [] {
      StepKeepsInv(y, run[0]);
      ExecKeepsInv(Step(y, run[0]).value, run[1..]);
    }
  }

  /** How often x occurs in a list. */
  function Count(s: seq<int>, x: int): nat { multiset(s)[x] }

  lemma {:induction false} DistinctCount(s: seq<int>, x: int)
    requires Distinct(s)
    ensures Count(s, x) == if x in s then 1 else 0
  {
    if s != [] {
      DistinctTail(s);
      DistinctCount(s[1..], x);
      assert s == [s[0]] + s[1..];
    }
  }

  /**
    In every reachable state each thread other than the idle thread is in
    exactly one place: it runs, or it is once in the ready queue, or it is
    blocked and once in the waiting list of exactly one semaphore.
   */
  lemma EveryThreadInOnePlace(y: System, run: seq<Event>, t: Tid)
    requires Reaches(run, y) && t in y.sched.live && t != y.sched.idle
    ensures var running := if y.sched.current == Some(t) then 1 else 0;
      var waiting := if t in y.sched.blocked then 1 else 0;
      running + Count(y.sched.ready, t) + waiting == 1
    ensures t in y.sched.blocked <==> exists m :: WaitsIn(y.sems, t, m)
    ensures forall m :: WaitsIn(y.sems, t, m) ==>
      Count(y.sems[m].waiting, t) == 1 && forall n :: n in y.sems && n != m ==> Count(y.sems[n].waiting, t) == 0
  {
    ExecKeepsInv(Boot(), run);
    DistinctCount(y.sched.ready, t);
    forall m | WaitsIn(y.sems, t, m)
      ensures Count(y.sems[m].waiting, t) == 1 && forall n :: n in y.sems && n != m ==> Count(y.sems[n].waiting, t) == 0
    {
      DistinctCount(y.sems[m].waiting, t);
      forall n | n in y.sems && n != m ensures Count(y.sems[n].waiting, t) == 0 {
        assert !WaitsIn(y.sems, t, n);
        DistinctCount(y.sems[n].waiting, t);
      }
    }
  }
}
