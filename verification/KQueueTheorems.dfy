/** The blocking bounded queue is a correct bounded FIFO under every interleaving of its users. */
module KQueueTheorems {
  import opened Lists
  import opened SchedSpec
  import opened SchedTheorems
  import opened KQueueSpec

  /** The threads of a set that are not waiting: they have been woken, and have not finished. */
  function Woken(ts: set<Tid>, waiting: seq<Tid>): set<Tid> { set t | t in ts && t !in waiting }

  /** Every item is either free to take or meant for a woken reader; every free slot likewise. */
  ghost predicate Balanced<T>(w: World<T>, n: nat)
    requires Equipped(w.q.y)
  {
    var items, space := w.q.y.sems[ITEMS], w.q.y.sems[SPACE];
    && items.i + |Woken(w.readers, items.waiting)| == |w.q.contents|
    && space.i + |Woken(w.writers.Keys, space.waiting)| + |w.q.contents| == n
  }

  ghost predicate UsersInv<T>(w: World<T>)
    requires Equipped(w.q.y)
  {
    && (forall t :: Inside(w, t) ==> t in w.q.y.sched.live)
    && (forall t :: t in w.readers ==> t !in w.writers)
    && (forall t :: t in w.q.y.sems[SPACE].waiting ==> t in w.writers)
    && (forall t :: t in w.q.y.sems[ITEMS].waiting ==> t in w.readers)
    && (forall t :: t in w.writers && t in w.q.y.sched.blocked ==> t in w.q.y.sems[SPACE].waiting)
    && (forall t :: t in w.readers && t in w.q.y.sched.blocked ==> t in w.q.y.sems[ITEMS].waiting)
  }

  ghost predicate WorldInv<T>(w: World<T>, n: nat) {
    && Inv(w.q.y) && Equipped(w.q.y) && UsersInv(w) && Balanced(w, n)
    && w.sent == w.received + w.q.contents
  }

  /** When every waiting thread exists, a signal wakes the oldest one. */
  lemma SignalOldest(m: Sem, live: set<Tid>)
    requires forall t :: t in m.waiting ==> t in live
    ensures Signal(m, live) ==
      if m.waiting == [] then (Sem(m.i + 1, []), None) else (Sem(m.i, m.waiting[1..]), Some(m.waiting[0]))
  {
    if m.waiting != [] {
      var t := m.waiting[0];
      assert t in m.waiting;
    }
  }

  /** Waking the oldest waiting thread adds it to the woken ones. */
  lemma WokenOldest(ts: set<Tid>, w: seq<Tid>)
    requires Distinct(w) && w != [] && w[0] in ts
    ensures Woken(ts, w[1..]) == Woken(ts, w) + {w[0]} && w[0] !in Woken(ts, w)
  {
    DistinctTail(w);
    assert forall t :: t in w <==> t == w[0] || t in w[1..];
  }

  /** A signal adds one to the free tokens and the woken threads together. */
  lemma SignalBalance(m: Sem, live: set<Tid>, next: Tid, ts: set<Tid>)
    requires SemInv(m, next) && ts <= live && forall t :: t in m.waiting ==> t in ts
    ensures var m' := Signal(m, live).0;
      && m'.i + |Woken(ts, m'.waiting)| == m.i + |Woken(ts, m.waiting)| + 1
      && forall t :: t in m'.waiting ==> t in m.waiting
  {
    SignalOldest(m, live);
    if m.waiting != [] {
      var t := m.waiting[0];
      assert t in m.waiting;
      WokenOldest(ts, m.waiting);
    }
  }

  lemma PutKeeps<T>(w: World<T>, x: T, n: nat)
    requires Inv(w.q.y) && Equipped(w.q.y) && UsersInv(w)
    ensures var q := Put(w.q, x);
      && Inv(q.y) && Equipped(q.y) && UsersInv(w.(q := q))
      && q.y.sems[SPACE] == w.q.y.sems[SPACE] && q.y.sched.live == w.q.y.sched.live
      && q.y.sems[ITEMS].i + |Woken(w.readers, q.y.sems[ITEMS].waiting)|
         == w.q.y.sems[ITEMS].i + |Woken(w.readers, w.q.y.sems[ITEMS].waiting)| + 1
  {
    var y := w.q.y;
    StepKeepsInv(y, Post(ITEMS));
    forall t | t in w.readers ensures t in y.sched.live { assert Inside(w, t); }
    SignalBalance(y.sems[ITEMS], y.sched.live, y.sched.next, w.readers);
    forall t ensures Inside(w, t) <==> Inside(w.(q := Put(w.q, x)), t) {}
  }

  lemma GetKeeps<T>(w: World<T>, n: nat)
    requires Inv(w.q.y) && Equipped(w.q.y) && UsersInv(w) && w.q.contents != []
    ensures var q := Get(w.q);
      && Inv(q.y) && Equipped(q.y) && UsersInv(w.(q := q))
      && q.y.sems[ITEMS] == w.q.y.sems[ITEMS] && q.y.sched.live == w.q.y.sched.live
      && q.y.sems[SPACE].i + |Woken(w.writers.Keys, q.y.sems[SPACE].waiting)|
         == w.q.y.sems[SPACE].i + |Woken(w.writers.Keys, w.q.y.sems[SPACE].waiting)| + 1
  {
    var y := w.q.y;
    StepKeepsInv(y, Post(SPACE));
    forall t | t in w.writers.Keys ensures t in y.sched.live { assert Inside(w, t); }
    SignalBalance(y.sems[SPACE], y.sched.live, y.sched.next, w.writers.Keys);
    forall t ensures Inside(w, t) <==> Inside(w.(q := Get(w.q)), t) {}
  }

  /** The unchecked assumptions of `enqueue_` and `dequeue_` always hold. */
  lemma AlwaysSound<T>(w: World<T>, a: Action<T>, n: nat)
    requires WorldInv(w, n) && Allowed(w, a)
    ensures Sound(w, a, n)
  {
    var s := w.q.y.sched;
    if a == EndEnqueue {
      Running(w.q.y, SPACE);
      assert s.current.value in Woken(w.writers.Keys, w.q.y.sems[SPACE].waiting);
    } else if a == EndDequeue {
      Running(w.q.y, ITEMS);
      assert s.current.value in Woken(w.readers, w.q.y.sems[ITEMS].waiting);
    }
  }

  /** The running thread waits for nothing. */
  lemma Running(y: System, m: int)
    requires Inv(y) && y.sched.current.Some? && m in y.sems
    ensures y.sched.current.value !in y.sems[m].waiting
  {
    assert !WaitsIn(y.sems, y.sched.current.value, m);
  }

  /** The running thread waits for m in the middle of its operation; a writer has its item x with it. */
  function Joined<T>(w: World<T>, m: int, x: Option<T>): World<T>
    requires Free(w) && m in w.q.y.sems && Step(w.q.y, Wait(m)).Some? && (m == SPACE ==> x.Some?)
  {
    var t := w.q.y.sched.current.value;
    var w' := w.(q := w.q.(y := Step(w.q.y, Wait(m)).value));
    if m == SPACE then w'.(writers := w.writers[t := x.value]) else w'.(readers := w.readers + {t})
  }

  /** A thread that waits joins the users; nobody is woken by that. */
  lemma BlockedKeeps<T>(w: World<T>, m: int, x: Option<T>, n: nat)
    requires WorldInv(w, n) && Free(w) && (m == ITEMS || m == SPACE)
    requires w.q.y.sems[m].i <= 0 && Step(w.q.y, Wait(m)).Some? && (m == SPACE ==> x.Some?)
    ensures WorldInv(Joined(w, m, x), n)
  {
    var y, t := w.q.y, w.q.y.sched.current.value;
    var z := Step(y, Wait(m)).value;
    StepKeepsInv(y, Wait(m));
    BlockInv(y.sched);
    Running(y, m);
    var w' := Joined(w, m, x);
    forall u ensures Inside(w', u) <==> Inside(w, u) || u == t {}
    assert Woken(w'.writers.Keys, z.sems[SPACE].waiting) == Woken(w.writers.Keys, y.sems[SPACE].waiting);
    assert Woken(w'.readers, z.sems[ITEMS].waiting) == Woken(w.readers, y.sems[ITEMS].waiting);
  }

  /** Taking a free token changes nothing but the counter. */
  lemma TakeKeeps(y: System, m: int)
    requires Inv(y) && m in y.sems && y.sems[m].i > 0
    ensures var z := y.(sems := y.sems[m := y.sems[m].(i := y.sems[m].i - 1)]); Inv(z) && Step(y, TryWait(m)) == Some(z)
  {
    StepKeepsInv(y, TryWait(m));
  }

  lemma PutNow<T>(w: World<T>, x: T, n: nat)
    requires WorldInv(w, n) && w.q.y.sems[SPACE].i > 0
    ensures WorldInv(w.(q := TryEnqueue(w.q, x).value, sent := w.sent + [x]), n)
  {
    TakeKeeps(w.q.y, SPACE);
    var w1 := w.(q := w.q.(y := Step(w.q.y, TryWait(SPACE)).value));
    forall t ensures Inside(w, t) <==> Inside(w1, t) {}
    PutKeeps(w1, x, n);
    forall t ensures Inside(w1, t) <==> Inside(w.(q := Put(w1.q, x), sent := w.sent + [x]), t) {}
  }

  lemma GetNow<T>(w: World<T>, n: nat)
    requires WorldInv(w, n) && w.q.y.sems[ITEMS].i > 0 && w.q.contents != []
    ensures WorldInv(w.(q := TryDequeue(w.q).value, received := w.received + [w.q.contents[0]]), n)
  {
    TakeKeeps(w.q.y, ITEMS);
    var w1 := w.(q := w.q.(y := Step(w.q.y, TryWait(ITEMS)).value));
    forall t ensures Inside(w, t) <==> Inside(w1, t) {}
    GetKeeps(w1, n);
    var w2 := w.(q := Get(w1.q), received := w.received + [w.q.contents[0]]);
    forall t ensures Inside(w1, t) <==> Inside(w2, t) {}
    assert w2.received + w2.q.contents == w.received + w.q.contents;
  }

  /** A woken thread that finishes makes room in the balance for what it puts in or takes out. */
  lemma WokenLeaves(ts: set<Tid>, waiting: seq<Tid>, t: Tid)
    requires t in ts && t !in waiting
    ensures Woken(ts - {t}, waiting) == Woken(ts, waiting) - {t} && t in Woken(ts, waiting)
  {}

  lemma EndEnqueueKeeps<T>(w: World<T>, n: nat)
    requires WorldInv(w, n) && Allowed(w, EndEnqueue) && Sound(w, EndEnqueue, n)
    ensures WorldInv(Act(w, EndEnqueue, n).value, n)
  {
    var t := w.q.y.sched.current.value;
    var w' := Act(w, EndEnqueue, n).value;
    Running(w.q.y, SPACE);
    PutKeeps(w, w.writers[t], n);
    WokenLeaves(w.writers.Keys, w.q.y.sems[SPACE].waiting, t);
    assert w'.writers.Keys == w.writers.Keys - {t};
    forall u ensures Inside(w', u) <==> Inside(w, u) && u != t {}
  }

  lemma EndDequeueKeeps<T>(w: World<T>, n: nat)
    requires WorldInv(w, n) && Allowed(w, EndDequeue) && Sound(w, EndDequeue, n)
    ensures WorldInv(Act(w, EndDequeue, n).value, n)
  {
    var t := w.q.y.sched.current.value;
    var w' := Act(w, EndDequeue, n).value;
    Running(w.q.y, ITEMS);
    GetKeeps(w, n);
    WokenLeaves(w.readers, w.q.y.sems[ITEMS].waiting, t);
    forall u ensures Inside(w', u) <==> Inside(w, u) && u != t {}
    assert w'.received + w'.q.contents == w.received + w.q.contents;
  }

  /** Nobody else touches the queue's semaphores, or ends a thread inside an operation. */
  lemma OutsideKeeps<T>(w: World<T>, e: Event, n: nat)
    requires WorldInv(w, n) && Allowed(w, Outside(e))
    ensures WorldInv(Act(w, Outside(e), n).value, n)
  {
    var y := w.q.y;
    var w' := Act(w, Outside(e), n).value;
    StepKeepsInv(y, e);
    OutsideLive(y, e);
    forall t ensures Inside(w', t) <==> Inside(w, t) {}
  }

  /** Only a killed thread stops existing, and only the running thread can become blocked, by waiting. */
  lemma OutsideLive(y: System, e: Event)
    requires Inv(y) && Possible(y, e) && Step(y, e).Some?
    ensures forall t :: t in y.sched.live && e != Kill(t) ==> t in Step(y, e).value.sched.live
    ensures forall t :: t in Step(y, e).value.sched.blocked ==> t in y.sched.blocked || (e.Wait? && y.sched.current == Some(t))
  {
    match e
    case PostAll(m) => UnblockAllInv(y.sched, y.sems[m].waiting);
    case Kill(t) => DeleteInv(y.sched, t);
    case Wait(m) => if y.sems[m].i <= 0 { BlockInv(y.sched); }
    case _ =>
  }

  /** No action spoils the balance between items, free slots, tokens and woken threads, or the order of the items. */
  lemma ActKeeps<T>(w: World<T>, a: Action<T>, n: nat)
    requires WorldInv(w, n) && Allowed(w, a) && Sound(w, a, n) && Act(w, a, n).Some?
    ensures WorldInv(Act(w, a, n).value, n)
  {
    match a
    case BeginEnqueue(x) =>
      if w.q.y.sems[SPACE].i > 0 { PutNow(w, x, n); } else { BlockedKeeps(w, SPACE, Some(x), n); }
    case EndEnqueue => EndEnqueueKeeps(w, n);
    case BeginDequeue =>
      if w.q.y.sems[ITEMS].i > 0 { GetNow(w, n); } else { BlockedKeeps(w, ITEMS, None, n); }
    case EndDequeue => EndDequeueKeeps(w, n);
    case TryToEnqueue(x) => if w.q.y.sems[SPACE].i > 0 { PutNow(w, x, n); }
    case TryToDequeue => if w.q.y.sems[ITEMS].i > 0 { GetNow(w, n); }
    case Outside(e) => OutsideKeeps(w, e, n);
  }

  /** The worlds that a run of actions leads to; the run ends where an action is not allowed or panics. */
  ghost predicate Leads<T>(w: World<T>, run: seq<Action<T>>, n: nat, w': World<T>)
    decreases |run|
  {
    if run == [] then w == w'
    else Equipped(w.q.y) && Allowed(w, run[0]) && Sound(w, run[0], n) && Act(w, run[0], n).Some?
         && Leads(Act(w, run[0], n).value, run[1..], n, w')
  }

  /**
    The queue is a correct bounded FIFO on every run: it never holds more than
    n items, the items received so far are exactly the first ones sent, in
    order, and the next action finds the room or the item that it assumes.
   */
  lemma BoundedFifo<T>(y: System, n: nat, run: seq<Action<T>>, w: World<T>, a: Action<T>)
    requires Inv(y) && ITEMS !in y.sems && SPACE !in y.sems && Leads(Fresh(y, n), run, n, w)
    ensures WorldInv(w, n) && |w.q.contents| <= n
    ensures w.received <= w.sent && w.sent == w.received + w.q.contents
    ensures Allowed(w, a) ==> Sound(w, a, n)
  {
    FreshInv<T>(y, n);
    LeadsKeeps(Fresh(y, n), run, n, w);
    if Allowed(w, a) { AlwaysSound(w, a, n); }
  }

  lemma FreshInv<T>(y: System, n: nat)
    requires Inv(y) && ITEMS !in y.sems && SPACE !in y.sems
    ensures WorldInv(Fresh<T>(y, n), n)
  {
    StepKeepsInv(y, Create(ITEMS, 0));
    StepKeepsInv(Step(y, Create(ITEMS, 0)).value, Create(SPACE, n));
    var w := Fresh<T>(y, n);
    assert Woken(w.readers, []) == {} && Woken(w.writers.Keys, []) == {};
  }

  lemma {:induction false} LeadsKeeps<T>(w: World<T>, run: seq<Action<T>>, n: nat, w': World<T>)
    requires WorldInv(w, n) && Leads(w, run, n, w')
    ensures WorldInv(w', n)
    decreases |run|
  {
    if run != [] {
      ActKeeps(w, run[0], n);
      LeadsKeeps(Act(w, run[0], n).value, run[1..], n, w');
    }
  }

  /** No wake-up is lost: when a reader waits, every item in the queue already belongs to a woken reader. */
  lemma NoLostWakeup<T>(w: World<T>, n: nat)
    requires WorldInv(w, n)
    ensures w.q.y.sems[ITEMS].waiting != [] ==>
      |Woken(w.readers, w.q.y.sems[ITEMS].waiting)| == |w.q.contents|
    ensures w.q.y.sems[SPACE].waiting != [] ==>
      |Woken(w.writers.Keys, w.q.y.sems[SPACE].waiting)| == n - |w.q.contents|
  {
    assert SemInv(w.q.y.sems[ITEMS], w.q.y.sched.next) && SemInv(w.q.y.sems[SPACE], w.q.y.sched.next);
  }

  ghost function Member<X>(ts: set<X>): (t: X)
    requires ts != {}
    ensures t in ts
  {
    var t :| t in ts;
    t
  }

  /** Readers and writers never all wait for each other: then some thread has been woken and is about to finish. */
  lemma NoDeadlock<T>(w: World<T>, n: nat)
    requires WorldInv(w, n) && 0 < n
    requires w.q.y.sems[ITEMS].waiting != [] && w.q.y.sems[SPACE].waiting != []
    ensures exists t :: t in w.q.y.sched.live && t !in w.q.y.sched.blocked && Inside(w, t)
  {
    NoLostWakeup(w, n);
    var rs := Woken(w.readers, w.q.y.sems[ITEMS].waiting);
    var ws := Woken(w.writers.Keys, w.q.y.sems[SPACE].waiting);
    assert |rs| + |ws| == n;
    var t := if rs != {} then Member(rs) else Member(ws);
    assert Inside(w, t);
  }

  /**
    `enqueue_` of a const reference (lines 64-71 of queue.hh) does not signal: the
    item is in the queue, but no token stands for it, and a waiting reader sleeps
    on. `enqueue` gets there with const items only, since `forward` (line 191 of
    os-std/type-traits.hh) makes rvalues of all others.
   */
  lemma QuietPutLosesItem<T>(w: World<T>, x: T, n: nat)
    requires WorldInv(w, n) && w.q.y.sems[SPACE].i > 0
    ensures var q := Q(Step(w.q.y, TryWait(SPACE)).value, w.q.contents + [x]);
      && !Balanced(w.(q := q), n)
      && q.y.sems[ITEMS].i + |Woken(w.readers, q.y.sems[ITEMS].waiting)| < |q.contents|
      && q.y.sems[ITEMS] == w.q.y.sems[ITEMS]
  {
    assert Step(w.q.y, TryWait(SPACE)).value.sems[ITEMS] == w.q.y.sems[ITEMS];
  }
}
