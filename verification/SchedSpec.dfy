/**
  The scheduler and the semaphores of the kernel as one transition system. The
  kernel runs on one processor with interrupts off, so every event below is
  atomic; a thread that waits gives up the processor inside its event and goes
  on, in a later event, when the scheduler dispatches it again.
 */
module SchedSpec {
  import opened Lists

  type Tid = int

  /**
    live: the threads that exist. ready: the ready queue, front first.
    current: the running thread. blocked: the threads with their flag set.
    next: the number of the next thread.
   */
  datatype Sched = Sched(live: set<Tid>, ready: seq<Tid>, current: Option<Tid>, blocked: set<Tid>,
                         idle: Tid, enabled: bool, next: Tid)

  function Enqueue(s: Sched, t: Tid): Sched { s.(ready := s.ready + [t], blocked := s.blocked - {t}) }

  function EnqueueFront(s: Sched, t: Tid): Sched { s.(ready := [t] + s.ready, blocked := s.blocked - {t}) }

  /** The bookkeeping of `dispatch`: an old thread that is not blocked goes to the back of the queue. */
  function Dispatch(s: Sched, t: Tid): Sched {
    var s' := s.(current := Some(t));
    match s.current
    case Some(prev) => if prev !in s.blocked && prev != t && prev != s.idle then Enqueue(s', prev) else s'
    case None => s'
  }

  function DispatchNext(s: Sched): Sched {
    if !s.enabled then Dispatch(s, s.idle)
    else if s.ready != [] then Dispatch(s.(ready := s.ready[1..]), s.ready[0])
    else match s.current
      case Some(prev) => if prev !in s.blocked then Dispatch(s, prev) else Dispatch(s, s.idle)
      case None => Dispatch(s, s.idle)
  }

  /** `yield(false)`: nothing happens when nobody else is ready. */
  function Yield(s: Sched): Sched { if s.current.Some? && s.ready != [] then DispatchNext(s) else s }

  /** `block`: the running thread is marked blocked and another one is dispatched. */
  function Block(s: Sched): Sched
    requires s.current.Some?
  {
    DispatchNext(s.(blocked := s.blocked + {s.current.value}))
  }

  function Unblock(s: Sched, t: Tid): Sched { if t in s.blocked then EnqueueFront(s, t) else s }

  /** `make_kernel_thread`, and the thread of `make_proc`. */
  function Spawn(s: Sched): Sched { Enqueue(s.(live := s.live + {s.next}, next := s.next + 1), s.next) }

  /** The list updates of `delete_thread`. */
  function Unlink(s: Sched, t: Tid): Sched {
    s.(live := s.live - {t}, ready := Without(s.ready, t), blocked := s.blocked - {t},
       current := if s.current == Some(t) then None else s.current)
  }

  /** `delete_thread`; a running thread hands the processor on. */
  function Delete(s: Sched, t: Tid): Sched {
    if s.current == Some(t) then DispatchNext(Unlink(s, t)) else Unlink(s, t)
  }

  /** `pause`: the scheduler is disabled and the idle thread takes over. */
  function Pause(s: Sched): Sched { Dispatch(s.(enabled := false), s.idle) }

  function Resume(s: Sched): Sched { s.(enabled := true) }

  // ---------------------------------------------------------------------
  // Semaphores
  // ---------------------------------------------------------------------

  /** `semaphore_max_waiting` */
  const MAX_WAITING := 32

  datatype Sem = Sem(i: int, waiting: seq<Tid>)

  /** The waiting list from its first thread that still exists. */
  function FirstLive(w: seq<Tid>, live: set<Tid>): (r: seq<Tid>)
    ensures r != [] ==> r[0] in live
    ensures forall t :: t in r ==> t in w
    ensures forall t :: t in w && t !in r ==> t !in live
  {
    if w == [] || w[0] in live then w else FirstLive(w[1..], live)
  }

  /** `signal`: the semaphore afterwards, and the thread to unblock. */
  function Signal(sem: Sem, live: set<Tid>): (Sem, Option<Tid>) {
    var w := FirstLive(sem.waiting, live);
    if w == [] then (Sem(sem.i + 1, []), None) else (Sem(sem.i, w[1..]), Some(w[0]))
  }

  /** `signal_all`: every waiting thread that still exists is unblocked, in order. */
  function UnblockAll(s: Sched, w: seq<Tid>): Sched
    decreases |w|
  {
    if w == [] then s
    else UnblockAll(if w[0] in s.live then Unblock(s, w[0]) else s, w[1..])
  }

  // ---------------------------------------------------------------------
  // The system
  // ---------------------------------------------------------------------

  datatype System = System(sched: Sched, sems: map<int, Sem>)

  datatype Event =
    | Start                      // a new thread
    | Preempt                    // the timer takes the processor away
    | Relinquish                 // yield
    | Halt                       // pause
    | Unhalt                     // resume
    | Wait(sem: int)
    | TryWait(sem: int)
    | Post(sem: int)             // signal
    | PostAll(sem: int)          // signal_all
    | Kill(victim: Tid)
    | Create(sem: int, i: nat)   // a new semaphore

  /** What the callers of each event guarantee. The idle thread never waits and is never killed. */
  predicate Possible(y: System, e: Event) {
    match e
    case Start => true
    case Preempt => true
    case Relinquish => true
    case Halt => true
    case Unhalt => true
    case Wait(m) => m in y.sems && y.sched.current.Some? && y.sched.current.value != y.sched.idle
    case TryWait(m) => m in y.sems
    case Post(m) => m in y.sems
    case PostAll(m) => m in y.sems
    case Kill(t) => t in y.sched.live && t != y.sched.idle
    case Create(m, _) => m !in y.sems
  }

  /** The system after an event, or None when the kernel panics because a waiting list is full. */
  function Step(y: System, e: Event): Option<System>
    requires Possible(y, e)
  {
    var s := y.sched;
    match e
    case Start => Some(y.(sched := Spawn(s)))
    case Preempt => Some(y.(sched := DispatchNext(s)))
    case Relinquish => Some(y.(sched := Yield(s)))
    case Halt => Some(y.(sched := Pause(s)))
    case Unhalt => Some(y.(sched := Resume(s)))
    case Wait(m) =>
      var sem := y.sems[m];
      if sem.i > 0 then Some(y.(sems := y.sems[m := sem.(i := sem.i - 1)]))
      else if |sem.waiting| == MAX_WAITING then None
      else Some(System(Block(s), y.sems[m := sem.(waiting := sem.waiting + [s.current.value])]))
    case TryWait(m) =>
      var sem := y.sems[m];
      Some(if sem.i > 0 then y.(sems := y.sems[m := sem.(i := sem.i - 1)]) else y)
    case Post(m) =>
      var (sem, t) := Signal(y.sems[m], s.live);
      Some(System(if t.Some? then Unblock(s, t.value) else s, y.sems[m := sem]))
    case PostAll(m) =>
      Some(System(UnblockAll(s, y.sems[m].waiting), y.sems[m := y.sems[m].(waiting := [])]))
    case Kill(t) => Some(y.(sched := Delete(s, t)))
    case Create(m, i) => Some(y.(sems := y.sems[m := Sem(i, [])]))
  }

  /** After `init` and `run`: the idle thread runs, and is still in the queue from its creation. */
  function Boot(): System {
    System(Sched({0}, [0], Some(0), {}, 0, true, 1), map[])
  }

  /** The system after a run of events, or None if one of them is impossible or panics. */
  function Exec(y: System, run: seq<Event>): Option<System>
    decreases |run|
  {
    if run == [] then Some(y)
    else if !Possible(y, run[0]) then None
    else match Step(y, run[0])
      case None => None
      case Some(z) => Exec(z, run[1..])
  }

  /** The run leads from the start of the system to state y. */
  predicate Reaches(run: seq<Event>, y: System) { Exec(Boot(), run) == Some(y) }
}
