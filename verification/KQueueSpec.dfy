/**
  The blocking bounded queue of src/kernel/src/ipc/queue.hh inside the system of
  threads and semaphores. A thread that finds no space, or no item, gives up the
  processor in the middle of its operation and finishes it when it runs again;
  anything may happen in between, except that a thread inside an operation is
  killed.
 */
module KQueueSpec {
  import opened Lists
  import opened SchedSpec
  import opened SchedTheorems

  /** The semaphores of the queue. */
  const ITEMS := 0
  const SPACE := 1

  /** The system around the queue, and the items in it, oldest first. */
  datatype Q<T> = Q(y: System, contents: seq<T>)

  /** The two semaphores of the queue exist. */
  predicate Equipped(y: System) { ITEMS in y.sems && SPACE in y.sems }

  /** `enqueue_` of an rvalue: the item enters, and an item is signalled. */
  function Put<T>(q: Q<T>, x: T): Q<T>
    requires Equipped(q.y)
  {
    Q(Step(q.y, Post(ITEMS)).value, q.contents + [x])
  }

  /** `dequeue_`: the oldest item leaves, and space is signalled. */
  function Get<T>(q: Q<T>): Q<T>
    requires Equipped(q.y) && q.contents != []
  {
    Q(Step(q.y, Post(SPACE)).value, q.contents[1..])
  }

  datatype Outcome<T> = Panics | Waits(q: Q<T>) | Done(q: Q<T>)

  /** `enqueue`, up to its end or to the point where the thread has to wait. */
  function Enqueue<T>(q: Q<T>, x: T): Outcome<T>
    requires Equipped(q.y) && Possible(q.y, Wait(SPACE))
  {
    match Step(q.y, Wait(SPACE))
    case None => Panics
    case Some(y) => if q.y.sems[SPACE].i > 0 then Done(Put(Q(y, q.contents), x)) else Waits(Q(y, q.contents))
  }

  /** `dequeue`, up to its end or to the point where the thread has to wait. */
  function Dequeue<T>(q: Q<T>): Outcome<T>
    requires Equipped(q.y) && Possible(q.y, Wait(ITEMS)) && (q.y.sems[ITEMS].i > 0 ==> q.contents != [])
  {
    match Step(q.y, Wait(ITEMS))
    case None => Panics
    case Some(y) => if q.y.sems[ITEMS].i > 0 then Done(Get(Q(y, q.contents))) else Waits(Q(y, q.contents))
  }

  /** `try_enqueue`; None when there is no space. */
  function TryEnqueue<T>(q: Q<T>, x: T): Option<Q<T>>
    requires Equipped(q.y)
  {
    if q.y.sems[SPACE].i > 0 then Some(Put(q.(y := Step(q.y, TryWait(SPACE)).value), x)) else None
  }

  /** `try_dequeue`; None when there is no item. */
  function TryDequeue<T>(q: Q<T>): Option<Q<T>>
    requires Equipped(q.y) && (q.y.sems[ITEMS].i > 0 ==> q.contents != [])
  {
    if q.y.sems[ITEMS].i > 0 then Some(Get(q.(y := Step(q.y, TryWait(ITEMS)).value))) else None
  }

  // ---------------------------------------------------------------------
  // Runs
  // ---------------------------------------------------------------------

  /**
    The queue among its users. writers: the threads inside `enqueue`, each with
    its item; readers: the threads inside `dequeue`. sent and received: all
    items that have entered and left the queue.
   */
  datatype World<T> = World(q: Q<T>, writers: map<Tid, T>, readers: set<Tid>, sent: seq<T>, received: seq<T>)

  datatype Action<T> =
    | BeginEnqueue(x: T)   // the running thread calls enqueue
    | EndEnqueue           // it was woken and goes on after its wait
    | BeginDequeue
    | EndDequeue
    | TryToEnqueue(x: T)
    | TryToDequeue
    | Outside(e: Event)    // anything that is not an operation on this queue

  predicate Inside<T>(w: World<T>, t: Tid) { t in w.writers || t in w.readers }

  /** The running thread is a thread of its own that is not in the middle of an operation. */
  predicate Free<T>(w: World<T>) {
    var s := w.q.y.sched;
    s.current.Some? && s.current.value != s.idle && !Inside(w, s.current.value)
  }

  /** What the users of the queue, and everyone else, may do next. */
  predicate Allowed<T>(w: World<T>, a: Action<T>) {
    var s := w.q.y.sched;
    match a
    case BeginEnqueue(_) => Free(w)
    case EndEnqueue => s.current.Some? && s.current.value in w.writers
    case BeginDequeue => Free(w)
    case EndDequeue => s.current.Some? && s.current.value in w.readers
    case TryToEnqueue(_) => true
    case TryToDequeue => true
    case Outside(e) =>
      && Possible(w.q.y, e) && Step(w.q.y, e).Some?
      && (match e
          case Wait(m) => m != ITEMS && m != SPACE && Free(w)
          case TryWait(m) => m != ITEMS && m != SPACE
          case Post(m) => m != ITEMS && m != SPACE
          case PostAll(m) => m != ITEMS && m != SPACE
          case Kill(t) => !Inside(w, t)
          case _ => true)
  }

  /** What `enqueue_` and `dequeue_` assume without a check: there is room, or an item, when they get to run. */
  predicate Sound<T>(w: World<T>, a: Action<T>, n: nat)
    requires Equipped(w.q.y)
  {
    match a
    case BeginEnqueue(_) => w.q.y.sems[SPACE].i > 0 ==> |w.q.contents| < n
    case EndEnqueue => |w.q.contents| < n
    case BeginDequeue => w.q.y.sems[ITEMS].i > 0 ==> w.q.contents != []
    case EndDequeue => w.q.contents != []
    case TryToEnqueue(_) => w.q.y.sems[SPACE].i > 0 ==> |w.q.contents| < n
    case TryToDequeue => w.q.y.sems[ITEMS].i > 0 ==> w.q.contents != []
    case Outside(_) => true
  }

  /** The world after an action, or None when the kernel panics because a waiting list is full. */
  function Act<T>(w: World<T>, a: Action<T>, n: nat): Option<World<T>>
    requires Equipped(w.q.y) && Allowed(w, a) && Sound(w, a, n)
  {
    var q := w.q;
    var s := q.y.sched;
    match a
    case BeginEnqueue(x) =>
      (match Enqueue(q, x)
       case Panics => None
       case Waits(q') => Some(w.(q := q', writers := w.writers[s.current.value := x]))
       case Done(q') => Some(w.(q := q', sent := w.sent + [x])))
    case EndEnqueue =>
      var x := w.writers[s.current.value];
      Some(w.(q := Put(q, x), writers := w.writers - {s.current.value}, sent := w.sent + [x]))
    case BeginDequeue =>
      (match Dequeue(q)
       case Panics => None
       case Waits(q') => Some(w.(q := q', readers := w.readers + {s.current.value}))
       case Done(q') => Some(w.(q := q', received := w.received + [q.contents[0]])))
    case EndDequeue =>
      Some(w.(q := Get(q), readers := w.readers - {s.current.value}, received := w.received + [q.contents[0]]))
    case TryToEnqueue(x) =>
      Some(match TryEnqueue(q, x) case Some(q') => w.(q := q', sent := w.sent + [x]) case None => w)
    case TryToDequeue =>
      Some(match TryDequeue(q) case Some(q') => w.(q := q', received := w.received + [q.contents[0]]) case None => w)
    case Outside(e) => Some(w.(q := q.(y := Step(q.y, e).value)))
  }

  /** A new queue of capacity n in a system that has been running. */
  function Fresh<T>(y: System, n: nat): World<T> {
    World(Q(y.(sems := y.sems[ITEMS := Sem(0, [])][SPACE := Sem(n, [])]), []), map[], {}, [], [])
  }
}
