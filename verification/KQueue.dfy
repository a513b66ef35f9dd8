/**
  The queue of src/kernel/src/ipc/queue.hh: a ring of N items guarded by two
  semaphores. An operation that has to wait is two methods here, one up to the
  wait and one from it; each is tied to the step of the same name on the
  contents of the queue and the system of threads and semaphores around it.
  The parameter `others` stands for the semaphores outside the queue.
 */
module KQueue {
  import opened Lists
  import K = KQueueSpec
  import RingQueue
  import S = SchedSpec
  import Scheduler
  import Semaphore

  datatype Outcome = Panics | Waits | Done

  ghost function Whole<T>(s: S.Sched, items: S.Sem, space: S.Sem, contents: seq<T>, others: map<int, S.Sem>): (q: K.Q<T>)
    ensures K.Equipped(q.y) && q.y.sched == s && q.contents == contents
    ensures q.y.sems[K.ITEMS] == items && q.y.sems[K.SPACE] == space
  {
    K.Q(S.System(s, others[K.ITEMS := items][K.SPACE := space]), contents)
  }

  lemma Overwrite(others: map<int, S.Sem>, items: S.Sem, space: S.Sem, sem: S.Sem)
    ensures others[K.ITEMS := items][K.SPACE := space][K.ITEMS := sem] == others[K.ITEMS := sem][K.SPACE := space]
    ensures others[K.ITEMS := items][K.SPACE := space][K.SPACE := sem] == others[K.ITEMS := items][K.SPACE := sem]
  {}

  lemma PutIs<T>(s: S.Sched, items: S.Sem, space: S.Sem, contents: seq<T>, others: map<int, S.Sem>, x: T)
    ensures var (sem, t) := S.Signal(items, s.live);
      K.Put(Whole(s, items, space, contents, others), x)
      == Whole(if t.Some? then S.Unblock(s, t.value) else s, sem, space, contents + [x], others)
  {
    Overwrite(others, items, space, S.Signal(items, s.live).0);
  }

  lemma GetIs<T>(s: S.Sched, items: S.Sem, space: S.Sem, contents: seq<T>, others: map<int, S.Sem>)
    requires contents != []
    ensures var (sem, t) := S.Signal(space, s.live);
      K.Get(Whole(s, items, space, contents, others))
      == Whole(if t.Some? then S.Unblock(s, t.value) else s, items, sem, contents[1..], others)
  {
    Overwrite(others, items, space, S.Signal(space, s.live).0);
  }

  /** The waiting list of a semaphore with one more thread. */
  ghost function Joined(m: S.Sem, t: S.Tid): S.Sem { m.(waiting := m.waiting + [t]) }

  lemma EnqueueIs<T>(s: S.Sched, items: S.Sem, space: S.Sem, contents: seq<T>, others: map<int, S.Sem>, x: T)
    requires s.current.Some? && s.current.value != s.idle
    ensures K.Enqueue(Whole(s, items, space, contents, others), x)
         == if space.i > 0 then K.Done(K.Put(Whole(s, items, space.(i := space.i - 1), contents, others), x))
            else if |space.waiting| == S.MAX_WAITING then K.Panics
            else K.Waits(Whole(S.Block(s), items, Joined(space, s.current.value), contents, others))
  {
    Overwrite(others, items, space, space.(i := space.i - 1));
    Overwrite(others, items, space, Joined(space, s.current.value));
  }

  lemma DequeueIs<T>(s: S.Sched, items: S.Sem, space: S.Sem, contents: seq<T>, others: map<int, S.Sem>)
    requires s.current.Some? && s.current.value != s.idle && (items.i > 0 ==> contents != [])
    ensures K.Dequeue(Whole(s, items, space, contents, others))
         == if items.i > 0 then K.Done(K.Get(Whole(s, items.(i := items.i - 1), space, contents, others)))
            else if |items.waiting| == S.MAX_WAITING then K.Panics
            else K.Waits(Whole(S.Block(s), Joined(items, s.current.value), space, contents, others))
  {
    Overwrite(others, items, space, items.(i := items.i - 1));
    Overwrite(others, items, space, Joined(items, s.current.value));
  }

  lemma TryEnqueueIs<T>(s: S.Sched, items: S.Sem, space: S.Sem, contents: seq<T>, others: map<int, S.Sem>, x: T)
    ensures K.TryEnqueue(Whole(s, items, space, contents, others), x)
         == if space.i > 0 then Some(K.Put(Whole(s, items, space.(i := space.i - 1), contents, others), x)) else None
  {
    Overwrite(others, items, space, space.(i := space.i - 1));
  }

  lemma TryDequeueIs<T>(s: S.Sched, items: S.Sem, space: S.Sem, contents: seq<T>, others: map<int, S.Sem>)
    requires items.i > 0 ==> contents != []
    ensures K.TryDequeue(Whole(s, items, space, contents, others))
         == if items.i > 0 then Some(K.Get(Whole(s, items.(i := items.i - 1), space, contents, others))) else None
  {
    Overwrite(others, items, space, items.(i := items.i - 1));
  }

  class KQueue<T(0)> {
    const ring: RingQueue.Queue<T>
    const items: Semaphore.Semaphore
    const space: Semaphore.Semaphore

    ghost predicate Valid()
      reads this, ring, items, space, items.waiting, space.waiting
    {
      && ring.Valid() && items.Valid() && space.Valid()
      && items != space && items.waiting != space.waiting && items.waiting.items != space.waiting.items
      && Apart(items) && Apart(space)
    }

    /** The ring is not the waiting list of a semaphore. */
    ghost predicate Apart(m: Semaphore.Semaphore) {
      var r: object, w: object := ring, m.waiting;
      var rs: object, ws: object := ring.items, m.waiting.items;
      r != w && rs != ws
    }

    /** The contents and the system, with the queue's own semaphores in their places. */
    ghost function View(k: Scheduler.Scheduler, others: map<int, S.Sem>): (q: K.Q<T>)
      requires Valid()
      reads this, ring, ring.items, items, space, items.waiting, space.waiting, items.waiting.items, space.waiting.items
      reads k, k.queue, k.threads.Values
      ensures K.Equipped(q.y) && q.y.sched == k.Abs() && q.contents == ring.Contents()
      ensures q.y.sems[K.ITEMS] == items.Abs() && q.y.sems[K.SPACE] == space.Abs()
    {
      Whole(k.Abs(), items.Abs(), space.Abs(), ring.Contents(), others)
    }

    constructor (capacity: nat)
      requires 0 < capacity
      ensures Valid() && ring.Contents() == [] && ring.items.Length == capacity
      ensures items.Abs() == S.Sem(0, []) && space.Abs() == S.Sem(capacity, [])
    {
      ring := new RingQueue.Queue(capacity);
      items := new Semaphore.Semaphore(0);
      space := new Semaphore.Semaphore(capacity);
    }

    /** An item enters the ring. */
    method Insert(k: Scheduler.Scheduler, x: T)
      requires Valid() && k.Valid() && |ring.Contents()| < ring.items.Length
      modifies ring, ring.items
      ensures Valid() && k.Valid() && ring.Contents() == old(ring.Contents()) + [x]
      ensures k.Abs() == old(k.Abs()) && items.Abs() == old(items.Abs()) && space.Abs() == old(space.Abs())
    {
      ring.Push(x);
      k.Untouched();
      items.Untouched();
      space.Untouched();
    }

    method SignalItems(k: Scheduler.Scheduler)
      requires Valid() && k.Valid()
      modifies items`i, items.waiting, k.queue, k.threads.Values
      ensures Valid() && k.Valid() && ring.Contents() == old(ring.Contents()) && space.Abs() == old(space.Abs())
      ensures var (sem, t) := S.Signal(old(items.Abs()), old(k.Abs()).live);
        && items.Abs() == sem
        && k.Abs() == if t.Some? then S.Unblock(old(k.Abs()), t.value) else old(k.Abs())
    {
      items.Signal(k);
      ring.Untouched();
      space.Untouched();
    }

    /** `enqueue_` */
    method Put(k: Scheduler.Scheduler, x: T, ghost others: map<int, S.Sem>)
      requires Valid() && k.Valid() && |ring.Contents()| < ring.items.Length
      modifies ring, ring.items, items`i, items.waiting, k.queue, k.threads.Values
      ensures Valid() && k.Valid()
      ensures View(k, others) == K.Put(old(View(k, others)), x)
    {
      PutIs(k.Abs(), items.Abs(), space.Abs(), ring.Contents(), others, x);
      Insert(k, x);
      SignalItems(k);
    }

    /** An item leaves the ring. */
    method Extract(k: Scheduler.Scheduler) returns (x: T)
      requires Valid() && k.Valid() && ring.Contents() != []
      modifies ring
      ensures Valid() && k.Valid() && old(ring.Contents()) == [x] + ring.Contents()
      ensures k.Abs() == old(k.Abs()) && items.Abs() == old(items.Abs()) && space.Abs() == old(space.Abs())
    {
      x := ring.Pop();
      k.Untouched();
      items.Untouched();
      space.Untouched();
    }

    method SignalSpace(k: Scheduler.Scheduler)
      requires Valid() && k.Valid()
      modifies space`i, space.waiting, k.queue, k.threads.Values
      ensures Valid() && k.Valid() && ring.Contents() == old(ring.Contents()) && items.Abs() == old(items.Abs())
      ensures var (sem, t) := S.Signal(old(space.Abs()), old(k.Abs()).live);
        && space.Abs() == sem
        && k.Abs() == if t.Some? then S.Unblock(old(k.Abs()), t.value) else old(k.Abs())
    {
      space.Signal(k);
      ring.Untouched();
      items.Untouched();
    }

    /** `dequeue_` */
    method Get(k: Scheduler.Scheduler, ghost others: map<int, S.Sem>) returns (x: T)
      requires Valid() && k.Valid() && ring.Contents() != []
      modifies ring, space`i, space.waiting, k.queue, k.threads.Values
      ensures Valid() && k.Valid()
      ensures x == old(ring.Contents())[0] && View(k, others) == K.Get(old(View(k, others)))
    {
      GetIs(k.Abs(), items.Abs(), space.Abs(), ring.Contents(), others);
      ghost var was := ring.Contents();
      x := Extract(k);
      assert was[0] == x && was[1..] == ring.Contents();
      SignalSpace(k);
    }

    /** `dequeue_` in a state whose parts are given as values. */
    method GetFrom(k: Scheduler.Scheduler, ghost s0: S.Sched, ghost i0: S.Sem, ghost p0: S.Sem, ghost c0: seq<T>,
                   ghost others: map<int, S.Sem>)
      returns (x: T)
      requires Valid() && k.Valid() && ring.Contents() == c0 != []
      requires k.Abs() == s0 && items.Abs() == i0 && space.Abs() == p0
      modifies ring, space`i, space.waiting, k.queue, k.threads.Values
      ensures Valid() && k.Valid()
      ensures x == c0[0] && View(k, others) == K.Get(Whole(s0, i0, p0, c0, others))
    {
      x := Get(k, others);
    }

    /** `wait(space_available)` */
    method WaitForSpace(k: Scheduler.Scheduler) returns (o: Outcome)
      requires Valid() && k.Valid() && k.current != null && k.current != k.idle
      modifies space`i, space.waiting, space.waiting.items, k`current, k.queue, k.threads.Values
      ensures Valid() && k.Valid() && ring.Contents() == old(ring.Contents()) && items.Abs() == old(items.Abs())
      ensures o == if old(space.i) > 0 then Done else if |old(space.Abs()).waiting| == S.MAX_WAITING then Panics else Waits
      ensures space.Abs() == match o
        case Done => old(space.Abs()).(i := old(space.i) - 1)
        case Waits => Joined(old(space.Abs()), old(k.current.id))
        case Panics => old(space.Abs())
      ensures k.Abs() == if o == Waits then S.Block(old(k.Abs())) else old(k.Abs())
    {
      var free := space.i > 0;
      var ok := space.Wait(k);
      o := if free then Done else if ok then Waits else Panics;
      ring.Untouched();
      items.Untouched();
    }

    /** `wait(items_available)` */
    method WaitForItem(k: Scheduler.Scheduler) returns (o: Outcome)
      requires Valid() && k.Valid() && k.current != null && k.current != k.idle
      modifies items`i, items.waiting, items.waiting.items, k`current, k.queue, k.threads.Values
      ensures Valid() && k.Valid() && ring.Contents() == old(ring.Contents()) && space.Abs() == old(space.Abs())
      ensures o == if old(items.i) > 0 then Done else if |old(items.Abs()).waiting| == S.MAX_WAITING then Panics else Waits
      ensures items.Abs() == match o
        case Done => old(items.Abs()).(i := old(items.i) - 1)
        case Waits => Joined(old(items.Abs()), old(k.current.id))
        case Panics => old(items.Abs())
      ensures k.Abs() == if o == Waits then S.Block(old(k.Abs())) else old(k.Abs())
    {
      var free := items.i > 0;
      var ok := items.Wait(k);
      o := if free then Done else if ok then Waits else Panics;
      ring.Untouched();
      space.Untouched();
    }

    /** `enqueue`, up to its end or to the wait; a thread that was woken goes on with `Put`. */
    method Enqueue(k: Scheduler.Scheduler, x: T, ghost others: map<int, S.Sem>) returns (o: Outcome)
      requires Valid() && k.Valid() && k.current != null && k.current != k.idle
      requires space.i > 0 ==> |ring.Contents()| < ring.items.Length
      modifies ring, ring.items, items`i, items.waiting
      modifies space`i, space.waiting, space.waiting.items, k`current, k.queue, k.threads.Values
      ensures Valid() && k.Valid()
      ensures match K.Enqueue(old(View(k, others)), x)
        case Done(q) => o == Done && View(k, others) == q
        case Waits(q) => o == Waits && View(k, others) == q
        case Panics => o == Panics && View(k, others) == old(View(k, others))
    {
      EnqueueIs(k.Abs(), items.Abs(), space.Abs(), ring.Contents(), others, x);
      o := WaitForSpace(k);
      if o == Done { Put(k, x, others); }
    }

    /** `dequeue`, up to its end or to the wait; a thread that was woken goes on with `Get`. */
    method Dequeue(k: Scheduler.Scheduler, x0: T, ghost others: map<int, S.Sem>) returns (o: Outcome, x: T)
      requires Valid() && k.Valid() && k.current != null && k.current != k.idle
      requires items.i > 0 ==> ring.Contents() != []
      modifies ring, space`i, space.waiting
      modifies items`i, items.waiting, items.waiting.items, k`current, k.queue, k.threads.Values
      ensures Valid() && k.Valid()
      ensures match K.Dequeue(old(View(k, others)))
        case Done(q) => o == Done && View(k, others) == q
        case Waits(q) => o == Waits && View(k, others) == q
        case Panics => o == Panics && View(k, others) == old(View(k, others))
      ensures o == Done ==> old(ring.Contents()) != [] && x == old(ring.Contents())[0]
    {
      ghost var s0, i0, p0, c0 := k.Abs(), items.Abs(), space.Abs(), ring.Contents();
      DequeueIs(s0, i0, p0, c0, others);
      x := x0;
      o := WaitForItem(k);
      if o == Done {
        ghost var v := View(k, others);
        assert v == Whole(s0, i0.(i := i0.i - 1), p0, c0, others);
        x := Get(k, others);
        assert View(k, others) == K.Get(v);
      }
    }

    method TakeSpace(k: Scheduler.Scheduler) returns (taken: bool)
      requires Valid() && k.Valid()
      modifies space`i
      ensures Valid() && k.Valid() && ring.Contents() == old(ring.Contents()) && items.Abs() == old(items.Abs())
      ensures taken == (old(space.i) > 0) && k.Abs() == old(k.Abs())
      ensures space.Abs() == if taken then old(space.Abs()).(i := old(space.i) - 1) else old(space.Abs())
    {
      taken := space.TryWait();
      ring.Untouched();
      items.Untouched();
      k.Untouched();
    }

    method TakeItem(k: Scheduler.Scheduler) returns (taken: bool)
      requires Valid() && k.Valid()
      modifies items`i
      ensures Valid() && k.Valid() && ring.Contents() == old(ring.Contents()) && space.Abs() == old(space.Abs())
      ensures taken == (old(items.i) > 0) && k.Abs() == old(k.Abs())
      ensures items.Abs() == if taken then old(items.Abs()).(i := old(items.i) - 1) else old(items.Abs())
    {
      taken := items.TryWait();
      ring.Untouched();
      space.Untouched();
      k.Untouched();
    }

    /** `try_enqueue` */
    method TryEnqueue(k: Scheduler.Scheduler, x: T, ghost others: map<int, S.Sem>) returns (ok: bool)
      requires Valid() && k.Valid() && (space.i > 0 ==> |ring.Contents()| < ring.items.Length)
      modifies ring, ring.items, items`i, items.waiting, space`i, k.queue, k.threads.Values
      ensures Valid() && k.Valid()
      ensures match K.TryEnqueue(old(View(k, others)), x)
        case Some(q) => ok && View(k, others) == q
        case None => !ok && View(k, others) == old(View(k, others))
    {
      TryEnqueueIs(k.Abs(), items.Abs(), space.Abs(), ring.Contents(), others, x);
      ok := TakeSpace(k);
      if ok { Put(k, x, others); }
    }

    /** `try_dequeue` */
    method TryDequeue(k: Scheduler.Scheduler, x0: T, ghost others: map<int, S.Sem>) returns (ok: bool, x: T)
      requires Valid() && k.Valid() && (items.i > 0 ==> ring.Contents() != [])
      modifies ring, items`i, space`i, space.waiting, k.queue, k.threads.Values
      ensures Valid() && k.Valid()
      ensures match K.TryDequeue(old(View(k, others)))
        case Some(q) => ok && View(k, others) == q
        case None => !ok && View(k, others) == old(View(k, others))
      ensures if ok then old(ring.Contents()) != [] && x == old(ring.Contents())[0] else x == x0
    {
      ghost var s0, i0, p0, c0 := k.Abs(), items.Abs(), space.Abs(), ring.Contents();
      TryDequeueIs(s0, i0, p0, c0, others);
      ok := TakeItem(k);
      x := x0;
      if ok {
        x := GetFrom(k, s0, i0.(i := i0.i - 1), p0, c0, others);
      }
    }
  }
}
