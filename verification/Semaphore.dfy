/**
  The semaphores of src/kernel/src/ipc/semaphore.cc over a fixed-capacity
  waiting list. Each method does to the semaphore and to the scheduler what the
  event of the same meaning does to their values.
 */
module Semaphore {
  import opened Lists
  import S = SchedSpec
  import SchedTheorems
  import ReadyQueue
  import RingQueue
  import Scheduler

  class Semaphore {
    var i: int
    const waiting: RingQueue.Queue<int>

    ghost predicate Valid()
      reads this, waiting
    {
      waiting.Valid() && waiting.items.Length == S.MAX_WAITING
    }

    ghost function Abs(): S.Sem
      requires Valid()
      reads this, waiting, waiting.items
    {
      S.Sem(i, waiting.Contents())
    }

    /** The semaphore is as it was when none of its own objects has changed. */
    twostate lemma Untouched()
      requires old(Valid()) && unchanged(this, waiting, waiting.items)
      ensures Valid() && Abs() == old(Abs())
    {}

    constructor (i: nat)
      ensures Valid() && Abs() == S.Sem(i, []) && fresh(waiting) && fresh(waiting.items)
    {
      this.i := i;
      waiting := new RingQueue.Queue(S.MAX_WAITING);
    }

    /** The front thread number leaves the waiting list. */
    method Leave(k: Scheduler.Scheduler, tid0: int) returns (more: bool, tid: int)
      requires Valid() && k.Valid()
      modifies waiting
      ensures Valid() && k.Valid() && k.Abs() == old(k.Abs()) && more == (old(waiting.Contents()) != [])
      ensures if more then old(waiting.Contents()) == [tid] + waiting.Contents() else waiting.Contents() == []
      ensures more ==> waiting.length < old(waiting.length)
    {
      more, tid := waiting.Dequeue(tid0);
      k.Untouched();
    }

    /** One round of the loop of `signal`: the front number leaves the list, and its thread is looked up. */
    method NextWaiting(k: Scheduler.Scheduler, tid0: int) returns (more: bool, tid: int, thread: ReadyQueue.Thread?)
      requires Valid()
      modifies waiting
      ensures Valid() && more == (old(waiting.Contents()) != [])
      ensures if more then old(waiting.Contents()) == [tid] + waiting.Contents() else waiting.Contents() == []
      ensures more ==> waiting.length < old(waiting.length)
      ensures thread == if more && tid in k.threads then k.threads[tid] else null
    {
      thread := null;
      more, tid := waiting.Dequeue(tid0);
      if more { thread := k.ThreadByTid(tid); }
    }

    /** The loop of `signal`: the oldest waiting thread that still exists, if any; dead ones are dropped. */
    method NextLive(k: Scheduler.Scheduler) returns (thread: ReadyQueue.Thread?)
      requires Valid() && k.Valid()
      modifies waiting
      ensures Valid() && k.Valid() && k.Abs() == old(k.Abs())
      ensures var (sem, t) := S.Signal(old(Abs()), k.threads.Keys);
        if thread == null then t == None && sem == Abs().(i := i + 1)
        else k.InTable(thread) && t == Some(thread.id) && sem == Abs()
    {
      var live, tid := true, 0;
      thread := null;
      while live && thread == null
        invariant Valid()
        invariant thread == null && live ==>
          S.FirstLive(waiting.Contents(), k.threads.Keys) == S.FirstLive(old(waiting.Contents()), k.threads.Keys)
        invariant var w := S.FirstLive(old(waiting.Contents()), k.threads.Keys);
          && (!live ==> thread == null && w == [] && waiting.Contents() == [])
          && (thread != null ==> k.InTable(thread) && w != [] && thread.id == w[0] && waiting.Contents() == w[1..])
        decreases live, waiting.length, thread == null
      {
        ghost var was := waiting.Contents();
        live, tid, thread := NextWaiting(k, tid);
        if live { assert was[0] == tid && was[1..] == waiting.Contents(); }
      }
      k.Untouched();
    }

    /** Threads are unblocked without any effect on the semaphore. */
    method Wake(k: Scheduler.Scheduler, thread: ReadyQueue.Thread)
      requires Valid() && k.Valid() && k.InTable(thread)
      modifies k.queue, k.threads.Values
      ensures Valid() && k.Valid() && Abs() == old(Abs()) && k.Abs() == S.Unblock(old(k.Abs()), thread.id)
    {
      k.Unblock(thread);
      Untouched();
    }

    /** `signal` */
    method Signal(k: Scheduler.Scheduler)
      requires Valid() && k.Valid()
      modifies this`i, waiting, k.queue, k.threads.Values
      ensures Valid() && k.Valid()
      ensures var (sem, t) := S.Signal(old(Abs()), old(k.threads.Keys));
        && Abs() == sem
        && k.Abs() == if t.Some? then S.Unblock(old(k.Abs()), t.value) else old(k.Abs())
    {
      var thread := NextLive(k);
      if thread != null {
        Wake(k, thread);
      } else {
        label Before:
        i := i + 1;
        k.Untouched@Before();
      }
    }

    /** The thread with this number is unblocked, if it still exists. */
    method Release(k: Scheduler.Scheduler, tid: int)
      requires Valid() && k.Valid()
      modifies k.queue, k.threads.Values
      ensures Valid() && k.Valid() && Abs() == old(Abs())
      ensures k.Abs() == if tid in old(k.threads.Keys) then S.Unblock(old(k.Abs()), tid) else old(k.Abs())
    {
      var thread := k.ThreadByTid(tid);
      k.Untouched();
      if thread != null {
        Wake(k, thread);
      }
    }

    /** `signal_all`: everyone who waits is released, and the counter stays as it is. */
    method SignalAll(k: Scheduler.Scheduler)
      requires Valid() && k.Valid()
      modifies waiting, k.queue, k.threads.Values
      ensures Valid() && k.Valid()
      ensures Abs() == old(Abs()).(waiting := [])
      ensures k.Abs() == S.UnblockAll(old(k.Abs()), old(Abs()).waiting)
    {
      var more, tid := true, 0;
      while more
        invariant Valid() && k.Valid()
        invariant S.UnblockAll(k.Abs(), waiting.Contents()) == S.UnblockAll(old(k.Abs()), old(Abs()).waiting)
        invariant !more ==> waiting.Contents() == []
        decreases more, waiting.length
      {
        ghost var was := waiting.Contents();
        more, tid := Leave(k, tid);
        if more {
          assert was[0] == tid && was[1..] == waiting.Contents();
          Release(k, tid);
        }
      }
    }

    /** The thread enters the waiting list, unless it is full. */
    method Join(k: Scheduler.Scheduler, tid: int) returns (ok: bool)
      requires Valid() && k.Valid()
      modifies waiting, waiting.items
      ensures Valid() && k.Valid() && k.Abs() == old(k.Abs())
      ensures ok <==> old(|Abs().waiting|) < S.MAX_WAITING
      ensures Abs().waiting == if ok then old(Abs()).waiting + [tid] else old(Abs()).waiting
    {
      ok := waiting.Enqueue(tid);
      k.Untouched();
    }

    /** A running thread in the waiting list gives up the processor. */
    method Sleep(k: Scheduler.Scheduler)
      requires Valid() && k.Valid() && k.current != null && k.current != k.idle
      modifies k`current, k.queue, k.threads.Values
      ensures Valid() && k.Valid() && Abs() == old(Abs()) && k.Abs() == S.Block(old(k.Abs()))
    {
      k.Yield(true);
      Untouched();
    }

    /**
      `wait`, up to the point where the caller goes on or gives up the
      processor; false means that the kernel panics.
     */
    method Wait(k: Scheduler.Scheduler) returns (ok: bool)
      requires Valid() && k.Valid() && k.current != null && k.current != k.idle
      modifies this`i, waiting, waiting.items, k`current, k.queue, k.threads.Values
      ensures Valid() && k.Valid()
      ensures ok <==> old(i) > 0 || old(|Abs().waiting|) < S.MAX_WAITING
      ensures old(i) > 0 ==> Abs() == old(Abs()).(i := old(i) - 1) && k.Abs() == old(k.Abs())
      ensures ok && old(i) <= 0 ==>
        && Abs() == old(Abs()).(waiting := old(Abs()).waiting + [old(k.current.id)])
        && k.Abs() == S.Block(old(k.Abs()))
      ensures !ok ==> Abs() == old(Abs()) && k.Abs() == old(k.Abs())
    {
      ok := true;
      if i > 0 {
        i := i - 1;
        k.Untouched();
      } else {
        ok := Join(k, k.current.id);
        if ok { Sleep(k); }
      }
    }

    /** `try_wait` */
    method TryWait() returns (taken: bool)
      requires Valid()
      modifies this`i
      ensures Valid() && taken == (old(i) > 0)
      ensures Abs() == if taken then old(Abs()).(i := old(i) - 1) else old(Abs())
    {
      taken := i > 0;
      if taken { i := i - 1; }
    }
  }
}
