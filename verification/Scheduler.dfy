/**
  The bookkeeping of src/kernel/src/process/proc.cc around the ready queue:
  creating, dispatching, blocking, unblocking and deleting threads. Each method
  is tied to the operation of the same name on the scheduler as a value.
 */
module Scheduler {
  import opened Lists
  import S = SchedSpec
  import SchedTheorems
  import opened ReadyQueue

  function Ids(ts: seq<Thread>): (ids: seq<int>)
    ensures |ids| == |ts|
    ensures forall i :: 0 <= i < |ts| ==> ids[i] == ts[i].id
  {
    seq(|ts|, i requires 0 <= i < |ts| => ts[i].id)
  }

  class Scheduler {
    const queue: Queue
    var current: Thread?
    var idle: Thread
    var enabled: bool
    /** The threads of all processes, by number. */
    var threads: map<int, Thread>
    var threadCount: nat

    ghost predicate InTable(t: Thread)
      reads this`threads
    {
      t.id in threads && threads[t.id] == t
    }

    /** Every thread is in the table under its own number, and has links only if it is in the queue. */
    ghost predicate Ok()
      reads this, queue, threads.Values, Members(queue.queue)
    {
      OkBut(null)
    }

    /** `Ok`, except that thread x may have links although it is not in the queue. */
    ghost predicate OkBut(x: Thread?)
      reads this, queue, threads.Values, Members(queue.queue)
    {
      && queue.Valid()
      && (forall id :: id in threads ==> threads[id].id == id)
      && (forall t :: t in queue.queue ==> InTable(t))
      && (current != null ==> InTable(current)) && InTable(idle)
      && (forall id :: id in threads && threads[id] !in queue.queue && threads[id] != x ==> threads[id].Loose())
    }

    ghost function Blocked(): set<int>
      reads this`threads, threads.Values`blocked
    {
      set id | id in threads && threads[id].blocked
    }

    /** The state of the scheduler as a value. */
    ghost function Abs(): S.Sched
      reads this, queue, threads.Values`blocked
    {
      S.Sched(threads.Keys, Ids(queue.queue), if current == null then None else Some(current.id),
              Blocked(), idle.id, enabled, threadCount)
    }

    ghost predicate Valid()
      reads this, queue, threads.Values, Members(queue.queue)
    {
      Ok() && SchedTheorems.SchedInv(Abs())
    }

    /** The scheduler is as it was when none of its own objects has changed. */
    twostate lemma Untouched()
      requires old(Valid()) && unchanged(this, queue) && forall id :: id in threads ==> unchanged(threads[id])
      ensures Valid() && Abs() == old(Abs())
    {
      forall i | 0 <= i < |queue.queue| ensures LinkedAt(queue.queue, i) {
        assert InTable(queue.queue[i]);
        assert old(LinkedAt(queue.queue, i));
      }
      forall id | id in threads ensures threads[id].blocked <==> old(threads[id].blocked) {}
    }

    /** `init` creates the idle thread, which enters the ready queue; `run` then dispatches it directly. */
    constructor ()
      ensures Valid() && Abs() == S.Boot().sched
      ensures fresh(queue) && fresh(threads.Values)
    {
      var t := new Thread(0);
      var q := new Queue();
      q.Enqueue(t);
      queue := q;
      idle, current := t, t;
      enabled, threads, threadCount := true, map[0 := t], 1;
      new;
      assert q.queue == [t];
      assert Ids(q.queue) == [0];
      assert threads.Keys == {0};
      assert Blocked() == {};
    }

    /** `thread_by_tid` */
    method ThreadByTid(tid: int) returns (t: Thread?)
      ensures if tid in threads then t == threads[tid] else t == null
    {
      t := if tid in threads then threads[tid] else null;
    }

    /** `enqueue` */
    method Enqueue(t: Thread)
      requires Ok() && InTable(t) && t !in queue.queue
      modifies queue, threads.Values
      ensures Ok() && Abs() == S.Enqueue(old(Abs()), t.id)
      ensures queue.queue == old(queue.queue) + [t]
    {
      queue.Enqueue(t);
      t.blocked := false;
      assert Ids(queue.queue) == Ids(old(queue.queue)) + [t.id];
      forall id | id in threads ensures threads[id].blocked <==> old(threads[id].blocked) && id != t.id {}
    }

    /** `enqueue_front` */
    method EnqueueFront(t: Thread)
      requires Ok() && InTable(t) && t !in queue.queue
      modifies queue, threads.Values
      ensures Ok() && Abs() == S.EnqueueFront(old(Abs()), t.id)
      ensures queue.queue == [t] + old(queue.queue)
    {
      queue.EnqueueFront(t);
      t.blocked := false;
      assert Ids(queue.queue) == [t.id] + Ids(old(queue.queue));
      forall id | id in threads ensures threads[id].blocked <==> old(threads[id].blocked) && id != t.id {}
    }

    /** `dequeue` */
    method Dequeue() returns (t: Thread?)
      requires Ok()
      modifies queue, threads.Values
      ensures Ok()
      ensures old(queue.queue) == [] ==> t == null && Abs() == old(Abs()) && queue.queue == []
      ensures old(queue.queue) != [] ==>
        && t == old(queue.queue[0]) && t !in queue.queue && queue.queue == old(queue.queue)[1..]
        && Abs() == old(Abs()).(ready := old(Abs()).ready[1..])
    {
      t := queue.Dequeue();
      if t != null { assert Ids(queue.queue) == Ids(old(queue.queue))[1..]; }
      forall id | id in threads ensures threads[id].blocked <==> old(threads[id].blocked) {}
    }

    /** `dispatch`, without the switch of stacks: t must not be in the queue, unless it is the idle thread. */
    method Dispatch(t: Thread)
      requires Ok() && InTable(t)
      requires current != null && current in queue.queue ==> current == idle
      modifies this`current, queue, threads.Values
      ensures Ok() && Abs() == S.Dispatch(old(Abs()), t.id)
    {
      var prev := current;
      current := t;
      if prev != null && !prev.blocked && prev != t && prev != idle {
        Enqueue(prev);
      }
    }

    /** `dispatch_next_thread` */
    method DispatchNext()
      requires Ok() && SchedTheorems.Leaving(Abs())
      modifies this`current, queue, threads.Values
      ensures Valid() && Abs() == S.DispatchNext(old(Abs()))
    {
      SchedTheorems.DispatchNextInv(Abs());
      if !enabled {
        Dispatch(idle);
      } else {
        var next := Dequeue();
        if next != null {
          Dispatch(next);
        } else if current != null && !current.blocked {
          Dispatch(current);
        } else {
          Dispatch(idle);
        }
      }
    }

    /** `yield`; with `block` set, the running thread stops until someone unblocks it. */
    method Yield(block: bool)
      requires Valid() && (block ==> current != null && current != idle)
      modifies this`current, queue, threads.Values
      ensures Valid() && Abs() == if block then S.Block(old(Abs())) else S.Yield(old(Abs()))
    {
      if current == null { return; }
      if block {
        current.blocked := true;
        forall id | id in threads
          ensures threads[id].blocked <==> old(threads[id].blocked) || id == current.id {}
        assert Abs() == old(Abs()).(blocked := old(Abs()).blocked + {current.id});
      }
      if block || queue.first != null {
        DispatchNext();
      }
    }

    /** `unblock` */
    method Unblock(t: Thread)
      requires Valid() && InTable(t)
      modifies queue, threads.Values
      ensures Valid() && Abs() == S.Unblock(old(Abs()), t.id)
    {
      SchedTheorems.UnblockInv(Abs(), t.id);
      if t.blocked {
        if t in queue.queue { InReady(t); assert false; }
        EnqueueFront(t);
      }
    }

    lemma InReady(t: Thread)
      requires t in queue.queue
      ensures t.id in Ids(queue.queue)
    {
      var i :| 0 <= i < |queue.queue| && queue.queue[i] == t;
      assert Ids(queue.queue)[i] == t.id;
    }

    /** The new thread enters the table of its process. */
    method Add(t: Thread)
      requires Ok() && t.id !in threads && t.Loose() && !t.blocked && t.id == threadCount
      modifies this`threads, this`threadCount
      ensures Ok() && InTable(t) && threads == old(threads)[t.id := t] && t !in queue.queue
      ensures Abs() == old(Abs()).(live := old(Abs()).live + {t.id}, next := t.id + 1)
    {
      assert t !in queue.queue by { assert forall x :: x in queue.queue ==> InTable(x); }
      threads := threads[t.id := t];
      threadCount := threadCount + 1;
      forall id | id in threads ensures threads[id].blocked <==> id in old(threads) && old(threads[id].blocked) {}
      assert Blocked() == old(Blocked());
    }

    /** `make_kernel_thread`, and the thread of `make_proc`. */
    method MakeThread() returns (t: Thread)
      requires Valid()
      modifies this`threads, this`threadCount, queue, threads.Values
      ensures Valid() && Abs() == S.Spawn(old(Abs())) && fresh(t) && t.id == old(threadCount)
      ensures threads == old(threads)[t.id := t]
    {
      SchedTheorems.SpawnInv(Abs());
      ghost var was := queue.queue;
      t := new Thread(threadCount);
      forall i | 0 <= i < |was| ensures LinkedAt(was, i) { assert old(LinkedAt(was, i)); }
      assert Ok() && Abs() == old(Abs());
      Add(t);
      Enqueue(t);
    }

    /** Thread t leaves the table of its process, and is no longer the running thread. */
    method Remove(t: Thread)
      requires OkBut(t) && InTable(t) && t != idle && t !in queue.queue
      modifies this`threads, this`current
      ensures Ok() && threads == old(threads) - {t.id}
      ensures var s := old(Abs());
        Abs() == s.(live := s.live - {t.id}, blocked := s.blocked - {t.id},
                    current := if s.current == Some(t.id) then None else s.current)
    {
      threads := threads - {t.id};
      if current == t { current := null; }
      assert Blocked() == old(Blocked()) - {t.id};
      assert threads.Keys == old(threads.Keys) - {t.id};
    }

    /** The thread leaves the ready queue, at its place k if it is there. */
    method LeaveQueue(t: Thread, ghost k: int)
      requires Ok() && InTable(t)
      requires t in queue.queue ==> 0 <= k < |queue.queue| && queue.queue[k] == t
      modifies queue, threads.Values
      ensures OkBut(t) && t !in queue.queue && InTable(t) && Blocked() == old(Blocked())
      ensures queue.queue == var q := old(queue.queue); if t in q then q[..k] + q[k + 1..] else q
    {
      queue.Unlink(t, k);
    }

    /** The list updates of `delete_thread`; the thread then leaves the table of its process. */
    method Unlink(t: Thread, ghost k: int)
      requires Valid() && InTable(t) && t != idle
      requires t in queue.queue ==> 0 <= k < |queue.queue| && queue.queue[k] == t
      modifies this`threads, this`current, queue, threads.Values
      ensures Ok() && Abs() == S.Unlink(old(Abs()), t.id) && threads == old(threads) - {t.id}
    {
      IdsWithout(queue.queue, t, k);
      LeaveQueue(t, k);
      assert Abs() == old(Abs()).(ready := Without(old(Abs()).ready, t.id));
      Remove(t);
    }

    /** Dropping a thread from a list of distinct threads drops its number. */
    lemma IdsWithout(ts: seq<Thread>, t: Thread, k: int)
      requires (forall x :: x in ts ==> x.id == t.id ==> x == t) && Distinct(Ids(ts))
      requires t in ts ==> 0 <= k < |ts| && ts[k] == t
      ensures Without(Ids(ts), t.id) == Ids(if t in ts then ts[..k] + ts[k + 1..] else ts)
    {
      if t in ts {
        WithoutAt(Ids(ts), k);
        assert Ids(ts[..k] + ts[k + 1..]) == Ids(ts)[..k] + Ids(ts)[k + 1..];
      } else {
        assert t.id !in Ids(ts);
        WithoutDistinct(Ids(ts), t.id);
      }
    }

    /** `delete_thread`; a running thread hands the processor on. */
    method DeleteThread(t: Thread)
      requires Valid() && InTable(t) && t != idle
      modifies this`threads, this`current, queue, threads.Values
      ensures Valid() && Abs() == S.Delete(old(Abs()), t.id) && threads == old(threads) - {t.id}
    {
      ghost var k := if t in queue.queue then var i :| 0 <= i < |queue.queue| && queue.queue[i] == t; i else 0;
      SchedTheorems.DeleteInv(Abs(), t.id);
      SchedTheorems.UnlinkLeaving(Abs(), t.id);
      var running := t == current;
      Unlink(t, k);
      if running { DispatchNext(); }
    }

    /** `pause` */
    method Pause()
      requires Valid()
      modifies this`enabled, this`current, queue, threads.Values
      ensures Valid() && Abs() == S.Pause(old(Abs()))
    {
      SchedTheorems.DispatchInv(Abs().(enabled := false), idle.id);
      enabled := false;
      assert Ok() && Abs() == old(Abs()).(enabled := false);
      Dispatch(idle);
    }

    /** `resume` */
    method Resume()
      requires Valid()
      modifies this`enabled
      ensures Valid() && Abs() == S.Resume(old(Abs()))
    {
      enabled := true;
    }
  }
}
