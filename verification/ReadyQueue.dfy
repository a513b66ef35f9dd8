/**
  The ready queue of src/kernel/src/process/proc.cc: a doubly linked list
  through the threads themselves. The ghost field `queue` is the list that the
  links form. A thread outside the queue is put back with null links.
 */
module ReadyQueue {
  class Thread {
    const id: int
    var prevReady: Thread?
    var nextReady: Thread?
    var blocked: bool

    constructor (id: int)
      ensures this.id == id && Loose() && !blocked
    {
      this.id := id;
      prevReady, nextReady, blocked := null, null, false;
    }

    /** The thread has no links. */
    ghost predicate Loose()
      reads this`prevReady, this`nextReady
    {
      prevReady == null && nextReady == null
    }
  }

  ghost predicate Other(ts: seq<Thread>, i: int, j: int)
    requires 0 <= i < |ts| && 0 <= j < |ts|
  {
    ts[i] != ts[j]
  }

  /** No thread is in the list twice. */
  ghost predicate Single(ts: seq<Thread>) { forall i, j :: 0 <= i < j < |ts| ==> Other(ts, i, j) }

  lemma Apart(ts: seq<Thread>, i: int, j: int)
    requires Single(ts) && 0 <= i < |ts| && 0 <= j < |ts| && i != j
    ensures ts[i] != ts[j]
  {
    assert Other(ts, if i < j then i else j, if i < j then j else i);
  }

  function Before(ts: seq<Thread>, i: int): Thread?
    requires 0 <= i < |ts|
  {
    if 0 < i then ts[i - 1] else null
  }

  function After(ts: seq<Thread>, i: int): Thread?
    requires 0 <= i < |ts|
  {
    if i + 1 < |ts| then ts[i + 1] else null
  }

  /** Thread i of the list is linked to its neighbours. */
  ghost predicate LinkedAt(ts: seq<Thread>, i: int)
    requires 0 <= i < |ts|
    reads Members(ts)`prevReady, Members(ts)`nextReady
  {
    ts[i].prevReady == Before(ts, i) && ts[i].nextReady == After(ts, i)
  }

  ghost function Members(ts: seq<Thread>): set<Thread> { set t | t in ts }

  class Queue {
    var first: Thread?
    var last: Thread?
    ghost var queue: seq<Thread>

    ghost predicate Valid()
      reads this, Members(queue)`prevReady, Members(queue)`nextReady
    {
      && Single(queue)
      && first == (if queue == [] then null else queue[0])
      && last == (if queue == [] then null else queue[|queue| - 1])
      && forall i :: 0 <= i < |queue| ==> LinkedAt(queue, i)
    }

    constructor ()
      ensures Valid() && queue == []
    {
      first, last, queue := null, null, [];
    }

    /** `dequeue`: take the front thread off the queue, or null. */
    method Dequeue() returns (t: Thread?)
      requires Valid()
      modifies this, Members(queue)`prevReady, Members(queue)`nextReady
      ensures Valid()
      ensures old(queue) == [] ==> t == null && queue == []
      ensures old(queue) != [] ==> t == old(queue[0]) && queue == old(queue)[1..] && t !in queue && t.Loose()
    {
      t := first;
      if t != null {
        ghost var was := queue;
        assert LinkedAt(was, 0);
        if 1 < |was| { assert LinkedAt(was, 1); Apart(was, 0, 1); }
        first := t.nextReady;
        if first != null { first.prevReady := null; }
        t.prevReady := null;
        t.nextReady := null;
        if last == t { last := null; }
        queue := was[1..];
        TailSingle(was);
        forall i | 0 <= i < |queue| ensures LinkedAt(queue, i) {
          assert old(LinkedAt(was, i + 1));
          Apart(was, 0, i + 1);
          if i != 0 { Apart(was, 1, i + 1); }
        }
      }
    }

    /** `enqueue`: put a loose thread at the back of the queue. */
    method Enqueue(t: Thread)
      requires Valid() && t !in queue && t.Loose()
      modifies this, Members(queue)`nextReady, t`prevReady, t`nextReady
      ensures Valid() && queue == old(queue) + [t]
    {
      ghost var was, n := queue, |queue|;
      if 0 < n { assert LinkedAt(was, n - 1); }
      t.prevReady := last;
      if last != null { last.nextReady := t; }
      if first == null { first := t; }
      last := t;
      queue := was + [t];
      AppendSingle(was, t);
      forall i | 0 <= i < |queue| ensures LinkedAt(queue, i) {
        if i < n { assert old(LinkedAt(was, i)); }
        if i < n - 1 { Apart(was, i, n - 1); }
      }
    }

    /** `enqueue_front`: put a loose thread at the front of the queue. */
    method EnqueueFront(t: Thread)
      requires Valid() && t !in queue && t.Loose()
      modifies this, Members(queue)`prevReady, t`prevReady, t`nextReady
      ensures Valid() && queue == [t] + old(queue)
    {
      ghost var was, n := queue, |queue|;
      if 0 < n { assert LinkedAt(was, 0); }
      t.nextReady := first;
      if first != null { first.prevReady := t; }
      if last == null { last := t; }
      first := t;
      queue := [t] + was;
      PrependSingle(was, t);
      forall i | 0 <= i < |queue| ensures LinkedAt(queue, i) {
        if 0 < i { assert old(LinkedAt(was, i - 1)); }
        if 1 < i { Apart(was, i - 1, 0); }
      }
    }

    /** The queue updates of `delete_thread`: t leaves the queue wherever it is; a loose thread changes nothing. */
    method Unlink(t: Thread, ghost k: int)
      requires Valid()
      requires if t in queue then 0 <= k < |queue| && queue[k] == t else t.Loose()
      modifies this, Members(queue)`prevReady, Members(queue)`nextReady
      ensures Valid()
      ensures queue == if t in old(queue) then old(queue)[..k] + old(queue)[k + 1..] else old(queue)
      ensures forall x :: x in queue <==> x in old(queue) && x != t
    {
      ghost var was := queue;
      ghost var inside := t in queue;
      if inside {
        assert LinkedAt(was, k);
        if 0 < k { Apart(was, k - 1, k); assert LinkedAt(was, k - 1); }
        if k + 1 < |was| { Apart(was, k, k + 1); assert LinkedAt(was, k + 1); }
        if 0 < k && k + 1 < |was| { Apart(was, k - 1, k + 1); }
      }
      if t.nextReady != null { t.nextReady.prevReady := t.prevReady; }
      if t.prevReady != null { t.prevReady.nextReady := t.nextReady; }
      if last == t { last := t.prevReady; }
      if first == t { first := t.nextReady; }
      if inside {
        queue := was[..k] + was[k + 1..];
        UnlinkSingle(was, k);
        UnlinkMembers(was, k);
        forall i | 0 <= i < |queue| ensures LinkedAt(queue, i) {
          var j := if i < k then i else i + 1;
          assert old(LinkedAt(was, j));
          if 0 < k && j != k - 1 { Apart(was, j, k - 1); }
          if k + 1 < |was| && j != k + 1 { Apart(was, j, k + 1); }
        }
      }
    }
  }

  lemma TailSingle(ts: seq<Thread>)
    requires Single(ts) && ts != []
    ensures Single(ts[1..]) && ts[0] !in ts[1..]
  {
    forall i, j | 0 <= i < j < |ts| - 1 ensures Other(ts[1..], i, j) { assert Other(ts, i + 1, j + 1); }
    forall j | 0 <= j < |ts| - 1 ensures ts[1..][j] != ts[0] { assert Other(ts, 0, j + 1); }
  }

  lemma AppendSingle(ts: seq<Thread>, t: Thread)
    requires Single(ts) && t !in ts
    ensures Single(ts + [t])
  {
    forall i, j | 0 <= i < j < |ts| + 1 ensures Other(ts + [t], i, j) { if j < |ts| { assert Other(ts, i, j); } }
  }

  lemma PrependSingle(ts: seq<Thread>, t: Thread)
    requires Single(ts) && t !in ts
    ensures Single([t] + ts)
  {
    forall i, j | 0 <= i < j < |ts| + 1 ensures Other([t] + ts, i, j) { if 0 < i { assert Other(ts, i - 1, j - 1); } }
  }

  lemma UnlinkMembers(ts: seq<Thread>, k: int)
    requires Single(ts) && 0 <= k < |ts|
    ensures forall x :: x in ts[..k] + ts[k + 1..] <==> x in ts && x != ts[k]
  {
    UnlinkSingle(ts, k);
    assert ts == ts[..k] + [ts[k]] + ts[k + 1..];
  }

  lemma UnlinkSingle(ts: seq<Thread>, k: int)
    requires Single(ts) && 0 <= k < |ts|
    ensures Single(ts[..k] + ts[k + 1..]) && ts[k] !in ts[..k] + ts[k + 1..]
  {
    var r := ts[..k] + ts[k + 1..];
    forall i, j | 0 <= i < j < |r| ensures Other(r, i, j) {
      assert Other(ts, if i < k then i else i + 1, if j < k then j else j + 1);
    }
    forall i | 0 <= i < |r| ensures r[i] != ts[k] { Apart(ts, k, if i < k then i else i + 1); }
  }
}
