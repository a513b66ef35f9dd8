/** The fixed-capacity queue of os-std/queue.hh: a ring of N slots with a write and a read index. */
module RingQueue {
  class Queue<T(0)> {
    const items: array<T>
    var length: nat
    var writer: nat
    var reader: nat

    ghost predicate Valid()
      reads this
    {
      && 0 < items.Length && reader < items.Length && length <= items.Length
      && writer == Slot(length)
    }

    /** The slot of the element k places behind the read index. */
    function Slot(k: nat): nat
      reads this
    {
      if reader + k < items.Length then reader + k else reader + k - items.Length
    }

    /** The elements from the oldest to the newest. */
    ghost function Contents(): (s: seq<T>)
      requires Valid()
      reads this, items
      ensures |s| == length
    {
      if reader + length <= items.Length then items[reader..reader + length]
      else items[reader..] + items[..reader + length - items.Length]
    }

    /** The queue is as it was when neither its slots nor its indices have changed. */
    twostate lemma Untouched()
      requires old(Valid()) && unchanged(this, items)
      ensures Valid() && Contents() == old(Contents())
    {}

    constructor (capacity: nat)
      requires 0 < capacity
      ensures Valid() && fresh(items) && items.Length == capacity && Contents() == []
    {
      items := new T[capacity];
      length, writer, reader := 0, 0, 0;
    }

    /** `increment`, with the wrap-around at N - 1. */
    function Increment(i: nat): nat { if i == items.Length - 1 then 0 else i + 1 }

    /** `enqueue_`: assumes that there is room. */
    method Push(x: T)
      requires Valid() && length < items.Length
      modifies this, items
      ensures Valid() && Contents() == old(Contents()) + [x]
    {
      items[writer] := x;
      writer := Increment(writer);
      length := length + 1;
    }

    /** `enqueue`: false, and no change, when the queue is full. */
    method Enqueue(x: T) returns (ok: bool)
      requires Valid()
      modifies this, items
      ensures Valid() && ok == (|old(Contents())| < items.Length)
      ensures Contents() == if ok then old(Contents()) + [x] else old(Contents())
    {
      if length == items.Length {
        ok := false;
      } else {
        Push(x);
        ok := true;
      }
    }

    /** `dequeue_`: assumes that there is an element. */
    method Pop() returns (x: T)
      requires Valid() && 0 < length
      modifies this
      ensures Valid() && old(Contents()) == [x] + Contents()
    {
      x := items[reader];
      ghost var was := Contents();
      assert was[0] == x;
      reader := Increment(reader);
      length := length - 1;
      assert Contents() == was[1..];
    }

    /** `dequeue`: the oldest element, or false when there is none. */
    method Dequeue(x0: T) returns (ok: bool, x: T)
      requires Valid()
      modifies this
      ensures Valid() && ok == (old(Contents()) != [])
      ensures if ok then old(Contents()) == [x] + Contents() else Contents() == [] && x == x0
    {
      if length == 0 {
        ok, x := false, x0;
      } else {
        x := Pop();
        ok := true;
      }
    }
  }
}
