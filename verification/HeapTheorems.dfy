/**
  Properties of the kernel heap that span calls: what an allocation or a free
  leaves alone, what a free undoes, and what holds after every run.
 */
module HeapTheorems {
  import opened HeapBlocks
  import opened HeapLists
  import opened HeapSpec
  import opened Alignment

  /** There is an allocated block with header `addr` and at least n usable words. */
  ghost predicate Live(b: seq<Block>, limit: int, addr: int, n: int) {
    exists k {:trigger Size(b, k, limit)} :: 0 <= k < |b| && b[k].used && b[k].addr == addr && n <= Size(b, k, limit)
  }

  // ---------------------------------------------------------------------
  // One allocation
  // ---------------------------------------------------------------------

  /** An allocation never moves or shrinks an allocated block. */
  lemma AllocKeepsLive(b: seq<Block>, i: int, dst: int, size: int, limit: int, addr: int, n: int)
    requires Fits(b, i, dst, size, limit) && Live(b, limit, addr, n)
    ensures Live(Placed(b, i, dst, size, limit), limit, addr, n)
  {
    var k :| 0 <= k < |b| && b[k].used && b[k].addr == addr && n <= Size(b, k, limit);
    PlacedAt(b, i, dst, size, limit, k);
    var c := Placed(b, i, dst, size, limit);
    var k' := After(b, i, dst, size, limit, k);
    assert c[k'].used && c[k'].addr == addr && n <= Size(c, k', limit);
  }

  /** The new block is live with at least the requested size. */
  lemma AllocAddsLive(b: seq<Block>, i: int, dst: int, size: int, limit: int)
    requires Fits(b, i, dst, size, limit)
    ensures Live(Placed(b, i, dst, size, limit), limit, dst, size)
  {
    var c := Placed(b, i, dst, size, limit);
    var j := NewIndex(b, i, dst);
    PlacedSplit(b, i, dst, size, limit);
    if j + 1 < |c| { assert c[j + 1] == c[j + 1..][0]; }
    if i + 1 < |b| { assert b[i + 1..][0] == b[i + 1]; }
    assert size <= Size(c, j, limit);
  }

  /** Live blocks, headers included, are pairwise disjoint and inside the heap. */
  lemma LiveDisjoint(b: seq<Block>, start: int, limit: int, x: int, m: int, y: int, n: int)
    requires Spaced(b, start, limit) && Live(b, limit, x, m) && Live(b, limit, y, n) && x != y
    ensures x + NODE + m <= y || y + NODE + n <= x
    ensures start <= x && x + NODE + m <= limit
  {
    var k :| 0 <= k < |b| && b[k].used && b[k].addr == x && m <= Size(b, k, limit);
    var l :| 0 <= l < |b| && b[l].used && b[l].addr == y && n <= Size(b, l, limit);
    HeadersApart(b, start, limit, k, l);
  }

  /** The new header is inside a free block, so no allocated block has it already. */
  lemma NewIsNotLive(b: seq<Block>, i: int, dst: int, size: int, start: int, limit: int, n: int)
    requires Spaced(b, start, limit) && Fits(b, i, dst, size, limit)
    ensures !Live(b, limit, dst, n)
  {
    forall k | 0 <= k < |b| && b[k].used ensures b[k].addr != dst {
      HeadersApart(b, start, limit, i, k);
    }
  }

  /** Block k of the list: the bytes from its header to its end. */
  predicate Spans(c: seq<Block>, limit: int, k: int, used: bool, from: int, to: int) {
    0 <= k < |c| && c[k].used == used && 4 * c[k].addr == from && 4 * End(c, k, limit) == to
  }

  /**
    In bytes, an allocation of `need` bytes with its header at byte `at`, in a
    free block from byte `from` to byte `to`. With more than 44 bytes behind it
    these become a free block, and otherwise its own; with 44 bytes or more in
    front of it these stay a free block, and otherwise go to the block before.
   */
  ghost predicate Divided(c: seq<Block>, limit: int, j: int, from: int, at: int, need: int, to: int) {
    DividedBehind(c, limit, j, at, at + 12 + need, to) && DividedBefore(c, limit, j, from, at)
  }

  predicate DividedBehind(c: seq<Block>, limit: int, j: int, at: int, end: int, to: int) {
    if to - end > 44 then Spans(c, limit, j, true, at, end) && Spans(c, limit, j + 1, false, end, to)
    else Spans(c, limit, j, true, at, to)
  }

  predicate DividedBefore(c: seq<Block>, limit: int, j: int, from: int, at: int) {
    if at - from >= 44 then Spans(c, limit, j - 1, false, from, at)
    else 0 < j <= |c| ==> 4 * End(c, j - 1, limit) == at
  }

  lemma PlacedBehind(b: seq<Block>, i: int, dst: int, size: int, limit: int)
    requires Fits(b, i, dst, size, limit)
    ensures DividedBehind(Placed(b, i, dst, size, limit), limit, NewIndex(b, i, dst),
                          4 * dst, 4 * dst + 12 + 4 * size, 4 * End(b, i, limit))
  {
    var c := Placed(b, i, dst, size, limit);
    var j := NewIndex(b, i, dst);
    PlacedSplit(b, i, dst, size, limit);
    NewSize(b, i, dst, size, limit);
    var right := c[j + 1..];
    if i + 1 < |b| { assert b[i + 1..][0] == b[i + 1]; }
    if Rest(b, i, dst, size, limit) > SPLIT {
      assert c[j + 1] == right[0] && End(c, j, limit) == dst + NODE + size;
      if j + 2 < |c| { assert c[j + 2] == right[1]; }
    }
  }

  lemma PlacedBefore(b: seq<Block>, i: int, dst: int, size: int, limit: int)
    requires Fits(b, i, dst, size, limit)
    ensures DividedBefore(Placed(b, i, dst, size, limit), limit, NewIndex(b, i, dst), 4 * b[i].addr, 4 * dst)
  {
    var c := Placed(b, i, dst, size, limit);
    var j := NewIndex(b, i, dst);
    PlacedSplit(b, i, dst, size, limit);
    var left := c[..j];
    if 0 < j { assert c[j - 1] == left[j - 1] && End(c, j - 1, limit) == dst; }
  }

  lemma PlacedBytes(b: seq<Block>, i: int, dst: int, size: int, start: int, limit: int)
    requires WellFormed(b, start, limit) && Fits(b, i, dst, size, limit)
    ensures Divided(Placed(b, i, dst, size, limit), limit, NewIndex(b, i, dst),
                    4 * b[i].addr, 4 * dst, 4 * size, 4 * End(b, i, limit))
  {
    PlacedBehind(b, i, dst, size, limit);
    PlacedBefore(b, i, dst, size, limit);
  }

  /** Block k of the list c was in the list b, with the same end. */
  ghost predicate Older(b: seq<Block>, c: seq<Block>, limit: int, k: int)
    requires 0 <= k < |c|
  {
    exists o {:trigger b[o]} :: 0 <= o < |b| && b[o] == c[k] && End(b, o, limit) == End(c, k, limit)
  }

  /** A free block that an allocation leaves was there before, or has at least 32 bytes. */
  lemma NoSmallFree(b: seq<Block>, i: int, dst: int, size: int, start: int, limit: int, k: int)
    requires WellFormed(b, start, limit) && Fits(b, i, dst, size, limit)
    requires var c := Placed(b, i, dst, size, limit); 0 <= k < |c| && !c[k].used
    ensures var c := Placed(b, i, dst, size, limit); Older(b, c, limit, k) || 32 <= 4 * Size(c, k, limit)
  {
    var c, mid := Placed(b, i, dst, size, limit), Middle(b, i, dst, size, limit);
    var j := NewIndex(b, i, dst);
    PlacedBytes(b, i, dst, size, start, limit);
    PlacedSplit(b, i, dst, size, limit);
    SpliceAt(b[..i], mid, b[i + 1..], k);
    MergedSpot(b, i);
    if k < i || i + |mid| <= k {
      var o := if k < i then k else k - |mid| + 1;
      PlacedAt(b, i, dst, size, limit, o);
      assert b[o] == c[k];
    }
  }

  /**
    What a finished allocation does in bytes: it takes the request, rounded up
    to words, and at most 44 bytes more behind it, and leaves no new free block
    with fewer than 32 bytes.
   */
  lemma SplitInBytes(b: seq<Block>, size: nat, align: nat, start: int, limit: int) returns (j: int)
    requires WellFormed(b, start, limit) && align <= MAX_ALIGN && AllocResult(b, size, align, limit).Done?
    ensures var r, i := AllocResult(b, size, align, limit), Chosen(b, size, align, limit);
      && 0 <= j < |r.list| && r.list[j] == Block(r.header, true)
      && Divided(r.list, limit, j, 4 * b[i].addr, 4 * r.header, 4 * SizeWords(size), 4 * End(b, i, limit))
      && size <= 4 * Size(r.list, j, limit) <= (if size == 0 then 4 else size + 3) + 44
      && forall k :: 0 <= k < |r.list| && !r.list[k].used ==> Older(b, r.list, limit, k) || 32 <= 4 * Size(r.list, k, limit)
  {
    var i, dst, n := Chosen(b, size, align, limit), Target(b, size, align, limit), SizeWords(size);
    TargetFits(b, size, align, start, limit);
    SizeWordsCover(size);
    PlacedBytes(b, i, dst, n, start, limit);
    PlacedSplit(b, i, dst, n, limit);
    j := NewIndex(b, i, dst);
    var c := Placed(b, i, dst, n, limit);
    forall k | 0 <= k < |c| && !c[k].used ensures Older(b, c, limit, k) || 32 <= 4 * Size(c, k, limit) {
      NoSmallFree(b, i, dst, n, start, limit, k);
    }
  }

  // ---------------------------------------------------------------------
  // One free
  // ---------------------------------------------------------------------

  /** Freeing a block leaves every other allocated block as it was. */
  lemma FreeKeepsLive(b: seq<Block>, i: int, limit: int, addr: int, n: int)
    requires 0 <= i < |b| && b[i].addr != addr && Live(b, limit, addr, n)
    ensures Live(Freed(b, i), limit, addr, n)
  {
    var k :| 0 <= k < |b| && b[k].used && b[k].addr == addr && n <= Size(b, k, limit);
    FreedAt(b, i, k);
    var c := Freed(b, i);
    var k' := if k < i then k else k + |c| - |b|;
    assert c[k'].used && c[k'].addr == addr && n <= Size(c, k', limit);
  }

  // ---------------------------------------------------------------------
  // Free undoes alloc
  // ---------------------------------------------------------------------

  lemma BehindPlaced(b: seq<Block>, i: int, dst: int, size: int, limit: int)
    requires Merged(b) && 0 <= i < |b| && !b[i].used
    ensures var c := Placed(b, i, dst, size, limit); var j := NewIndex(b, i, dst);
      j < |c| && Behind(c, j) == b[i + 1..]
  {
    var c := Placed(b, i, dst, size, limit);
    var j := NewIndex(b, i, dst);
    PlacedSplit(b, i, dst, size, limit);
    MergedSpot(b, i);
    var tail := c[j + 1..];
    if j + 1 < |c| {
      assert c[j + 1] == tail[0];
      assert c[j + 2..] == tail[1..];
    }
  }

  /**
    Allocating in block i and freeing again at once gives back the list, except
    that a header moved up for alignment stays where it is.
   */
  lemma FreeAfterPlace(b: seq<Block>, i: int, dst: int, size: int, limit: int)
    requires Merged(b) && 0 <= i < |b| && !b[i].used
    ensures var c := Placed(b, i, dst, size, limit); var j := NewIndex(b, i, dst);
      j < |c| && Freed(c, j) == b[i := Block(if dst - b[i].addr < SPLIT then dst else b[i].addr, false)]
  {
    var c := Placed(b, i, dst, size, limit);
    var j := NewIndex(b, i, dst);
    PlacedSplit(b, i, dst, size, limit);
    MergedSpot(b, i);
    BehindPlaced(b, i, dst, size, limit);
    var left := c[..j];
    if j > 0 { assert c[j - 1] == left[j - 1]; }
    var x := Block(if dst - b[i].addr < SPLIT then dst else b[i].addr, false);
    assert Ahead(c, j) == b[..i] + [x];
    assert b[i := x] == b[..i] + [x] + b[i + 1..];
  }

  lemma PlaceUndone(b: seq<Block>, i: int, dst: int, size: int, start: int, limit: int)
    requires WellFormed(b, start, limit) && Fits(b, i, dst, size, limit)
    ensures var c := Placed(b, i, dst, size, limit);
      var j := IndexOf(c, dst);
      && j == NewIndex(b, i, dst) < |c| && c[j].used
      && (Freed(c, j) == b <==> dst == b[i].addr || SPLIT <= dst - b[i].addr)
  {
    var c := Placed(b, i, dst, size, limit);
    PlacedSplit(b, i, dst, size, limit);
    PlacedSpaced(b, i, dst, size, start, limit);
    IndexUnique(c, start, limit, NewIndex(b, i, dst));
    FreeAfterPlace(b, i, dst, size, limit);
    assert b[i] == Block(b[i].addr, false);
    assert b[i := b[i]] == b;
    assert b[i := Block(dst, false)][i].addr == dst;
  }

  /** alloc followed at once by free of its result restores the list iff no slack was absorbed. */
  lemma FreeUndoesAlloc(b: seq<Block>, size: nat, align: nat, start: int, limit: int)
    requires WellFormed(b, start, limit) && align <= MAX_ALIGN
    requires var r := AllocResult(b, size, align, limit); r.Done? && FreeResult(r.list, r.header).Done?
    ensures var r := AllocResult(b, size, align, limit);
      var slack := Target(b, size, align, limit) - b[Chosen(b, size, align, limit)].addr;
      FreeResult(r.list, r.header).list == b <==> slack == 0 || SPLIT <= slack
  {
    TargetFits(b, size, align, start, limit);
    PlaceUndone(b, Chosen(b, size, align, limit), Target(b, size, align, limit), SizeWords(size), start, limit);
  }

  lemma IndexUnique(b: seq<Block>, start: int, limit: int, k: int)
    requires Spaced(b, start, limit) && 0 <= k < |b|
    ensures IndexOf(b, b[k].addr) == k
  {
    var m := IndexOf(b, b[k].addr);
    assert m < |b| && b[m].addr == b[k].addr;
    HeadersApart(b, start, limit, m, k);
  }

  /** A second free that follows at once is caught. */
  lemma DoubleFreePanics(b: seq<Block>, header: int, start: int, limit: int)
    requires Spaced(b, start, limit) && FreeResult(b, header).Done?
    ensures FreeResult(FreeResult(b, header).list, header) == Panic
  {
    var i := IndexOf(b, header);
    var c := Freed(b, i);
    var j := IndexOf(c, header);
    if j < |c| && c[j].used {
      FreedUsed(b, i, start, limit, j);
    }
  }

  // ---------------------------------------------------------------------
  // Every run
  // ---------------------------------------------------------------------

  /** A call; a pointer is identified by the header in front of it. */
  datatype Op = Alloc(size: nat, align: nat) | Free(header: int)

  /** The node list, and for the header of every allocation that has not been freed the requested size in words. */
  datatype State = State(list: seq<Block>, live: map<int, nat>)

  datatype Step = Crash | Next(state: State)

  predicate Legal(op: Op, limit: int) {
    op.Alloc? ==> NoWrap(op.size, op.align, limit)
  }

  function Apply(s: State, op: Op, limit: int): Step
    requires Addressed(s.list) && Legal(op, limit)
  {
    match op
    case Alloc(size, align) =>
      (match AllocResult(s.list, size, align, limit)
       case Panic => Crash
       case NoSpace => Next(s)
       case Done(b, h) => Next(State(b, s.live[h := SizeWords(size)])))
    case Free(h) =>
      match FreeResult(s.list, h)
      case Done(b, _) => Next(State(b, s.live - {h}))
      case _ => Crash
  }

  function Initial(start: int): State { State([Block(start, false)], map[]) }

  /** The list is well-formed, and the allocated blocks are exactly the live allocations. */
  ghost predicate Inv(s: State, start: int, limit: int) {
    && WellFormed(s.list, start, limit)
    && (forall p :: p in s.live ==> Live(s.list, limit, p, s.live[p]))
    && (forall k :: 0 <= k < |s.list| && s.list[k].used ==> s.list[k].addr in s.live)
  }

  lemma PlaceKeepsInv(s: State, i: int, dst: int, size: int, n: nat, start: int, limit: int)
    requires Inv(s, start, limit) && Fits(s.list, i, dst, size, limit) && n <= size
    ensures Inv(State(Placed(s.list, i, dst, size, limit), s.live[dst := n]), start, limit)
    ensures dst !in s.live
  {
    var b := s.list;
    var c := Placed(b, i, dst, size, limit);
    var live := s.live[dst := n];
    PlacedSpaced(b, i, dst, size, start, limit);
    PlacedMerged(b, i, dst, size, limit);
    PlacedFilled(b, i, dst, size, limit);
    if dst in s.live {
      NewIsNotLive(b, i, dst, size, start, limit, s.live[dst]);
      assert false;
    }
    forall p | p in live ensures Live(c, limit, p, live[p]) {
      if p == dst {
        AllocAddsLive(b, i, dst, size, limit);
        LiveShrink(c, limit, dst, size, n);
      } else {
        AllocKeepsLive(b, i, dst, size, limit, p, s.live[p]);
      }
    }
    forall k | 0 <= k < |c| && c[k].used ensures c[k].addr in live {
      if k != NewIndex(b, i, dst) { var o := PlacedOrigin(b, i, dst, size, limit, k); }
      else { PlacedSplit(b, i, dst, size, limit); }
    }
  }

  lemma LiveShrink(b: seq<Block>, limit: int, addr: int, m: int, n: int)
    requires Live(b, limit, addr, m) && n <= m
    ensures Live(b, limit, addr, n)
  {
    var k :| 0 <= k < |b| && b[k].used && b[k].addr == addr && m <= Size(b, k, limit);
    assert n <= Size(b, k, limit);
  }

  /** An allocation that succeeds is new, aligned, and becomes live. */
  lemma AllocKeepsInv(s: State, size: nat, align: nat, start: int, limit: int)
    requires Inv(s, start, limit) && align <= MAX_ALIGN
    requires AllocResult(s.list, size, align, limit).Done?
    ensures var r := AllocResult(s.list, size, align, limit);
      Inv(State(r.list, s.live[r.header := SizeWords(size)]), start, limit) && r.header !in s.live
    ensures RoundAlign(align) > 0 && 4 * (AllocResult(s.list, size, align, limit).header + NODE) % RoundAlign(align) == 0
  {
    var b := s.list;
    var i, dst, n := Chosen(b, size, align, limit), Target(b, size, align, limit), SizeWords(size);
    TargetFits(b, size, align, start, limit);
    assert AllocResult(b, size, align, limit) == Done(Placed(b, i, dst, n, limit), dst);
    PlaceKeepsInv(s, i, dst, n, n, start, limit);
  }

  lemma FreedKeepsInv(s: State, i: int, start: int, limit: int)
    requires Inv(s, start, limit) && 0 <= i < |s.list| && s.list[i].used && 1 < |s.list|
    ensures Inv(State(Freed(s.list, i), s.live - {s.list[i].addr}), start, limit)
  {
    var b := s.list;
    var c := Freed(b, i);
    var live := s.live - {b[i].addr};
    FreedWellFormed(b, i, start, limit);
    forall q | q in live ensures Live(c, limit, q, live[q]) {
      FreeKeepsLive(b, i, limit, q, s.live[q]);
    }
    forall k | 0 <= k < |c| && c[k].used ensures c[k].addr in live {
      FreedUsed(b, i, start, limit, k);
    }
  }

  lemma FreeKeepsInv(s: State, header: int, start: int, limit: int)
    requires Inv(s, start, limit) && FreeResult(s.list, header).Done?
    ensures Inv(State(FreeResult(s.list, header).list, s.live - {header}), start, limit)
    ensures header in s.live
  {
    FreedKeepsInv(s, IndexOf(s.list, header), start, limit);
  }

  lemma StepKeepsInv(s: State, op: Op, start: int, limit: int)
    requires Inv(s, start, limit) && Legal(op, limit) && Apply(s, op, limit).Next?
    ensures Inv(Apply(s, op, limit).state, start, limit)
  {
    var t := Apply(s, op, limit).state;
    match op
    case Alloc(size, align) =>
      var r := AllocResult(s.list, size, align, limit);
      if r.Done? {
        AllocKeepsInv(s, size, align, start, limit);
        assert t == State(r.list, s.live[r.header := SizeWords(size)]);
      } else {
        assert t == s;
      }
    case Free(h) =>
      FreeKeepsInv(s, h, start, limit);
      assert t == State(FreeResult(s.list, h).list, s.live - {h});
  }

  /** A state is reachable by a run of calls that do not panic. */
  ghost predicate Reachable(s: State, ops: seq<Op>, start: int, limit: int)
    decreases |ops|
  {
    if ops == [] then s == Initial(start)
    else exists t: State {:trigger Reachable(t, ops[..|ops| - 1], start, limit)} ::
      var op := ops[|ops| - 1];
      && Reachable(t, ops[..|ops| - 1], start, limit)
      && Addressed(t.list) && Legal(op, limit)
      && Apply(t, op, limit) == Next(s)
  }

  /**
    Safety of every run: the list is well-formed, all live allocations lie inside
    the heap without overlapping, and the statistics account for every byte.
   */
  lemma RunSafe(s: State, ops: seq<Op>, start: int, limit: int)
    requires 0 < start && start + NODE <= limit
    requires Reachable(s, ops, start, limit)
    ensures Inv(s, start, limit)
    ensures forall p :: p in s.live ==> start <= p && p + NODE + s.live[p] <= limit
    ensures forall p, q :: p in s.live && q in s.live && p != q ==>
              p + NODE + s.live[p] <= q || q + NODE + s.live[q] <= p
    ensures Overhead(s.list, start) + Allocated(s.list, limit) + Holes(s.list) + Trailing(s.list, limit) == limit - start
  {
    RunKeepsInv(s, ops, start, limit);
    StateSafe(s, start, limit);
  }

  lemma StateSafe(s: State, start: int, limit: int)
    requires Inv(s, start, limit)
    ensures forall p :: p in s.live ==> start <= p && p + NODE + s.live[p] <= limit
    ensures forall p, q :: p in s.live && q in s.live && p != q ==>
              p + NODE + s.live[p] <= q || q + NODE + s.live[q] <= p
    ensures Overhead(s.list, start) + Allocated(s.list, limit) + Holes(s.list) + Trailing(s.list, limit) == limit - start
  {
    forall p, q | p in s.live && q in s.live && p != q
      ensures p + NODE + s.live[p] <= q || q + NODE + s.live[q] <= p
    {
      LiveDisjoint(s.list, start, limit, p, s.live[p], q, s.live[q]);
    }
    forall p | p in s.live ensures start <= p && p + NODE + s.live[p] <= limit {
      LiveInside(s.list, start, limit, p, s.live[p]);
    }
    Conservation(s.list, start, limit);
  }

  lemma {:induction false} RunKeepsInv(s: State, ops: seq<Op>, start: int, limit: int)
    requires 0 < start && start + NODE <= limit
    requires Reachable(s, ops, start, limit)
    ensures Inv(s, start, limit)
    decreases |ops|
  {
    if ops != [] {
      var op := ops[|ops| - 1];
      var t: State :| Reachable(t, ops[..|ops| - 1], start, limit) && Addressed(t.list) && Legal(op, limit)
        && Apply(t, op, limit) == Next(s);
      RunKeepsInv(t, ops[..|ops| - 1], start, limit);
      StepKeepsInv(t, op, start, limit);
    }
  }

  lemma LiveInside(b: seq<Block>, start: int, limit: int, x: int, n: int)
    requires Spaced(b, start, limit) && Live(b, limit, x, n)
    ensures start <= x && x + NODE + n <= limit
  {
    var k :| 0 <= k < |b| && b[k].used && b[k].addr == x && n <= Size(b, k, limit);
    HeadersApart(b, start, limit, k, k);
  }

  predicate TrailingFree(b: seq<Block>) { b != [] && !b[|b| - 1].used }

  lemma FreedTrailing(b: seq<Block>, k: int)
    requires TrailingFree(b) && 0 <= k < |b|
    ensures TrailingFree(Freed(b, k))
  {
    var left, right := Ahead(b, k), Behind(b, k);
    var c := Freed(b, k);
    if right != [] {
      assert c[|c| - 1] == right[|right| - 1] == b[|b| - 1];
    } else {
      assert c == left;
    }
  }

  /** While the trailing block is free, freeing a live pointer never panics, and leaves it free. */
  lemma FreeIsSafe(s: State, header: int, start: int, limit: int)
    requires Inv(s, start, limit) && TrailingFree(s.list) && header in s.live
    ensures Apply(s, Free(header), limit).Next? && TrailingFree(Apply(s, Free(header), limit).state.list)
  {
    LiveIndex(s.list, start, limit, header, s.live[header]);
    FreedTrailing(s.list, IndexOf(s.list, header));
  }

  lemma LiveIndex(b: seq<Block>, start: int, limit: int, addr: int, n: int)
    requires Spaced(b, start, limit) && Live(b, limit, addr, n)
    ensures var i := IndexOf(b, addr); i < |b| && b[i].used && n <= Size(b, i, limit)
  {
    var k :| 0 <= k < |b| && b[k].used && b[k].addr == addr && n <= Size(b, k, limit);
    IndexUnique(b, start, limit, k);
  }

  /** An allocation that leaves more than the threshold of the trailing block never panics, and leaves it free. */
  lemma AllocIsSafe(s: State, size: nat, align: nat, limit: int)
    requires Addressed(s.list) && TrailingFree(s.list) && NoWrap(size, align, limit)
    requires Chosen(s.list, size, align, limit) == |s.list| - 1 ==>
      Rest(s.list, |s.list| - 1, Target(s.list, size, align, limit), SizeWords(size), limit) > SPLIT
    ensures var r := Apply(s, Alloc(size, align), limit); r.Next? && TrailingFree(r.state.list)
  {
    var b := s.list;
    var i := Chosen(b, size, align, limit);
    if i < |b| {
      PlacedTrailing(b, i, Target(b, size, align, limit), SizeWords(size), limit);
    }
  }

  lemma PlacedTrailing(b: seq<Block>, i: int, dst: int, size: int, limit: int)
    requires TrailingFree(b) && 0 <= i < |b|
    requires i == |b| - 1 ==> Rest(b, i, dst, size, limit) > SPLIT
    ensures TrailingFree(Placed(b, i, dst, size, limit))
  {
    PlacedSplit(b, i, dst, size, limit);
    var c := Placed(b, i, dst, size, limit);
    var right := c[NewIndex(b, i, dst) + 1..];
    var rest := b[i + 1..];
    assert rest != [] ==> right[|right| - 1] == rest[|rest| - 1];
    assert c[|c| - 1] == right[|right| - 1];
  }

  /** While the trailing block is free, a free is caught exactly when the pointer is not live. */
  lemma FreeOfLive(s: State, header: int, start: int, limit: int)
    requires Inv(s, start, limit) && TrailingFree(s.list)
    ensures Apply(s, Free(header), limit).Next? <==> header in s.live
  {
    if header in s.live { FreeIsSafe(s, header, start, limit); }
  }

  // ---------------------------------------------------------------------
  // No panic
  // ---------------------------------------------------------------------

  /**
    A call as the allocator wants it: an allocation that leaves more than the
    threshold when it takes a piece of the trailing block, or a free of a live
    allocation.
   */
  predicate Tame(s: State, op: Op, limit: int)
    requires Addressed(s.list)
  {
    match op
    case Alloc(size, align) =>
      && NoWrap(size, align, limit)
      && (Chosen(s.list, size, align, limit) == |s.list| - 1 ==>
          Rest(s.list, |s.list| - 1, Target(s.list, size, align, limit), SizeWords(size), limit) > SPLIT)
    case Free(h) => h in s.live
  }

  /** What a call does; the allocator is not defined on a list with a header at a negative address. */
  function Call(s: State, op: Op, limit: int): Step {
    if Addressed(s.list) && Legal(op, limit) then Apply(s, op, limit) else Crash
  }

  function Run(s: State, ops: seq<Op>, limit: int): Step
    decreases |ops|
  {
    if ops == [] then Next(s)
    else match Call(s, ops[0], limit)
      case Crash => Crash
      case Next(t) => Run(t, ops[1..], limit)
  }

  /** Every call of the run is tame in the state it meets, as long as the run has not crashed. */
  predicate TameRun(s: State, ops: seq<Op>, limit: int)
    decreases |ops|
  {
    ops == [] ||
    (&& (Addressed(s.list) ==> Tame(s, ops[0], limit))
     && match Call(s, ops[0], limit)
        case Crash => true
        case Next(t) => TameRun(t, ops[1..], limit))
  }

  lemma TameStep(s: State, op: Op, start: int, limit: int)
    requires Inv(s, start, limit) && TrailingFree(s.list) && Addressed(s.list) && Tame(s, op, limit)
    ensures Call(s, op, limit).Next?
    ensures var t := Call(s, op, limit).state; Inv(t, start, limit) && TrailingFree(t.list)
  {
    match op {
      case Alloc(size, align) => AllocIsSafe(s, size, align, limit);
      case Free(h) => FreeIsSafe(s, h, start, limit);
    }
    StepKeepsInv(s, op, start, limit);
  }

  lemma {:induction false} TameRunKeeps(s: State, ops: seq<Op>, start: int, limit: int)
    requires Inv(s, start, limit) && TrailingFree(s.list) && TameRun(s, ops, limit)
    ensures Run(s, ops, limit).Next?
    ensures var t := Run(s, ops, limit).state; Inv(t, start, limit) && TrailingFree(t.list)
    decreases |ops|
  {
    if ops != [] {
      InvAddressed(s, start, limit);
      TameStep(s, ops[0], start, limit);
      TameRunKeeps(Call(s, ops[0], limit).state, ops[1..], start, limit);
    }
  }

  lemma InvAddressed(s: State, start: int, limit: int)
    requires Inv(s, start, limit)
    ensures Addressed(s.list)
  {
    forall i | 0 <= i < |s.list| ensures 0 <= s.list[i].addr { assert start <= s.list[i].addr; }
  }

  /**
    No run from `init` that keeps the trailing block free ever panics: neither
    one of the allocator's own checks nor a free fails. All along the trailing
    block stays free, live allocations lie apart inside the heap, and the
    statistics account for every word.
   */
  lemma RunNeverPanics(ops: seq<Op>, start: int, limit: int)
    requires 0 < start && start + NODE <= limit && TameRun(Initial(start), ops, limit)
    ensures Run(Initial(start), ops, limit).Next?
    ensures var s := Run(Initial(start), ops, limit).state;
      && Inv(s, start, limit) && TrailingFree(s.list)
      && (forall p, q :: p in s.live && q in s.live && p != q ==>
            p + NODE + s.live[p] <= q || q + NODE + s.live[q] <= p)
      && (forall p :: p in s.live ==> start <= p && p + NODE + s.live[p] <= limit)
      && Overhead(s.list, start) + Allocated(s.list, limit) + Holes(s.list) + Trailing(s.list, limit) == limit - start
  {
    TameRunKeeps(Initial(start), ops, start, limit);
    StateSafe(Run(Initial(start), ops, limit).state, start, limit);
  }

  // ---------------------------------------------------------------------
  // The boundary
  // ---------------------------------------------------------------------

  /**
    In every heap that has just been initialised, unless it is very small, there
    is a request that panics: it consumes the trailing block whole, and the
    space that it skips for alignment becomes a free block that the statistics
    do not know.
   */
  lemma WholeTrailingBlockPanics(start: nat, limit: nat) returns (size: nat, align: nat)
    requires 0 < start && 2 * (start + 14) <= limit <= U32 / 8
    ensures WellFormed([Block(start, false)], start, limit) && NoWrap(size, align, limit)
    ensures AllocResult([Block(start, false)], size, align, limit) == Panic
  {
    align := 4 * (start + 14);
    AlignBelowTwice(align);
    AlignWordsExact(align);
    var a := AlignWords(align);
    size := 4 * (limit - a);
    WholeWords(limit - a);
    ConsumedWhole(start, a, limit);
  }

  lemma WholeWords(n: nat)
    requires 0 < n
    ensures SizeWords(4 * n) == n
  {}

  /** The first fit for a request that ends at the heap end, at an alignment beyond the first node. */
  lemma ConsumedWhole(start: nat, a: nat, limit: nat)
    requires 0 < start && start + NODE < a < limit
    ensures var b := [Block(start, false)];
      && WellFormed(b, start, limit) && Place(start, a) == a - NODE && FirstFit(b, 0, limit - a, a, limit) == 0
  {
    var b := [Block(start, false)];
    AlignUpBelow(start + NODE, a);
    assert End(b, 0, limit) == limit;
    assert Candidate(b, 0, limit - a, a, limit);
  }

  lemma AlignUpBelow(x: nat, y: nat)
    requires 0 < x < y
    ensures AlignUp(x, y) == y
  {
    assert x % y == x;
  }

  lemma AlignBelowTwice(align: nat)
    requires 4 < align <= MAX_ALIGN
    ensures align <= RoundAlign(align) < 2 * align
  {
    RoundAlignIsLeast(align);
    var k: nat :| 2 <= k <= 31 && RoundAlign(align) == Pow2(k);
    var half := Pow2(k - 1);
    assert Pow2(k) == 2 * half;
  }

  /**
    A heap at word 1024 with room for 76 words: an allocation of 40 bytes at an
    alignment of 32 skips 5 words, which are lost to the heap start; freeing it
    leaves one free block that begins 5 words later.
   */
  lemma SmallSkipIsLost()
    ensures var b := [Block(1024, false)];
      && WellFormed(b, 1024, 1100) && NoWrap(40, 32, 1100)
      && AllocResult(b, 40, 32, 1100) == Done([Block(1029, true), Block(1042, false)], 1029)
      && FreeResult([Block(1029, true), Block(1042, false)], 1029) == Done([Block(1029, false)], 1029)
  {
    var b := [Block(1024, false)];
    assert BitCount(2) == 1 && BitCount(8) == 1 && BitCount(32) == 1;
    assert AlignWords(32) == 8 && SizeWords(40) == 10;
    assert AlignUp(1027, 8) == 1032;
    assert Candidate(b, 0, 10, 8, 1100);
    assert FirstFit(b, 0, 10, 8, 1100) == 0;
    var c := [Block(1029, true), Block(1042, false)];
    assert Placed(b, 0, 1029, 10, 1100) == c;
    assert IndexOf(c, 1029) == 0;
    assert Freed(c, 0) == [Block(1029, false)];
  }

  /** The last block of the heap can be allocated, but never freed: the call panics. */
  lemma LastBlockCannotBeFreed(b: seq<Block>, start: int, limit: int)
    requires Spaced(b, start, limit) && b != [] && b[|b| - 1].used
    ensures FreeResult(b, b[|b| - 1].addr) == Panic
  {
    IndexUnique(b, start, limit, |b| - 1);
  }
}
