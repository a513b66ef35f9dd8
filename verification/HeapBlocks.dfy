/**
  The kernel heap as a value: an address-ordered list of blocks that covers
  the heap from its first node to its end, together with the three statistics
  the allocator keeps. Everything in `KernelHeap` is specified by the
  functions of this module.

  Addresses and sizes are counted in 32-bit words throughout: node headers are
  made of words, and the allocator rounds every size and alignment up to whole
  words before it does anything else. Byte address x is word x / 4.
 */
module HeapBlocks {
  /** `sizeof(node_t)`, 12 bytes: two 32-bit pointers, the used flag and three sentinel bytes. */
  const NODE := 3
  /** `node_split_threshold`, 44 bytes: a header and 32 bytes more. */
  const SPLIT := NODE + 8

  /** A node: the address of its header, and whether it is allocated. */
  datatype Block = Block(addr: int, used: bool)

  /** The address just behind block i. */
  function End(b: seq<Block>, i: int, limit: int): int
    requires 0 <= i < |b|
  {
    if i + 1 < |b| then b[i + 1].addr else limit
  }

  /** `node_size`: the usable space of block i. */
  function Size(b: seq<Block>, i: int, limit: int): int
    requires 0 <= i < |b|
  {
    End(b, i, limit) - b[i].addr - NODE
  }

  /** The header of block i ends before that of block j begins. */
  ghost predicate Before(b: seq<Block>, i: int, j: int)
    requires 0 <= i < |b| && 0 <= j < |b|
  {
    b[i].addr + NODE <= b[j].addr
  }

  /** Headers lie inside the heap, in ascending order, and do not overlap. */
  ghost predicate Spaced(b: seq<Block>, start: int, limit: int) {
    && 0 < start
    && (forall i {:trigger b[i].addr} :: 0 <= i < |b| ==> start <= b[i].addr && b[i].addr + NODE <= limit)
    && (forall i, j :: 0 <= i < j < |b| ==> Before(b, i, j))
  }

  /** Distinct blocks do not overlap, and follow each other in list order. */
  lemma HeadersApart(b: seq<Block>, start: int, limit: int, i: int, k: int)
    requires Spaced(b, start, limit) && 0 <= i < |b| && 0 <= k < |b|
    ensures i < k ==> b[i].addr + NODE <= End(b, i, limit) <= b[k].addr
    ensures k < i ==> b[k].addr + NODE <= End(b, k, limit) <= b[i].addr
    ensures i + 1 == k ==> End(b, i, limit) == b[k].addr
    ensures start <= b[i].addr && b[i].addr + NODE <= End(b, i, limit) <= limit
  {
    if i + 1 < |b| { assert Before(b, i, i + 1); }
    if i + 1 < k { assert Before(b, i + 1, k); }
    if k < i { assert Before(b, k, i) && Before(b, k, k + 1); }
    if k + 1 < i { assert Before(b, k + 1, i); }
  }

  /** No two neighbouring blocks are both free. */
  ghost predicate Merged(b: seq<Block>) {
    forall i, j {:trigger b[i].used, b[j].used} :: 0 <= i && j == i + 1 && j < |b| ==> b[i].used || b[j].used
  }

  /** Allocated blocks are never empty. */
  ghost predicate Filled(b: seq<Block>, limit: int) {
    forall i {:trigger Size(b, i, limit)} :: 0 <= i < |b| && b[i].used ==> 0 < Size(b, i, limit)
  }

  /** The invariant of the node list between calls. */
  ghost predicate WellFormed(b: seq<Block>, start: int, limit: int) {
    b != [] && Spaced(b, start, limit) && Merged(b) && Filled(b, limit)
  }

  // ---------------------------------------------------------------------
  // Statistics
  // ---------------------------------------------------------------------

  /** The total size of the used (or of the free) blocks of a list that ends at `end`. */
  ghost function Sum(b: seq<Block>, end: int, used: bool): int {
    if b == [] then 0
    else (if b[0].used == used then Size(b, 0, end) else 0) + Sum(b[1..], end, used)
  }

  ghost function Overhead(b: seq<Block>, start: int): int
    requires b != []
  {
    b[0].addr - start + NODE * |b|
  }

  ghost function Allocated(b: seq<Block>, limit: int): int { Sum(b, limit, true) }

  /** Free space in front of the last block. */
  ghost function Holes(b: seq<Block>): int
    requires b != []
  {
    Sum(b[..|b| - 1], b[|b| - 1].addr, false)
  }

  /** The free space at the end of the heap, which is never counted as a hole. */
  ghost function Trailing(b: seq<Block>, limit: int): int
    requires b != []
  {
    if b[|b| - 1].used then 0 else Size(b, |b| - 1, limit)
  }

  lemma {:induction false} SumSplit(a: seq<Block>, b: seq<Block>, end: int, used: bool)
    requires b != []
    ensures Sum(a + b, end, used) == Sum(a, b[0].addr, used) + Sum(b, end, used)
  {
    if a == [] {
      assert a + b == b;
    } else {
      SumSplit(a[1..], b, end, used);
      assert (a + b)[1..] == a[1..] + b;
    }
  }

  lemma SumOne(x: Block, end: int, used: bool)
    ensures Sum([x], end, used) == if x.used == used then end - x.addr - NODE else 0
  {
    assert [x][1..] == [];
  }

  /** Peeling off the last block. */
  lemma SumLast(a: seq<Block>, x: Block, end: int, used: bool)
    ensures Sum(a + [x], end, used) == Sum(a, x.addr, used) + if x.used == used then end - x.addr - NODE else 0
  {
    SumSplit(a, [x], end, used);
    SumOne(x, end, used);
  }

  /** The holes are all free blocks but the trailing one. */
  lemma HolesAreFreeSpace(b: seq<Block>, limit: int)
    requires b != []
    ensures Holes(b) == Sum(b, limit, false) - Trailing(b, limit)
  {
    var n := |b| - 1;
    assert b == b[..n] + [b[n]];
    SumLast(b[..n], b[n], limit, false);
  }

  lemma {:induction false} SumsTile(b: seq<Block>, end: int)
    requires b != []
    ensures Sum(b, end, true) + Sum(b, end, false) + NODE * |b| == end - b[0].addr
  {
    if |b| > 1 {
      SumsTile(b[1..], end);
    }
  }

  /** Nothing of the heap is lost: every word is overhead, allocated, a hole, or trailing space. */
  lemma Conservation(b: seq<Block>, start: int, limit: int)
    requires b != []
    ensures Overhead(b, start) + Allocated(b, limit) + Holes(b) + Trailing(b, limit) == limit - start
  {
    SumsTile(b, limit);
    HolesAreFreeSpace(b, limit);
  }
}
