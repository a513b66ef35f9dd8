/**
  The kernel heap allocator (src/kernel/src/memory/kernel-heap.cc): a first-fit
  allocator over a doubly linked list of headers that lie in the memory they
  manage. The ghost field `nodes` is the list those headers form.

  A call that panics returns with `panic` set; nothing is promised about the
  heap after that, since the kernel stops.
 */
module KernelHeap {
  import opened HeapBlocks
  import opened HeapLists
  import opened HeapSpec
  import opened HeapMemory
  import opened Alignment

  /** `align_up` on u32 operands. */
  function AlignUp32(x: nat, y: nat): nat { AlignUp(x, y) % U32 }

  /**
    `fit_node`: the header for the data if it fits in the node, else 0 (null).
    The addresses it compares are byte addresses that wrap around at 2^32.
   */
  function FitNode(node: nat, nodeSize: nat, size: nat, align: nat): int {
    var data := AlignUp32(4 * (node + NODE), 4 * align);
    if (data + 4 * size) % U32 <= 4 * (node + NODE + nodeSize) then data / 4 - NODE else 0
  }

  lemma AlignUpScale(x: nat, y: nat)
    requires 0 < y
    ensures AlignUp(4 * x, 4 * y) == 4 * AlignUp(x, y)
  {
    ScaleMod(x, y);
  }

  /**
    The test is right unless the end of the data wraps around to an address
    that looks small enough.
   */
  lemma FitNodeWraps(node: nat, nodeSize: nat, size: nat, align: nat)
    requires 0 < node && 0 < align && 4 * size < U32
    requires 4 * AlignUp(node + NODE, align) < U32 && 4 * (node + NODE + nodeSize) < U32
    ensures var data := AlignUp(node + NODE, align);
      var end := node + NODE + nodeSize;
      (FitNode(node, nodeSize, size, align) == (if data + size <= end then data - NODE else 0))
      <==> (4 * (data + size) < U32 || 4 * end < 4 * (data + size) - U32)
  {
    AlignUpBounds(node + NODE, align);
    AlignUpScale(node + NODE, align);
    WrapOnce(4 * AlignUp(node + NODE, align), 4 * size);
  }

  /**
    A request of almost 4 GiB in a node with room for 400 bytes: the end of the
    data wraps around to byte 212, which is before the end of the node.
   */
  lemma HugeRequestFits()
    ensures FitNode(1000, 100, 1073740874, 1) == 1000 && 1003 + 1073740874 > 1000 + NODE + 100
  {
    assert AlignUp(4 * (1000 + NODE), 4) == 4012;
  }

  lemma WrapOnce(x: nat, y: nat)
    requires x < U32 && y < U32
    ensures x % U32 == x && (x + y) % U32 == if x + y < U32 then x + y else x + y - U32
  {
  }

  /** Where no address wraps around, `fit_node` is exact. */
  lemma FitNodeExact(node: nat, nodeSize: nat, size: nat, align: nat, limit: int)
    requires 0 < node && 0 < align && node + NODE + nodeSize <= limit && 4 * (limit + align + size) <= U32
    ensures FitNode(node, nodeSize, size, align)
         == if Place(node, align) + NODE + size <= node + NODE + nodeSize then Place(node, align) else 0
    ensures node <= Place(node, align)
  {
    AlignUpBounds(node + NODE, align);
    FitNodeWraps(node, nodeSize, size, align);
  }

  class Heap {
    const start: int
    const limit: int
    var mem: Memory
    var first: int
    var totalAllocated: int
    var totalHoleSize: int
    var totalOverhead: int
    ghost var nodes: seq<Block>

    /** The node list lies in memory. */
    ghost predicate Ok()
      reads this
    {
      Represents(mem, first, nodes, start, limit)
    }

    ghost predicate StatsOk()
      requires nodes != []
      reads this
    {
      && totalOverhead == Overhead(nodes, start)
      && totalAllocated == Allocated(nodes, limit)
      && totalHoleSize == Holes(nodes)
    }

    /** The invariant between calls. */
    ghost predicate Valid()
      reads this
    {
      Ok() && Words(mem, start, limit) && WellFormed(nodes, start, limit) && StatsOk()
    }

    /** `init`: one free node that covers the whole heap. */
    constructor (start: int, limit: int, mem: Memory)
      requires 0 < start && start + NODE <= limit
      requires Words(mem, start, limit)
      ensures Valid() && nodes == [Block(start, false)]
      ensures this.start == start && this.limit == limit
    {
      this.start, this.limit := start, limit;
      this.mem := mem[start := 0][start + 1 := 0][start + 2 := Tag(false)];
      first := start;
      totalOverhead, totalAllocated, totalHoleSize := NODE, 0, 0;
      nodes := [Block(start, false)];
      new;
      assert Sum([], start, false) == 0;
      SumOne(nodes[0], limit, true);
      assert nodes[..0] == [];
    }

    /** `node_size` */
    method NodeSize(node: int, ghost i: int) returns (size: int)
      requires Ok() && 0 <= i < |nodes| && nodes[i].addr == node
      ensures size == Size(nodes, i, limit)
    {
      assert HeaderAt(mem, nodes, i);
      if mem[node + 1] != 0 {
        size := mem[node + 1] - (node + NODE);
      } else {
        size := limit - (node + NODE);
      }
    }

    /** `verify_node` on a node of the list: no free neighbours, and ordered links. */
    method VerifyNode(node: int, ghost i: int) returns (ok: bool)
      requires Ok() && 0 <= i < |nodes| && nodes[i].addr == node
      ensures ok <==> nodes[i].used || ((0 < i ==> nodes[i - 1].used) && (i + 1 < |nodes| ==> nodes[i + 1].used))
    {
      assert HeaderAt(mem, nodes, i);
      if 0 < i { assert HeaderAt(mem, nodes, i - 1); HeadersApart(nodes, start, limit, i - 1, i); }
      if i + 1 < |nodes| { assert HeaderAt(mem, nodes, i + 1); HeadersApart(nodes, start, limit, i, i + 1); }
      var prev, next := mem[node], mem[node + 1];
      ok := true;
      if !HasSentinel(mem[node + 2]) {
        ok := false;
      } else if !IsUsed(mem[node + 2])
                && ((prev != 0 && !IsUsed(mem[prev + 2])) || (next != 0 && !IsUsed(mem[next + 2]))) {
        ok := false;
      } else if (next != 0 && next <= node) || (prev != 0 && node <= prev) {
        ok := false;
      }
    }

    /** `verify_stats`: recompute the three counters by walking the list; false means a panic. */
    method VerifyStats() returns (ok: bool)
      requires Ok()
      ensures ok <==> StatsOk()
    {
      var overhead, holes, inUse := first - start, 0, 0;
      var node := first;
      ghost var k := 0;
      assert nodes[..0] == [];
      while node != 0
        invariant 0 <= k <= |nodes|
        invariant node == if k < |nodes| then nodes[k].addr else 0
        invariant overhead == nodes[0].addr - start + NODE * k
        invariant k < |nodes| ==> inUse == Sum(nodes[..k], nodes[k].addr, true)
        invariant k < |nodes| ==> holes == Sum(nodes[..k], nodes[k].addr, false)
        invariant k == |nodes| ==> inUse == Allocated(nodes, limit) && holes == Holes(nodes)
        decreases |nodes| - k
      {
        if k == |nodes| { assert false; }
        assert HeaderAt(mem, nodes, k);
        overhead := overhead + NODE;
        var size := NodeSize(node, k);
        PrefixSums(nodes, k, limit);
        if IsUsed(mem[node + 2]) {
          inUse := inUse + size;
        } else if mem[node + 1] != 0 {
          holes := holes + size;
        }
        node := mem[node + 1];
        k := k + 1;
      }
      ok := overhead == totalOverhead && inUse == totalAllocated && holes == totalHoleSize;
    }

    /** `mem_move`; the ranges may overlap. */
    method MemMove(dst: int, src: int, n: nat)
      requires forall a :: dst <= a < dst + n || src <= a < src + n ==> a in mem
      modifies this`mem
      ensures mem.Keys == old(mem).Keys
      ensures forall k :: 0 <= k < n ==> Word(mem, dst, k) == Word(old(mem), src, k)
      ensures forall a :: a in mem && !(dst <= a < dst + n) ==> mem[a] == old(mem)[a]
    {
      if dst < src {
        for i := 0 to n
          invariant mem.Keys == old(mem).Keys
          invariant forall k :: 0 <= k < i ==> Word(mem, dst, k) == Word(old(mem), src, k)
          invariant forall a :: a in mem && !(dst <= a < dst + i) ==> mem[a] == old(mem)[a]
        {
          mem := mem[dst + i := mem[src + i]];
        }
      } else {
        for i := 0 to n
          invariant mem.Keys == old(mem).Keys
          invariant forall k :: n - i <= k < n ==> Word(mem, dst, k) == Word(old(mem), src, k)
          invariant forall a :: a in mem && !(dst + n - i <= a < dst + n) ==> mem[a] == old(mem)[a]
        {
          mem := mem[dst + (n - i - 1) := mem[src + (n - i - 1)]];
        }
      }
    }

    /**
      `insert_node` in front of an existing node. The free node `prev` gives up
      its end to the new node; if the new node is used and too close to leave
      room for both headers, the header of `prev` moves there instead.
     */
    method InsertNode(dst: int, prev: int, next: int, used: bool, ghost i: int)
      requires Ok() && Insertable(nodes, i, dst, used, start, limit)
      requires dst in mem && dst + 1 in mem && dst + 2 in mem
      requires prev == nodes[i].addr && next == NextOf(nodes, i)
      modifies this
      ensures Ok() && nodes == Inserted(old(nodes), i, dst, used)
      ensures HeadersOnly(old(mem), mem, old(nodes), i, limit)
      ensures old(StatsOk()) ==> (StatsOk() <==> !(used && next == 0 && SPLIT <= dst - prev))
    {
      ghost var b := nodes;
      InsertStats(b, i, dst, used, start, limit);
      var before, created := LinkIn(dst, prev, next, used, i);
      CountInserted(dst, before, next, used, created, b, i);
    }

    /** The first half of `insert_node`: put the header in place and link the neighbours to it. */
    method LinkIn(dst: int, prev: int, next: int, used: bool, ghost i: int) returns (before: int, created: bool)
      requires Ok() && Insertable(nodes, i, dst, used, start, limit)
      requires dst in mem && dst + 1 in mem && dst + 2 in mem
      requires prev == nodes[i].addr && next == NextOf(nodes, i)
      modifies this
      ensures Ok() && nodes == Inserted(old(nodes), i, dst, used)
      ensures HeadersOnly(old(mem), mem, old(nodes), i, limit)
      ensures created <==> !Swallows(prev, dst, used)
      ensures before == if created then prev else PrevOf(old(nodes), i)
      ensures totalOverhead == old(totalOverhead) + if created then NODE else if before == 0 then dst - prev else 0
      ensures totalAllocated == old(totalAllocated) + if !created && before != 0 then dst - prev else 0
      ensures totalHoleSize == old(totalHoleSize) - if next == 0 then 0 else if created then NODE else dst - prev
    {
      ghost var b, was := nodes, mem;
      assert HeaderAt(was, b, i);
      before, created := WriteHeader(dst, prev, next, used);
      ghost var m := mem;
      InsertLinked(was, m, b, i, dst, used, before, next, start, limit);
      if before != 0 { mem := mem[before + 1 := dst]; } else { first := dst; }
      if next != 0 { mem := mem[next := dst]; }
      assert mem == LinkNeighbours(m, before, next, dst);
      nodes := Inserted(b, i, dst, used);
    }

    /** A `mem_move` of one header. */
    method MoveHeader(dst: int, src: int)
      requires dst in mem && dst + 1 in mem && dst + 2 in mem
      requires src in mem && src + 1 in mem && src + 2 in mem
      modifies this`mem
      ensures mem == old(mem)[dst := old(mem)[src]][dst + 1 := old(mem)[src + 1]][dst + 2 := old(mem)[src + 2]]
    {
      MemMove(dst, src, NODE);
      assert forall k :: 0 <= k < 3 ==> Word(mem, dst, k) == Word(old(mem), src, k);
      assert Word(mem, dst, 0) == mem[dst] && Word(mem, dst, 1) == mem[dst + 1] && Word(mem, dst, 2) == mem[dst + 2];
      ghost var want := old(mem)[dst := old(mem)[src]][dst + 1 := old(mem)[src + 1]][dst + 2 := old(mem)[src + 2]];
      assert want.Keys == mem.Keys;
      forall a | a in mem ensures want[a] == mem[a] {}
    }

    /** The first half of `insert_node`: move the header of `prev` to `dst`, or write a new one. */
    method WriteHeader(dst: int, prev: int, next: int, used: bool) returns (before: int, created: bool)
      requires dst in mem && dst + 1 in mem && dst + 2 in mem
      requires prev in mem && prev + 1 in mem && prev + 2 in mem
      requires mem[prev + 1] == next && mem[prev + 2] == Tag(false)
      modifies this`mem, this`totalAllocated, this`totalHoleSize, this`totalOverhead
      ensures created <==> !Swallows(prev, dst, used)
      ensures before == if created then prev else old(mem)[prev]
      ensures SameBut(old(mem), mem, {dst, dst + 1, dst + 2})
      ensures mem[dst] == before && mem[dst + 1] == next && mem[dst + 2] == Tag(used)
      ensures totalOverhead == old(totalOverhead) + if created then NODE else if before == 0 then dst - prev else 0
      ensures totalAllocated == old(totalAllocated) + if !created && before != 0 then dst - prev else 0
      ensures totalHoleSize == old(totalHoleSize) - if next == 0 then 0 else if created then NODE else dst - prev
    {
      var diff := dst - prev;
      if used && diff < SPLIT {
        MoveHeader(dst, prev);
        before, created := mem[dst], false;
        mem := mem[dst + 2 := WithUsed(mem[dst + 2], used)];
        if before != 0 { totalAllocated := totalAllocated + diff; }
        else { totalOverhead := totalOverhead + diff; }
        if next != 0 { totalHoleSize := totalHoleSize - diff; }
      } else {
        before, created := prev, true;
        mem := mem[dst := prev][dst + 1 := next][dst + 2 := Tag(used)];
        totalOverhead := totalOverhead + NODE;
        if next != 0 { totalHoleSize := totalHoleSize - NODE; }
      }
    }

    /** The end of `insert_node`: account for the space of the new node. */
    method CountInserted(dst: int, prev: int, next: int, used: bool, created: bool, ghost b: seq<Block>, ghost i: int)
      requires 0 <= i < |b|
      requires Ok() && Insertable(b, i, dst, used, start, limit) && nodes == Inserted(b, i, dst, used)
      requires created <==> !Swallows(b[i].addr, dst, used)
      requires prev == (if created then b[i].addr else PrevOf(b, i)) && next == NextOf(b, i)
      modifies this`totalAllocated, this`totalHoleSize
      ensures var s := if used then End(b, i, limit) - dst - NODE else 0;
        && totalAllocated == old(totalAllocated) + s
        && totalHoleSize == old(totalHoleSize)
             + if next != 0 then -s else if !used then dst - b[i].addr - NODE else 0
    {
      ghost var at := if created then i + 1 else i;
      if created { CreatedAt(b, i, dst, used); }
      var size := NodeSize(dst, at);
      if used {
        totalAllocated := totalAllocated + size;
        if next != 0 { totalHoleSize := totalHoleSize - size; }
      } else if created && prev != 0 && next == 0 {
        var prevSize := NodeSize(prev, i);
        totalHoleSize := totalHoleSize + prevSize;
      }
    }

    /** `merge_into_prev_block`: a free node joins the free node before it. */
    method MergeIntoPrevBlock(node: int, ghost j: int) returns (merged: int)
      requires Ok() && 0 < j < |nodes| && nodes[j].addr == node && !nodes[j].used && !nodes[j - 1].used
      modifies this
      ensures Ok() && nodes == Removed(old(nodes), j) && merged == old(nodes)[j - 1].addr
      ensures HeaderWrites(old(mem), mem, old(nodes))
      ensures node + 2 in mem && mem[node + 2] == DEAD
      ensures old(StatsOk()) ==> StatsOk()
    {
      ghost var b, was := nodes, mem;
      assert HeaderAt(was, b, j);
      MergeLinked(was, first, b, j, start, limit);
      RemoveStats(b, j, start, limit);
      var prev, next := mem[node], mem[node + 1];
      if next != 0 {
        totalHoleSize := totalHoleSize + NODE;
        mem := mem[next := prev];
      } else {
        var prevSize := NodeSize(prev, j - 1);
        totalHoleSize := totalHoleSize - prevSize;
      }
      totalOverhead := totalOverhead - NODE;
      mem := mem[prev + 1 := next][node + 2 := DEAD];
      assert mem == MergeMemory(was, node, prev, next);
      nodes := Removed(b, j);
      merged := mem[node];
    }

    /** `node->next && !node->next->used` */
    method NextIsFree(node: int, ghost i: int) returns (free: bool)
      requires Ok() && 0 <= i < |nodes| && nodes[i].addr == node
      ensures free <==> i + 1 < |nodes| && !nodes[i + 1].used
    {
      assert HeaderAt(mem, nodes, i);
      if i + 1 < |nodes| { assert HeaderAt(mem, nodes, i + 1); }
      free := mem[node + 1] != 0 && !IsUsed(mem[mem[node + 1] + 2]);
    }

    /** `node->prev && !node->prev->used` */
    method PrevIsFree(node: int, ghost i: int) returns (free: bool)
      requires Ok() && 0 <= i < |nodes| && nodes[i].addr == node
      ensures free <==> 0 < i && !nodes[i - 1].used
    {
      assert HeaderAt(mem, nodes, i);
      if 0 < i { assert HeaderAt(mem, nodes, i - 1); }
      free := mem[node] != 0 && !IsUsed(mem[mem[node] + 2]);
    }

    /** Merge the next node into this free one, if it is free too. */
    method MergeNext(node: int, ghost i: int)
      requires Ok() && StatsOk() && 0 <= i < |nodes| && nodes[i].addr == node && !nodes[i].used
      modifies this
      ensures Ok() && StatsOk() && nodes == JoinedNext(old(nodes), i)
      ensures HeaderWrites(old(mem), mem, old(nodes))
    {
      var free := NextIsFree(node, i);
      if free {
        assert HeaderAt(mem, nodes, i);
        var merged := MergeIntoPrevBlock(mem[node + 1], i + 1);
      }
    }

    /** Merge this free node into the previous one, if that is free too. */
    method MergePrev(node: int, ghost i: int) returns (merged: int)
      requires Ok() && StatsOk() && 0 <= i < |nodes| && nodes[i].addr == node && !nodes[i].used
      modifies this
      ensures Ok() && StatsOk() && nodes == JoinedPrev(old(nodes), i)
      ensures HeaderWrites(old(mem), mem, old(nodes))
      ensures merged == old(if 0 < i && !nodes[i - 1].used then nodes[i - 1].addr else node)
      ensures old(0 < i && !nodes[i - 1].used) ==> node + 2 in mem && mem[node + 2] == DEAD
    {
      merged := node;
      var free := PrevIsFree(node, i);
      if free {
        merged := MergeIntoPrevBlock(node, i);
      }
    }

    /** `maybe_merge_with_adjacents`: a used node stays as it is; false means that a statistics check panicked. */
    method MaybeMergeWithAdjacents(node: int, ghost i: int) returns (merged: int, ok: bool)
      requires Ok() && 0 <= i < |nodes| && nodes[i].addr == node
      modifies this
      ensures old(nodes[i].used) ==> ok && merged == node && nodes == old(nodes) && mem == old(mem) && first == old(first)
      ensures old(nodes[i].used) ==> (StatsOk() <==> old(StatsOk()))
      ensures old(!nodes[i].used) ==> (ok <==> old(StatsOk()))
      ensures old(!nodes[i].used) && ok ==> Ok() && StatsOk() && nodes == Joined(old(nodes), i)
      ensures old(!nodes[i].used) && ok ==> HeaderWrites(old(mem), mem, old(nodes))
      ensures old(!nodes[i].used) && ok ==> merged == old(if 0 < i && !nodes[i - 1].used then nodes[i - 1].addr else node)
      ensures old(!nodes[i].used) && ok && old(0 < i && !nodes[i - 1].used) ==> node + 2 in mem && mem[node + 2] == DEAD
    {
      assert HeaderAt(mem, nodes, i);
      if IsUsed(mem[node + 2]) { return node, true; }
      merged, ok := MergeWithAdjacents(node, i);
    }

    /** The part of `maybe_merge_with_adjacents` for a free node. */
    method MergeWithAdjacents(node: int, ghost i: int) returns (merged: int, ok: bool)
      requires Ok() && 0 <= i < |nodes| && nodes[i].addr == node && !nodes[i].used
      modifies this
      ensures ok <==> old(StatsOk())
      ensures ok ==> Ok() && StatsOk() && nodes == Joined(old(nodes), i)
      ensures ok ==> HeaderWrites(old(mem), mem, old(nodes))
      ensures ok ==> merged == old(if 0 < i && !nodes[i - 1].used then nodes[i - 1].addr else node)
      ensures ok && old(0 < i && !nodes[i - 1].used) ==> node + 2 in mem && mem[node + 2] == DEAD
    {
      merged := node;
      ok := VerifyStats();
      if !ok { return; }
      ghost var b, was := nodes, mem;
      MergeNext(node, i);
      ghost var c, m := nodes, mem;
      ok := VerifyStats();
      merged := MergePrev(node, i);
      HeaderWritesCompose(was, m, mem, b, c);
      ok := VerifyStats();
    }

    /** The part of `alloc` that turns unused space behind the allocation into a free node. */
    method Pad(node: int, dst: int, size: int, align: nat, ghost i: int) returns (ok: bool)
      requires Valid() && Fits(nodes, i, dst, size, limit) && node == nodes[i].addr && dst == Place(node, align)
      requires Rest(nodes, i, dst, size, limit) > SPLIT
      requires 0 < align && 4 * (limit + align + size) <= U32
      modifies this
      ensures ok && Ok() && StatsOk() && nodes == Padded(old(nodes), i, dst, size, limit)
      ensures HeadersOnly(old(mem), mem, old(nodes), i, limit)
    {
      ghost var b := nodes;
      var padding := dst + NODE + size;
      assert HeaderAt(mem, nodes, i);
      PadInsertable(b, i, dst, size, start, limit);
      CreatedAt(b, i, padding, false);
      InsertNode(padding, node, mem[node + 1], false, i);
      ok := VerifyStats();
      // The node still yields the same place, else the kernel would panic.
      var nodeSize := NodeSize(node, i);
      FitNodeExact(node, nodeSize, size, align, limit);
      ok := ok && FitNode(node, nodeSize, size, align) == dst;
    }

    /** The part of `alloc` that marks the whole node used. */
    method TakeWhole(node: int, size: int, ghost i: int)
      requires Ok() && StatsOk() && 0 <= i < |nodes| && node == nodes[i].addr && !nodes[i].used
      requires size == Size(nodes, i, limit)
      modifies this
      ensures Ok() && StatsOk() && nodes == Marked(old(nodes), i, true)
      ensures SameBut(old(mem), mem, {node + 2})
    {
      assert HeaderAt(mem, nodes, i);
      LinkedMark(mem, nodes, i, true, start, limit);
      MarkedSpaced(nodes, i, true, start, limit);
      MarkStats(nodes, i, true, start, limit);
      mem := mem[node + 2 := WithUsed(mem[node + 2], true)];
      totalAllocated := totalAllocated + size;
      if mem[node + 1] != 0 { totalHoleSize := totalHoleSize - size; }
      nodes := Marked(nodes, i, true);
    }

    /** The part of `alloc` that makes the allocated node; false means that a statistics check panicked. */
    method Occupy(node: int, dst: int, size: int, ghost i: int) returns (ok: bool)
      requires Ok() && StatsOk() && Spot(nodes, i) && node == nodes[i].addr
      requires if dst == node then size == Size(nodes, i, limit) else Insertable(nodes, i, dst, true, start, limit)
      requires dst in mem && dst + 1 in mem && dst + 2 in mem
      modifies this
      ensures ok <==> !(i + 1 == |old(nodes)| && SPLIT <= dst - node)
      ensures ok ==> Ok() && StatsOk() && HeadersOnly(old(mem), mem, old(nodes), i, limit)
      ensures ok ==> nodes == old(if dst == node then Marked(nodes, i, true) else Inserted(nodes, i, dst, true))
    {
      assert HeaderAt(mem, nodes, i);
      NextIsNull(nodes, i, start, limit);
      if dst != node {
        InsertNode(dst, node, mem[node + 1], true, i);
        ok := VerifyStats();
      } else {
        TakeWhole(node, size, i);
        ok := true;
      }
    }

    /** The part of `alloc` that splits the chosen node; false means that a statistics check panicked. */
    method Carve(node: int, dst: int, size: int, align: nat, ghost i: int) returns (taken: int, ok: bool)
      requires Valid() && Fits(nodes, i, dst, size, limit) && node == nodes[i].addr && dst == Place(node, align)
      requires 0 < align && 4 * (limit + align + size) <= U32
      modifies this
      ensures ok <==> !Miscounts(old(nodes), i, dst, size, limit)
      ensures ok ==> Ok() && StatsOk() && nodes == Placed(old(nodes), i, dst, size, limit)
      ensures ok ==> HeadersOnly(old(mem), mem, old(nodes), i, limit)
      ensures taken == if Rest(old(nodes), i, dst, size, limit) > SPLIT then size
                       else size + Rest(old(nodes), i, dst, size, limit)
    {
      ghost var b, was := nodes, mem;
      PaddedSpaced(b, i, dst, size, start, limit);
      PlacedInSteps(b, i, dst, size, limit);
      var space := NodeSize(node, i);
      var unused := NODE + space - (dst - node) - (NODE + size);
      taken := size;
      if unused > SPLIT {
        ok := Pad(node, dst, size, align, i);
      } else {
        taken := size + unused;
      }
      ghost var c, m := nodes, mem;
      PaddedEnd(b, i, dst, size, limit);
      ok := Occupy(node, dst, taken, i);
      if ok { CarveCovered(was, m, mem, b, i, dst, size, limit); }
    }

    /** `mem_set` of the allocation to zero. */
    method Clear(data: int, size: int)
      requires 0 <= size && forall a :: data <= a < data + size ==> a in mem
      modifies this`mem
      ensures mem.Keys == old(mem).Keys
      ensures forall a :: a in mem ==> mem[a] == if data <= a < data + size then 0 else old(mem)[a]
    {
      for i := 0 to size
        invariant mem.Keys == old(mem).Keys
        invariant forall a :: a in mem ==> mem[a] == if data <= a < data + i then 0 else old(mem)[a]
      {
        mem := mem[data + i := 0];
      }
    }

    /** `if (dst->prev) dst->prev = maybe_merge_with_adjacents(dst->prev)`; nothing is left to merge. */
    method OfferPrev(dst: int, ghost j: int) returns (ok: bool)
      requires Ok() && StatsOk() && Merged(nodes) && 0 <= j < |nodes| && nodes[j] == Block(dst, true)
      modifies this
      ensures ok && Ok() && StatsOk() && nodes == old(nodes)
      ensures HeaderWrites(old(mem), mem, nodes)
    {
      ok := true;
      assert HeaderAt(mem, nodes, j);
      var prev := mem[dst];
      if prev != 0 {
        var merged;
        assert HeaderAt(mem, nodes, j - 1);
        if !nodes[j - 1].used { JoinedNone(nodes, j - 1); }
        merged, ok := MaybeMergeWithAdjacents(prev, j - 1);
        assert HeaderAt(mem, nodes, j);
        SameValue(mem, dst, merged);
        mem := mem[dst := merged];
      }
    }

    /** `if (dst->next) dst->next = maybe_merge_with_adjacents(dst->next)`; nothing is left to merge. */
    method OfferNext(dst: int, ghost j: int) returns (ok: bool)
      requires Ok() && StatsOk() && Merged(nodes) && 0 <= j < |nodes| && nodes[j] == Block(dst, true)
      modifies this
      ensures ok && Ok() && StatsOk() && nodes == old(nodes)
      ensures HeaderWrites(old(mem), mem, nodes)
    {
      ok := true;
      assert HeaderAt(mem, nodes, j);
      var next := mem[dst + 1];
      if next != 0 {
        var merged;
        assert HeaderAt(mem, nodes, j + 1);
        if !nodes[j + 1].used { JoinedNone(nodes, j + 1); }
        merged, ok := MaybeMergeWithAdjacents(next, j + 1);
        assert HeaderAt(mem, nodes, j);
        SameValue(mem, dst + 1, merged);
        mem := mem[dst + 1 := merged];
      }
    }

    /** `mem_set` of the payload of block j. */
    method ClearPayload(dst: int, taken: int, ghost j: int)
      requires Ok() && StatsOk() && Words(mem, start, limit) && Spaced(nodes, start, limit)
      requires 0 <= j < |nodes| && nodes[j].addr == dst && taken == Size(nodes, j, limit)
      modifies this`mem
      ensures Ok() && StatsOk() && mem.Keys == old(mem).Keys
      ensures forall a :: a in mem ==> mem[a] == if dst + NODE <= a < dst + NODE + taken then 0 else old(mem)[a]
    {
      ghost var m := mem;
      HeadersApart(nodes, start, limit, j, j);
      Clear(dst + NODE, taken);
      LinkedClear(m, mem, nodes, j, start, limit);
    }

    /** The last part of `alloc`: offer the neighbours for merging, and clear the payload. */
    method Finish(dst: int, taken: int, ghost j: int) returns (ok: bool)
      requires Ok() && StatsOk() && Words(mem, start, limit) && WellFormed(nodes, start, limit)
      requires 0 <= j < |nodes| && nodes[j] == Block(dst, true) && taken == Size(nodes, j, limit)
      modifies this
      ensures ok && Valid() && nodes == old(nodes)
      ensures mem.Keys == old(mem).Keys
      ensures forall a :: a in mem && mem[a] != old(mem)[a] ==> dst + NODE <= a < dst + NODE + taken || InHeader(nodes, a)
      ensures forall a :: a in mem && dst + NODE <= a < dst + NODE + taken ==> mem[a] == 0
    {
      ok := OfferPrev(dst, j);
      ghost var m := mem;
      ok := OfferNext(dst, j);
      assert forall a :: a in mem && mem[a] != old(mem)[a] ==> InHeader(nodes, a);
      ClearPayload(dst, taken, j);
      ok := VerifyStats();
    }

    /** What `alloc` does with the node it has chosen. */
    method Take(node: int, dst: int, size: int, align: nat, ghost i: int) returns (data: int, panic: bool)
      requires Valid() && Fits(nodes, i, dst, size, limit) && node == nodes[i].addr && dst == Place(node, align)
      requires 0 < align && 4 * (limit + align + size) <= U32
      modifies this
      ensures panic <==> Miscounts(old(nodes), i, dst, size, limit)
      ensures !panic ==> Valid() && nodes == Placed(old(nodes), i, dst, size, limit) && data == dst + NODE
      ensures !panic ==> HeadersOnly(old(mem), mem, old(nodes), i, limit)
      ensures !panic ==> forall a :: a in mem && data <= a < data + size ==> mem[a] == 0
    {
      ghost var b, was := nodes, mem;
      data, panic := 0, false;
      var taken, ok := Carve(node, dst, size, align, i);
      if !ok { panic := true; return; }
      PlacedMerged(b, i, dst, size, limit);
      PlacedFilled(b, i, dst, size, limit);
      NewSize(b, i, dst, size, limit);
      ghost var m := mem;
      ok := Finish(dst, taken, NewIndex(b, i, dst));
      data := dst + NODE;
      TakeCovered(was, m, mem, b, i, dst, size, start, limit);
    }

    /** One step of the search of `alloc`: the header in this node if the request fits there, else null. */
    method TryNode(node: int, size: nat, align: nat, ghost i: int) returns (dst: int, panic: bool)
      requires Valid() && 0 < align && 4 * (limit + align + size) <= U32
      requires 0 <= i < |nodes| && node == nodes[i].addr
      ensures !panic && dst == if Candidate(nodes, i, size, align, limit) then Place(node, align) else 0
      ensures node <= Place(node, align)
    {
      dst, panic := 0, false;
      HeadersApart(nodes, start, limit, i, i);
      assert HeaderAt(mem, nodes, i);
      var ok := VerifyNode(node, i);
      var nodeSize := NodeSize(node, i);
      FitNodeExact(node, nodeSize, size, align, limit);
      if !ok {
        panic := true;
      } else if !IsUsed(mem[node + 2]) {
        dst := FitNode(node, nodeSize, size, align);
      }
    }

    /** The loop of `alloc`: the first node the request fits in, and the header for it there. */
    method Search(size: nat, align: nat) returns (node: int, dst: int, panic: bool, ghost i: nat)
      requires Valid() && 0 < align && 4 * (limit + align + size) <= U32
      ensures !panic && i == FirstFit(nodes, 0, size, align, limit)
      ensures i == |nodes| ==> node == 0
      ensures i < |nodes| ==> node == nodes[i].addr && dst == Place(node, align)
    {
      node, dst, panic, i := first, 0, false, 0;
      while node != 0
        invariant 0 <= i <= |nodes| && node == if i < |nodes| then nodes[i].addr else 0
        invariant forall j :: 0 <= j < i ==> !Candidate(nodes, j, size, align, limit)
        invariant !panic
        decreases |nodes| - i
      {
        if i == |nodes| { assert false; }
        dst, panic := TryNode(node, size, align, i);
        if panic { return; }
        if dst != 0 {
          FirstFitIs(nodes, i, size, align, limit);
          return;
        }
        assert HeaderAt(mem, nodes, i);
        NextIsNull(nodes, i, start, limit);
        node := mem[node + 1];
        i := i + 1;
      }
      FirstFitNone(nodes, size, align, limit);
    }

    /**
      `alloc` of `size` bytes: first fit. Null (0) exactly when no free block has
      room; a panic exactly when the trailing block is consumed in the one way
      that the counters do not follow. Otherwise the byte address 4 * data is
      aligned, all of the requested bytes are zero, and no allocated payload has
      changed.
     */
    method Alloc(size: nat, align: nat) returns (data: int, panic: bool)
      requires Valid() && NoWrap(size, align, limit)
      modifies this
      ensures panic <==> AllocResult(old(nodes), size, align, limit).Panic?
      ensures !panic ==> Valid()
      ensures !panic && data == 0 ==>
        && nodes == old(nodes) && mem == old(mem)
        && forall i :: 0 <= i < |nodes| ==> !Candidate(nodes, i, SizeWords(size), AlignWords(align), limit)
      ensures !panic && data != 0 ==>
        && AllocResult(old(nodes), size, align, limit) == Done(nodes, data - NODE)
        && RoundAlign(align) > 0 && 4 * data % RoundAlign(align) == 0
        && (forall a :: a in mem && 4 * data <= 4 * a < 4 * data + size ==> mem[a] == 0)
        && PayloadKept(old(mem), mem, old(nodes), limit)
    {
      var s, a := SizeWords(size), AlignWords(align);
      AlignWordsExact(align);
      ghost var b := nodes;
      data := 0;
      var node, dst;
      ghost var i;
      node, dst, panic, i := Search(s, a);
      if node != 0 {
        TargetFits(b, size, align, start, limit);
        data, panic := Take(node, dst, s, a, i);
        if !panic { HeaderWritesKeepPayload(old(mem), mem, b, i, start, limit); }
      }
    }

    /** The pointers `free` can judge: below the heap, behind a header, or behind a word that is no sentinel. */
    ghost predicate Judgeable(p: int)
      reads this
    {
      || p < start + NODE
      || IndexOf(nodes, p - NODE) < |nodes|
      || (p - NODE + 2 in mem && !HasSentinel(mem[p - NODE + 2]))
    }

    /** The part of `free` that marks the block free and counts it as a hole. */
    method Release(node: int, ghost i: int)
      requires Ok() && StatsOk() && 0 <= i < |nodes| && nodes[i].addr == node && nodes[i].used
      requires 0 < Size(nodes, i, limit)
      modifies this
      ensures Ok() && nodes == Marked(old(nodes), i, false)
      ensures StatsOk() <==> i + 1 < |nodes|
      ensures SameBut(old(mem), mem, {node + 2})
    {
      assert HeaderAt(mem, nodes, i);
      LinkedMark(mem, nodes, i, false, start, limit);
      MarkedSpaced(nodes, i, false, start, limit);
      MarkStats(nodes, i, false, start, limit);
      mem := mem[node + 2 := WithUsed(mem[node + 2], false)];
      ghost var b := nodes;
      nodes := Marked(nodes, i, false);
      var size := NodeSize(node, i);
      totalAllocated := totalAllocated - size;
      totalHoleSize := totalHoleSize + size;
    }

    /** The checks of `free`: is p the data of an allocated block? */
    method CheckPointer(p: int, ghost i: nat) returns (ok: bool)
      requires Valid() && Judgeable(p) && i == IndexOf(nodes, p - NODE)
      ensures ok <==> i < |nodes| && nodes[i].used
    {
      ok := false;
      if start + NODE <= p {
        var node := p - NODE;
        if i < |nodes| { assert HeaderAt(mem, nodes, i); }
        if HasSentinel(mem[node + 2]) {
          ok := VerifyNode(node, i);
          ok := ok && IsUsed(mem[node + 2]);
        }
      }
    }

    /** The merging of a block that has just been marked free; `was` and `b` are from before that. */
    method MergeReleased(node: int, ghost i: int, ghost was: Memory, ghost b: seq<Block>) returns (ok: bool)
      requires Ok() && WellFormed(b, start, limit) && 0 <= i < |b| && b[i].used && b[i].addr == node
      requires nodes == Marked(b, i, false) && SameBut(was, mem, {node + 2}) && (StatsOk() <==> i + 1 < |nodes|)
      modifies this
      ensures ok <==> i + 1 < |b|
      ensures ok ==> Ok() && StatsOk() && nodes == Joined(Marked(b, i, false), i)
      ensures ok ==> PayloadKept(was, mem, b, limit) && mem.Keys == was.Keys
      ensures ok && 0 < i && !b[i - 1].used ==> node + 2 in mem && mem[node + 2] == DEAD
    {
      ghost var m := mem;
      var merged;
      merged, ok := MaybeMergeWithAdjacents(node, i);
      if ok { FreeKeepsPayload(was, m, mem, b, i, start, limit); }
    }

    /** The part of `free` behind the checks. */
    method FreeBlock(node: int, ghost i: int) returns (ok: bool)
      requires Valid() && 0 <= i < |nodes| && nodes[i].addr == node && nodes[i].used
      modifies this
      ensures ok <==> i + 1 < |old(nodes)|
      ensures ok ==> Valid() && nodes == Freed(old(nodes), i)
      ensures ok ==> PayloadKept(old(mem), mem, old(nodes), limit)
      ensures ok && old(0 < i && !nodes[i - 1].used) ==> node + 2 in mem && mem[node + 2] == DEAD
    {
      ghost var b, was := nodes, mem;
      assert 0 < Size(b, i, limit);
      Release(node, i);
      ok := MergeReleased(node, i, was, b);
      if ok {
        FreedWellFormed(b, i, start, limit);
        ok := VerifyStats();
      }
    }

    /**
      `free`: panics unless p is the data of an allocated block other than the
      last one. Otherwise the block is free and merged with its free
      neighbours, and no payload has changed. Afterwards p is still judgeable,
      so that freeing it again panics.
     */
    method Free(p: int) returns (panic: bool)
      requires Valid() && Judgeable(p)
      modifies this
      ensures panic <==> FreeResult(old(nodes), p - NODE).Panic?
      ensures !panic ==> Valid() && FreeResult(old(nodes), p - NODE) == Done(nodes, p - NODE)
      ensures !panic ==> PayloadKept(old(mem), mem, old(nodes), limit)
      ensures !panic ==> Judgeable(p)
    {
      ghost var b := nodes;
      ghost var i := IndexOf(b, p - NODE);
      var ok := CheckPointer(p, i);
      if ok {
        ok := FreeBlock(p - NODE, i);
        if !(0 < i && !b[i - 1].used) { FreedHas(b, i); }
      }
      panic := !ok;
    }
  }

  /** The sums `verify_stats` has after one more node. */
  lemma PrefixSums(b: seq<Block>, k: int, limit: int)
    requires 0 <= k < |b|
    ensures k + 1 < |b| ==> forall u ::
      Sum(b[..k + 1], b[k + 1].addr, u) == Sum(b[..k], b[k].addr, u) + if b[k].used == u then Size(b, k, limit) else 0
    ensures k + 1 == |b| ==>
      && Allocated(b, limit) == Sum(b[..k], b[k].addr, true) + (if b[k].used then Size(b, k, limit) else 0)
      && Holes(b) == Sum(b[..k], b[k].addr, false)
  {
    assert b[..k + 1] == b[..k] + [b[k]];
    forall u ensures
      Sum(b[..k + 1], End(b, k, limit), u) == Sum(b[..k], b[k].addr, u) + if b[k].used == u then Size(b, k, limit) else 0
    {
      SumLast(b[..k], b[k], End(b, k, limit), u);
    }
    if k + 1 == |b| { assert b[..k + 1] == b; }
  }

  lemma FirstFitIs(b: seq<Block>, i: nat, size: nat, align: nat, limit: int)
    requires Addressed(b) && i < |b| && Candidate(b, i, size, align, limit)
    requires forall j :: 0 <= j < i ==> !Candidate(b, j, size, align, limit)
    ensures FirstFit(b, 0, size, align, limit) == i
  {
  }

  lemma FirstFitNone(b: seq<Block>, size: nat, align: nat, limit: int)
    requires Addressed(b)
    requires forall j :: 0 <= j < |b| ==> !Candidate(b, j, size, align, limit)
    ensures FirstFit(b, 0, size, align, limit) == |b|
  {
  }

  lemma FreeKeepsPayload(was: Memory, m: Memory, mem: Memory, b: seq<Block>, i: int, start: int, limit: int)
    requires Spaced(b, start, limit) && 0 <= i < |b|
    requires SameBut(was, m, {b[i].addr + 2}) && HeaderWrites(m, mem, Marked(b, i, false))
    ensures PayloadKept(was, mem, b, limit) && mem.Keys == was.Keys
  {
    forall a | a in was && mem[a] != was[a] ensures InHeader(b, a) {
      if a == b[i].addr + 2 { assert b[i].addr <= a < b[i].addr + NODE; }
      else {
        var c := Marked(b, i, false);
        var k :| 0 <= k < |c| && c[k].addr <= a < c[k].addr + NODE;
        assert c[k].addr == b[k].addr;
      }
    }
    HeadersKeepPayload(was, mem, b, start, limit);
  }
}
