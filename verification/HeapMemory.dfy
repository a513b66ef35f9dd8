/**
  How the node list of the kernel heap lies in memory. Memory is a map from
  word addresses to 32-bit words; a node header is three of them: the previous
  header, the next header, and the used flag with the sentinel above it.
 */
module HeapMemory {
  import opened HeapBlocks
  import opened HeapLists
  import opened HeapSpec

  type Memory = map<int, int>

  /** The third header word: sentinel 'UUU' above the used byte. */
  function Tag(used: bool): int { 0x5555_5500 + if used then 1 else 0 }

  /** The same word after `invalidate_node`. */
  const DEAD := 0x5656_5600

  function WithUsed(word: int, used: bool): int { word - word % 256 + if used then 1 else 0 }
  predicate IsUsed(word: int) { word % 256 != 0 }
  predicate HasSentinel(word: int) { word / 256 == 0x555555 }

  /** Memory holds one word for every address of the heap. */
  ghost predicate Words(mem: Memory, start: int, limit: int) {
    forall a :: a in mem <==> start <= a < limit
  }

  function PrevOf(b: seq<Block>, i: int): int
    requires 0 <= i < |b|
  {
    if 0 < i then b[i - 1].addr else 0
  }

  function NextOf(b: seq<Block>, i: int): int
    requires 0 <= i < |b|
  {
    if i + 1 < |b| then b[i + 1].addr else 0
  }

  ghost predicate HeaderAt(mem: Memory, b: seq<Block>, i: int)
    requires 0 <= i < |b|
  {
    var a := b[i].addr;
    && a in mem && a + 1 in mem && a + 2 in mem
    && mem[a] == PrevOf(b, i) && mem[a + 1] == NextOf(b, i) && mem[a + 2] == Tag(b[i].used)
  }

  ghost predicate Linked(mem: Memory, b: seq<Block>) {
    forall i :: 0 <= i < |b| ==> HeaderAt(mem, b, i)
  }

  /** The list lies in memory, from header `first` on. */
  ghost predicate Represents(mem: Memory, first: int, b: seq<Block>, start: int, limit: int) {
    b != [] && Spaced(b, start, limit) && Linked(mem, b) && first == b[0].addr
  }

  /** The words of the two memories differ at most at the given addresses. */
  ghost predicate SameBut(mem: Memory, mem': Memory, at: set<int>) {
    mem'.Keys == mem.Keys && forall a :: a in mem && a !in at ==> mem'[a] == mem[a]
  }

  /** The payload of every used block is the same in both memories. */
  ghost predicate PayloadKept(mem: Memory, mem': Memory, b: seq<Block>, limit: int) {
    forall k, a {:trigger End(b, k, limit), mem[a]} :: 0 <= k < |b| && b[k].used && b[k].addr + NODE <= a < End(b, k, limit) && a in mem
      ==> a in mem' && mem'[a] == mem[a]
  }

  /** Word k of the record at `base`. */
  function Word(mem: Memory, base: int, k: int): int
    requires base + k in mem
  {
    mem[base + k]
  }

  // ---------------------------------------------------------------------
  // The list stays linked
  // ---------------------------------------------------------------------

  /** The addresses written when a header moves from block i up to dst. */
  ghost function SwallowWrites(b: seq<Block>, i: int, dst: int): set<int>
    requires 0 <= i < |b|
  {
    {dst, dst + 1, dst + 2}
    + (if 0 < i then {b[i - 1].addr + 1} else {})
    + (if i + 1 < |b| then {b[i + 1].addr} else {})
  }

  lemma LinkedSwallow(mem: Memory, mem': Memory, b: seq<Block>, i: int, dst: int, start: int, limit: int)
    requires Linked(mem, b) && Insertable(b, i, dst, true, start, limit) && Swallows(b[i].addr, dst, true)
    requires SameBut(mem, mem', SwallowWrites(b, i, dst))
    requires dst in mem && dst + 1 in mem && dst + 2 in mem
    requires mem'[dst] == PrevOf(b, i) && mem'[dst + 1] == NextOf(b, i) && mem'[dst + 2] == Tag(true)
    requires 0 < i ==> b[i - 1].addr + 1 in mem && mem'[b[i - 1].addr + 1] == dst
    requires i + 1 < |b| ==> b[i + 1].addr in mem && mem'[b[i + 1].addr] == dst
    ensures Linked(mem', Inserted(b, i, dst, true))
  {
    var c := b[i := Block(dst, true)];
    forall k | 0 <= k < |c| ensures HeaderAt(mem', c, k) {
      if k != i {
        SwallowApart(b, i, dst, start, limit, k);
        HeaderMoved(mem, mem', SwallowWrites(b, i, dst), b, k, c, k, {i - 1}, {i + 1});
      }
    }
  }

  /** Moving the header of block i touches another header only in the link to block i. */
  lemma SwallowApart(b: seq<Block>, i: int, dst: int, start: int, limit: int, k: int)
    requires Insertable(b, i, dst, true, start, limit) && 0 <= k < |b| && k != i
    ensures k != i + 1 ==> b[k].addr !in SwallowWrites(b, i, dst)
    ensures k != i - 1 ==> b[k].addr + 1 !in SwallowWrites(b, i, dst)
    ensures b[k].addr + 2 !in SwallowWrites(b, i, dst)
  {
    HeadersApart(b, start, limit, i, k);
    OtherHeader(b, start, limit, i, k);
  }

  /** The neighbours' link words written by an insertion at i lie in no other header. */
  lemma OtherHeader(b: seq<Block>, start: int, limit: int, i: int, k: int)
    requires Spaced(b, start, limit) && 0 <= i < |b| && 0 <= k < |b| && i != k
    ensures 0 < i && k != i - 1 ==> b[i - 1].addr + 1 !in {b[k].addr, b[k].addr + 1, b[k].addr + 2}
    ensures 0 < i && k == i - 1 ==> b[i - 1].addr + 1 !in {b[k].addr, b[k].addr + 2}
    ensures i + 1 < |b| && k != i + 1 ==> b[i + 1].addr !in {b[k].addr, b[k].addr + 1, b[k].addr + 2}
    ensures i + 1 < |b| && k == i + 1 ==> b[i + 1].addr !in {b[k].addr + 1, b[k].addr + 2}
  {
    if 0 < i && k != i - 1 { HeadersApart(b, start, limit, i - 1, k); HeadersApart(b, start, limit, k, i - 1); }
    if i + 1 < |b| && k != i + 1 { HeadersApart(b, start, limit, i + 1, k); HeadersApart(b, start, limit, k, i + 1); }
  }

  /** The addresses written when a new header is created at dst inside block i. */
  ghost function CreateWrites(b: seq<Block>, i: int, dst: int): set<int>
    requires 0 <= i < |b|
  {
    {dst, dst + 1, dst + 2, b[i].addr + 1} + (if i + 1 < |b| then {b[i + 1].addr} else {})
  }

  lemma LinkedCreate(mem: Memory, mem': Memory, b: seq<Block>, i: int, dst: int, used: bool, start: int, limit: int)
    requires Linked(mem, b) && Insertable(b, i, dst, used, start, limit) && !Swallows(b[i].addr, dst, used)
    requires SameBut(mem, mem', CreateWrites(b, i, dst))
    requires dst in mem && dst + 1 in mem && dst + 2 in mem
    requires mem'[dst] == b[i].addr && mem'[dst + 1] == NextOf(b, i) && mem'[dst + 2] == Tag(used)
    requires b[i].addr + 1 in mem && mem'[b[i].addr + 1] == dst
    requires i + 1 < |b| ==> b[i + 1].addr in mem && mem'[b[i + 1].addr] == dst
    ensures Linked(mem', Inserted(b, i, dst, used))
  {
    var c := Inserted(b, i, dst, used);
    CreatedAt(b, i, dst, used);
    forall k | 0 <= k < |c| ensures HeaderAt(mem', c, k) {
      if k <= i {
        CreateApart(b, i, dst, used, start, limit, k);
        HeaderMoved(mem, mem', CreateWrites(b, i, dst), b, k, c, k, {i}, {});
      } else if k > i + 1 {
        CreateApart(b, i, dst, used, start, limit, k - 1);
        HeaderMoved(mem, mem', CreateWrites(b, i, dst), b, k - 1, c, k, {}, {i + 1});
      }
    }
  }

  /** A header stays right when its block moves in the list, if its link words changed with its neighbours. */
  lemma HeaderMoved(mem: Memory, mem': Memory, at: set<int>, b: seq<Block>, k: int, c: seq<Block>, l: int,
                    nextChanged: set<int>, prevChanged: set<int>)
    requires 0 <= k < |b| && 0 <= l < |c| && b[k] == c[l]
    requires HeaderAt(mem, b, k) && SameBut(mem, mem', at)
    requires b[k].addr + 2 !in at
    requires if k in nextChanged then mem'[b[k].addr + 1] == NextOf(c, l)
             else b[k].addr + 1 !in at && NextOf(c, l) == NextOf(b, k)
    requires if k in prevChanged then mem'[b[k].addr] == PrevOf(c, l)
             else b[k].addr !in at && PrevOf(c, l) == PrevOf(b, k)
    ensures HeaderAt(mem', c, l)
  {
  }

  lemma CreateApart(b: seq<Block>, i: int, dst: int, used: bool, start: int, limit: int, k: int)
    requires Insertable(b, i, dst, used, start, limit) && !Swallows(b[i].addr, dst, used)
    requires 0 <= k < |b|
    ensures k != i + 1 ==> b[k].addr !in CreateWrites(b, i, dst)
    ensures k != i ==> b[k].addr + 1 !in CreateWrites(b, i, dst)
    ensures b[k].addr + 2 !in CreateWrites(b, i, dst)
  {
    if k != i {
      HeadersApart(b, start, limit, i, k);
      HeadersApart(b, start, limit, k, i);
      OtherHeader(b, start, limit, i, k);
    }
  }

  lemma LinkedMark(mem: Memory, b: seq<Block>, i: int, used: bool, start: int, limit: int)
    requires Linked(mem, b) && Spaced(b, start, limit) && 0 <= i < |b|
    ensures Linked(mem[b[i].addr + 2 := Tag(used)], Marked(b, i, used))
  {
    var c := Marked(b, i, used);
    var mem' := mem[b[i].addr + 2 := Tag(used)];
    forall k | 0 <= k < |c| ensures HeaderAt(mem', c, k) {
      assert HeaderAt(mem, b, k);
      if k != i { HeadersApart(b, start, limit, i, k); HeadersApart(b, start, limit, k, i); }
    }
  }

  /** The addresses written when block j is merged into the one before it. */
  ghost function MergeWrites(b: seq<Block>, j: int): set<int>
    requires 0 < j < |b|
  {
    {b[j].addr + 2, b[j - 1].addr + 1} + (if j + 1 < |b| then {b[j + 1].addr} else {})
  }

  lemma LinkedRemove(mem: Memory, mem': Memory, b: seq<Block>, j: int, start: int, limit: int)
    requires Linked(mem, b) && Spaced(b, start, limit) && 0 < j < |b|
    requires SameBut(mem, mem', MergeWrites(b, j))
    requires b[j - 1].addr + 1 in mem && mem'[b[j - 1].addr + 1] == NextOf(b, j)
    requires j + 1 < |b| ==> b[j + 1].addr in mem && mem'[b[j + 1].addr] == b[j - 1].addr
    ensures Linked(mem', Removed(b, j))
  {
    var c := Removed(b, j);
    forall k | 0 <= k < |c| ensures HeaderAt(mem', c, k) {
      var k' := if k < j then k else k + 1;
      MergeApart(b, j, start, limit, k');
      HeaderMoved(mem, mem', MergeWrites(b, j), b, k', c, k, {j - 1}, {j + 1});
    }
  }

  lemma MergeApart(b: seq<Block>, j: int, start: int, limit: int, k: int)
    requires Spaced(b, start, limit) && 0 < j < |b| && 0 <= k < |b| && k != j
    ensures k != j + 1 ==> b[k].addr !in MergeWrites(b, j)
    ensures k != j - 1 ==> b[k].addr + 1 !in MergeWrites(b, j)
    ensures b[k].addr + 2 !in MergeWrites(b, j)
  {
    HeadersApart(b, start, limit, j, k);
    HeadersApart(b, start, limit, k, j);
    OtherHeader(b, start, limit, j, k);
  }

  // ---------------------------------------------------------------------
  // Payloads stay the same
  // ---------------------------------------------------------------------

  /** Address a is in block i or in some header. */
  ghost predicate Covers(b: seq<Block>, i: int, limit: int, a: int)
    requires 0 <= i < |b|
  {
    || b[i].addr <= a < End(b, i, limit)
    || (exists k :: 0 <= k < |b| && b[k].addr <= a < b[k].addr + NODE)
  }

  /** Every changed word belongs to a header of the list, or to block i. */
  ghost predicate HeadersOnly(mem: Memory, mem': Memory, b: seq<Block>, i: int, limit: int)
    requires 0 <= i < |b|
  {
    mem'.Keys == mem.Keys && forall a :: a in mem && mem'[a] != mem[a] ==> Covers(b, i, limit, a)
  }

  /** Writes to headers and to a free block leave all allocated payloads alone. */
  lemma HeaderWritesKeepPayload(mem: Memory, mem': Memory, b: seq<Block>, i: int, start: int, limit: int)
    requires Spaced(b, start, limit) && 0 <= i < |b| && !b[i].used
    requires HeadersOnly(mem, mem', b, i, limit)
    ensures PayloadKept(mem, mem', b, limit)
  {
    forall l, a | 0 <= l < |b| && b[l].used && b[l].addr + NODE <= a < End(b, l, limit) && a in mem
      ensures a in mem' && mem'[a] == mem[a]
    {
      assert a in mem';
      HeadersApart(b, start, limit, l, i);
      HeadersApart(b, start, limit, i, l);
      if mem'[a] != mem[a] {
        assert Covers(b, i, limit, a);
        var k :| 0 <= k < |b| && b[k].addr <= a < b[k].addr + NODE;
        if k != l { HeadersApart(b, start, limit, l, k); HeadersApart(b, start, limit, k, l); }
      }
    }
  }

  lemma InsertWritesAreHeaders(mem: Memory, mem': Memory, b: seq<Block>, i: int, dst: int, used: bool, start: int, limit: int)
    requires Insertable(b, i, dst, used, start, limit)
    requires SameBut(mem, mem', if Swallows(b[i].addr, dst, used) then SwallowWrites(b, i, dst) else CreateWrites(b, i, dst))
    ensures HeadersOnly(mem, mem', b, i, limit)
  {
    forall a | a in mem && mem'[a] != mem[a]
      ensures Covers(b, i, limit, a)
    {
      if 0 < i && a == b[i - 1].addr + 1 { assert b[i - 1].addr <= a < b[i - 1].addr + NODE; }
      if i + 1 < |b| && a == b[i + 1].addr { assert b[i + 1].addr <= a < b[i + 1].addr + NODE; }
    }
  }

  /** Point the neighbours of a new node at it. */
  function LinkNeighbours(mem: Memory, before: int, next: int, dst: int): Memory {
    var m := if before != 0 then mem[before + 1 := dst] else mem;
    if next != 0 then m[next := dst] else m
  }

  /** What `insert_node` writes when it moves the header before the new node up. */
  lemma InsertSwallow(mem: Memory, m: Memory, b: seq<Block>, i: int, dst: int, before: int, next: int, start: int, limit: int)
    requires Linked(mem, b) && Insertable(b, i, dst, true, start, limit) && Swallows(b[i].addr, dst, true)
    requires SameBut(mem, m, {dst, dst + 1, dst + 2}) && dst in m && dst + 1 in m && dst + 2 in m
    requires before == PrevOf(b, i) && next == NextOf(b, i)
    requires m[dst] == before && m[dst + 1] == next && m[dst + 2] == Tag(true)
    ensures var mem' := LinkNeighbours(m, before, next, dst);
      SameBut(mem, mem', SwallowWrites(b, i, dst)) && Linked(mem', Inserted(b, i, dst, true))
  {
    var mem' := LinkNeighbours(m, before, next, dst);
    if 0 < i { assert HeaderAt(mem, b, i - 1); HeadersApart(b, start, limit, i, i - 1); }
    if i + 1 < |b| { assert HeaderAt(mem, b, i + 1); }
    LinkedSwallow(mem, mem', b, i, dst, start, limit);
  }

  /** What it writes when it makes a new header. */
  lemma InsertCreate(mem: Memory, m: Memory, b: seq<Block>, i: int, dst: int, used: bool, next: int, start: int, limit: int)
    requires Linked(mem, b) && Insertable(b, i, dst, used, start, limit) && !Swallows(b[i].addr, dst, used)
    requires SameBut(mem, m, {dst, dst + 1, dst + 2}) && dst in m && dst + 1 in m && dst + 2 in m
    requires next == NextOf(b, i) && m[dst] == b[i].addr && m[dst + 1] == next && m[dst + 2] == Tag(used)
    ensures var mem' := LinkNeighbours(m, b[i].addr, next, dst);
      SameBut(mem, mem', CreateWrites(b, i, dst)) && Linked(mem', Inserted(b, i, dst, used))
  {
    var mem' := LinkNeighbours(m, b[i].addr, next, dst);
    assert HeaderAt(mem, b, i);
    if i + 1 < |b| { assert HeaderAt(mem, b, i + 1); }
    LinkedCreate(mem, mem', b, i, dst, used, start, limit);
  }

  /** The writes of `insert_node` link the new node into the list. */
  lemma InsertLinked(mem: Memory, m: Memory, b: seq<Block>, i: int, dst: int, used: bool, before: int, next: int,
                     start: int, limit: int)
    requires Linked(mem, b) && Insertable(b, i, dst, used, start, limit)
    requires SameBut(mem, m, {dst, dst + 1, dst + 2}) && dst in m && dst + 1 in m && dst + 2 in m
    requires before == (if Swallows(b[i].addr, dst, used) then PrevOf(b, i) else b[i].addr) && next == NextOf(b, i)
    requires m[dst] == before && m[dst + 1] == next && m[dst + 2] == Tag(used)
    ensures var mem' := LinkNeighbours(m, before, next, dst);
      && Represents(mem', if before == 0 then dst else b[0].addr, Inserted(b, i, dst, used), start, limit)
      && HeadersOnly(mem, mem', b, i, limit)
  {
    InsertedSpaced(b, i, dst, used, start, limit);
    if Swallows(b[i].addr, dst, used) {
      InsertSwallow(mem, m, b, i, dst, before, next, start, limit);
    } else {
      InsertCreate(mem, m, b, i, dst, used, next, start, limit);
    }
    InsertWritesAreHeaders(mem, LinkNeighbours(m, before, next, dst), b, i, dst, used, start, limit);
  }

  ghost predicate InHeader(b: seq<Block>, a: int) {
    exists k :: 0 <= k < |b| && b[k].addr <= a < b[k].addr + NODE
  }

  /** Every changed word belongs to a header of the list. */
  ghost predicate HeaderWrites(mem: Memory, mem': Memory, b: seq<Block>) {
    && mem'.Keys == mem.Keys
    && forall a :: a in mem && mem'[a] != mem[a] ==> InHeader(b, a)
  }

  lemma HeaderWritesCompose(mem: Memory, m: Memory, mem': Memory, b: seq<Block>, c: seq<Block>)
    requires HeaderWrites(mem, m, b) && HeaderWrites(m, mem', c)
    requires c == b || exists j :: 0 <= j < |b| && c == Removed(b, j)
    ensures HeaderWrites(mem, mem', b)
  {
    forall a | a in mem && mem'[a] != mem[a] ensures InHeader(b, a) {
      if m[a] == mem[a] {
        var k :| 0 <= k < |c| && c[k].addr <= a < c[k].addr + NODE;
        if c != b {
          var j :| 0 <= j < |b| && c == Removed(b, j);
          assert c[k] == b[if k < j then k else k + 1];
        }
      }
    }
  }

  /** The writes of `merge_into_prev_block`. */
  function MergeMemory(mem: Memory, node: int, prev: int, next: int): Memory {
    var m := if next != 0 then mem[next := prev] else mem;
    m[prev + 1 := next][node + 2 := DEAD]
  }

  /** Those writes unlink block j. */
  lemma MergeLinked(mem: Memory, first: int, b: seq<Block>, j: int, start: int, limit: int)
    requires Represents(mem, first, b, start, limit) && 0 < j < |b|
    ensures var mem' := MergeMemory(mem, b[j].addr, PrevOf(b, j), NextOf(b, j));
      && Represents(mem', first, Removed(b, j), start, limit)
      && HeaderWrites(mem, mem', b)
      && b[j].addr in mem' && mem'[b[j].addr] == PrevOf(b, j)
      && b[j].addr + 2 in mem' && mem'[b[j].addr + 2] == DEAD
  {
    var mem' := MergeMemory(mem, b[j].addr, PrevOf(b, j), NextOf(b, j));
    assert HeaderAt(mem, b, j) && HeaderAt(mem, b, j - 1);
    HeadersApart(b, start, limit, j, j - 1);
    if j + 1 < |b| { assert HeaderAt(mem, b, j + 1); HeadersApart(b, start, limit, j, j + 1); }
    assert SameBut(mem, mem', MergeWrites(b, j));
    LinkedRemove(mem, mem', b, j, start, limit);
    RemovedSpaced(b, j, start, limit);
    assert Removed(b, j)[0] == b[0];
    MergeWritesAreHeaders(mem, mem', b, j);
  }

  lemma MergeWritesAreHeaders(mem: Memory, mem': Memory, b: seq<Block>, j: int)
    requires 0 < j < |b| && SameBut(mem, mem', MergeWrites(b, j))
    ensures HeaderWrites(mem, mem', b)
  {
    forall a | a in mem && mem'[a] != mem[a] ensures InHeader(b, a) {
      if a == b[j].addr + 2 { assert b[j].addr <= a < b[j].addr + NODE; }
      else if a == b[j - 1].addr + 1 { assert b[j - 1].addr <= a < b[j - 1].addr + NODE; }
      else { assert b[j + 1].addr <= a < b[j + 1].addr + NODE; }
    }
  }

  lemma PaddedCovered(b: seq<Block>, i: int, dst: int, size: int, limit: int, a: int)
    requires Fits(b, i, dst, size, limit) && Covers(Padded(b, i, dst, size, limit), i, limit, a)
    ensures Covers(b, i, limit, a)
  {
    var c := Padded(b, i, dst, size, limit);
    if Rest(b, i, dst, size, limit) > SPLIT {
      var pad := dst + NODE + size;
      CreatedAt(b, i, pad, false);
      if !(b[i].addr <= a < End(b, i, limit)) {
        var k :| 0 <= k < |c| && c[k].addr <= a < c[k].addr + NODE;
        assert k != i + 1;
        assert c[k] == b[if k <= i then k else k - 1];
      }
    }
  }

  lemma PlacedCovered(b: seq<Block>, i: int, dst: int, size: int, limit: int, a: int, k: int)
    requires Fits(b, i, dst, size, limit)
    requires var c := Placed(b, i, dst, size, limit); 0 <= k < |c| && c[k].addr <= a < c[k].addr + NODE
    requires b[i].addr + NODE <= End(b, i, limit)
    ensures Covers(b, i, limit, a)
  {
    var c := Placed(b, i, dst, size, limit);
    var j := NewIndex(b, i, dst);
    PlacedSplit(b, i, dst, size, limit);
    if k < j {
      assert c[k] == c[..j][k];
      assert c[k].addr == b[k].addr;
    } else if k > j {
      var right, rest := c[j + 1..], b[i + 1..];
      assert c[k] == right[k - j - 1];
      var d := |right| - |rest|;
      if k - j - 1 >= d {
        assert right[k - j - 1] == rest[k - j - 1 - d] == b[i + k - j - d];
      }
    }
  }

  /** The writes of the two insertions of `alloc`. */
  lemma CarveCovered(m0: Memory, m1: Memory, m2: Memory, b: seq<Block>, i: int, dst: int, size: int, limit: int)
    requires Fits(b, i, dst, size, limit) && HeadersOnly(m0, m1, b, i, limit)
    requires HeadersOnly(m1, m2, Padded(b, i, dst, size, limit), i, limit)
    ensures HeadersOnly(m0, m2, b, i, limit)
  {
    forall a | a in m0 && m2[a] != m0[a] ensures Covers(b, i, limit, a) {
      if m2[a] != m1[a] { PaddedCovered(b, i, dst, size, limit, a); }
    }
  }

  /** All writes of an allocation. */
  lemma TakeCovered(m0: Memory, m1: Memory, m2: Memory, b: seq<Block>, i: int, dst: int, size: int, start: int, limit: int)
    requires Spaced(b, start, limit) && Fits(b, i, dst, size, limit) && HeadersOnly(m0, m1, b, i, limit)
    requires m2.Keys == m1.Keys
    requires var c := Placed(b, i, dst, size, limit); var j := NewIndex(b, i, dst);
      j < |c| && forall a :: a in m1 && m2[a] != m1[a] ==>
        dst + NODE <= a < dst + NODE + Size(c, j, limit) || InHeader(c, a)
    ensures HeadersOnly(m0, m2, b, i, limit)
  {
    forall a | a in m0 && m2[a] != m0[a] ensures Covers(b, i, limit, a) {
      if m2[a] != m1[a] { FinishCovered(b, i, dst, size, start, limit, a); }
    }
  }

  lemma NextIsNull(b: seq<Block>, i: int, start: int, limit: int)
    requires Spaced(b, start, limit) && 0 <= i < |b|
    ensures NextOf(b, i) == 0 <==> i + 1 == |b|
  {
  }


  /** Clearing a payload touches no header. */
  lemma LinkedClear(mem: Memory, mem': Memory, b: seq<Block>, j: int, start: int, limit: int)
    requires Linked(mem, b) && Spaced(b, start, limit) && 0 <= j < |b| && mem'.Keys == mem.Keys
    requires forall a :: a in mem && mem'[a] != mem[a] ==> b[j].addr + NODE <= a < End(b, j, limit)
    ensures Linked(mem', b)
  {
    forall k | 0 <= k < |b| ensures HeaderAt(mem', b, k) {
      assert HeaderAt(mem, b, k);
      if k != j { HeadersApart(b, start, limit, j, k); }
    }
  }

  /** The words written after the split lie in the new allocation or in headers. */
  lemma FinishCovered(b: seq<Block>, i: int, dst: int, size: int, start: int, limit: int, a: int)
    requires Spaced(b, start, limit) && Fits(b, i, dst, size, limit)
    requires var c := Placed(b, i, dst, size, limit); var j := NewIndex(b, i, dst);
      InHeader(c, a) || (j < |c| && dst + NODE <= a < dst + NODE + Size(c, j, limit))
    ensures Covers(b, i, limit, a)
  {
    var c := Placed(b, i, dst, size, limit);
    NewSize(b, i, dst, size, limit);
    HeadersApart(b, start, limit, i, i);
    if InHeader(c, a) {
      var k :| 0 <= k < |c| && c[k].addr <= a < c[k].addr + NODE;
      PlacedCovered(b, i, dst, size, limit, a, k);
    }
  }

  lemma SameValue(mem: Memory, a: int, v: int)
    requires a in mem && mem[a] == v
    ensures mem[a := v] == mem
  {
  }

  /** In a merged list there is nothing to join. */
  lemma JoinedNone(b: seq<Block>, i: int)
    requires Merged(b) && 0 <= i < |b| && !b[i].used
    ensures Joined(b, i) == b
    ensures 0 < i ==> b[i - 1].used
  {
    MergedSpot(b, i);
  }

  /** Writes to headers leave all allocated payloads alone. */
  lemma HeadersKeepPayload(mem: Memory, mem': Memory, b: seq<Block>, start: int, limit: int)
    requires Spaced(b, start, limit) && HeaderWrites(mem, mem', b)
    ensures PayloadKept(mem, mem', b, limit)
  {
    forall l, a | 0 <= l < |b| && b[l].used && b[l].addr + NODE <= a < End(b, l, limit) && a in mem
      ensures a in mem' && mem'[a] == mem[a]
    {
      assert a in mem';
      if mem'[a] != mem[a] {
        var k :| 0 <= k < |b| && b[k].addr <= a < b[k].addr + NODE;
        if k != l { HeadersApart(b, start, limit, l, k); HeadersApart(b, start, limit, k, l); }
      }
    }
  }
}
