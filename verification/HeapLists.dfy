/**
  What inserting, merging, allocating and freeing do to the node list of the
  kernel heap, and to its statistics.
 */
module HeapLists {
  import opened HeapBlocks

  // ---------------------------------------------------------------------
  // Sums over spliced lists
  // ---------------------------------------------------------------------

  ghost function Front(b: seq<Block>, limit: int): int { if b == [] then limit else b[0].addr }

  lemma SumMiddle(pre: seq<Block>, mid: seq<Block>, post: seq<Block>, limit: int, used: bool)
    requires mid != []
    ensures Sum(pre + mid + post, limit, used)
         == Sum(pre, mid[0].addr, used) + Sum(mid, Front(post, limit), used) + Sum(post, limit, used)
  {
    assert pre + mid + post == pre + (mid + post);
    SumSplit(pre, mid + post, limit, used);
    if post == [] {
      assert mid + post == mid;
    } else {
      SumSplit(mid, post, limit, used);
    }
  }

  lemma SumPair(x: Block, y: Block, end: int, used: bool)
    ensures Sum([x, y], end, used)
         == (if x.used == used then y.addr - x.addr - NODE else 0) + if y.used == used then end - y.addr - NODE else 0
  {
    assert [x, y] == [x] + [y];
    SumLast([x], y, end, used);
    SumOne(x, y.addr, used);
  }

  /** Moving the end of a list changes the size of its last block only. */
  lemma SumEnd(b: seq<Block>, e: int, e': int, used: bool)
    requires b != []
    ensures Sum(b, e', used) == Sum(b, e, used) + if b[|b| - 1].used == used then e' - e else 0
  {
    var n := |b| - 1;
    assert b == b[..n] + [b[n]];
    SumLast(b[..n], b[n], e, used);
    SumLast(b[..n], b[n], e', used);
  }

  // ---------------------------------------------------------------------
  // Inserting a node (insert_node)
  // ---------------------------------------------------------------------

  /** Does the new header swallow the header of the block it is carved from? */
  predicate Swallows(node: int, dst: int, used: bool) {
    used && dst - node < SPLIT
  }

  function Inserted(b: seq<Block>, i: int, dst: int, used: bool): seq<Block>
    requires 0 <= i < |b|
  {
    if Swallows(b[i].addr, dst, used) then b[i := Block(dst, used)]
    else b[..i + 1] + [Block(dst, used)] + b[i + 1..]
  }

  /** Block i is free, and its left neighbour, if any, is not. */
  ghost predicate Spot(b: seq<Block>, i: int) {
    0 <= i < |b| && !b[i].used && (0 < i ==> b[i - 1].used)
  }

  ghost predicate Insertable(b: seq<Block>, i: int, dst: int, used: bool, start: int, limit: int) {
    && Spaced(b, start, limit) && Spot(b, i)
    && b[i].addr < dst && dst + NODE <= End(b, i, limit)
    && (Swallows(b[i].addr, dst, used) || b[i].addr + NODE <= dst)
  }

  lemma CreatedAt(b: seq<Block>, i: int, dst: int, used: bool)
    requires 0 <= i < |b| && !Swallows(b[i].addr, dst, used)
    ensures var c := Inserted(b, i, dst, used);
      && |c| == |b| + 1
      && (forall k :: 0 <= k <= i ==> c[k] == b[k])
      && c[i + 1] == Block(dst, used)
      && (forall k :: i + 1 < k < |c| ==> c[k] == b[k - 1])
  {
  }

  lemma InsertedSpaced(b: seq<Block>, i: int, dst: int, used: bool, start: int, limit: int)
    requires Insertable(b, i, dst, used, start, limit)
    ensures Spaced(Inserted(b, i, dst, used), start, limit)
  {
    var c := Inserted(b, i, dst, used);
    assert i + 1 < |b| ==> dst + NODE <= b[i + 1].addr;
    assert dst + NODE <= limit;
    if Swallows(b[i].addr, dst, used) {
      forall j, k | 0 <= j < k < |c| ensures Before(c, j, k) {
        assert Before(b, j, k);
        if j == i && i + 1 < k { assert Before(b, i + 1, k); }
      }
    } else {
      CreatedAt(b, i, dst, used);
      forall j, k | 0 <= j < k < |c| ensures Before(c, j, k) {
        InsertedOrder(b, i, dst, used, start, limit, j, k);
      }
    }
  }

  lemma InsertedOrder(b: seq<Block>, i: int, dst: int, used: bool, start: int, limit: int, j: int, k: int)
    requires Insertable(b, i, dst, used, start, limit) && !Swallows(b[i].addr, dst, used)
    requires 0 <= j < k < |b| + 1
    ensures Inserted(b, i, dst, used)[j].addr + NODE <= Inserted(b, i, dst, used)[k].addr
  {
    CreatedAt(b, i, dst, used);
    if k <= i {
      assert Before(b, j, k);
    } else if j > i + 1 {
      assert Before(b, j - 1, k - 1);
    } else if k == i + 1 {
      assert j < i ==> Before(b, j, i);
    } else {
      assert i + 1 < k - 1 ==> Before(b, i + 1, k - 1);
      assert j < i ==> Before(b, j, i);
    }
  }

  lemma SwallowSum(b: seq<Block>, i: int, dst: int, limit: int, used: bool)
    requires Spot(b, i)
    ensures var c := b[i := Block(dst, true)];
      Sum(c, limit, used) == Sum(b, limit, used)
        + (if i > 0 && used then dst - b[i].addr else 0)
        + (if used then Size(c, i, limit) else -Size(b, i, limit))
  {
    var x := Block(dst, true);
    var pre, post := b[..i], b[i + 1..];
    assert b == pre + [b[i]] + post;
    assert b[i := x] == pre + [x] + post;
    SumMiddle(pre, [b[i]], post, limit, used);
    SumMiddle(pre, [x], post, limit, used);
    SumOne(b[i], Front(post, limit), used);
    SumOne(x, Front(post, limit), used);
    if i > 0 { SumEnd(pre, b[i].addr, dst, used); }
  }

  /** The statistics after a header has moved up into the block it manages. */
  lemma SwallowStats(b: seq<Block>, i: int, dst: int, start: int, limit: int)
    requires Spot(b, i)
    ensures var c := b[i := Block(dst, true)];
      var shift := dst - b[i].addr;
      && Overhead(c, start) == Overhead(b, start) + (if i == 0 then shift else 0)
      && Allocated(c, limit) == Allocated(b, limit) + (if i == 0 then 0 else shift) + Size(c, i, limit)
      && Holes(c) == Holes(b) - if i + 1 < |b| then shift + Size(c, i, limit) else 0
  {
    SwallowSum(b, i, dst, limit, true);
    SwallowSum(b, i, dst, limit, false);
    HolesAreFreeSpace(b, limit);
    HolesAreFreeSpace(b[i := Block(dst, true)], limit);
  }

  lemma CreateSum(b: seq<Block>, i: int, dst: int, fill: bool, limit: int, used: bool)
    requires Spot(b, i) && !Swallows(b[i].addr, dst, fill)
    ensures var c := Inserted(b, i, dst, fill);
      Sum(c, limit, used) == Sum(b, limit, used)
        + (if used then (if fill then Size(c, i + 1, limit) else 0)
           else Size(c, i, limit) + (if fill then 0 else Size(c, i + 1, limit)) - Size(b, i, limit))
  {
    var x := Block(dst, fill);
    var pre, post := b[..i], b[i + 1..];
    assert b == pre + [b[i]] + post;
    assert Inserted(b, i, dst, fill) == pre + [b[i], x] + post;
    SumMiddle(pre, [b[i]], post, limit, used);
    SumMiddle(pre, [b[i], x], post, limit, used);
    SumOne(b[i], Front(post, limit), used);
    SumPair(b[i], x, Front(post, limit), used);
  }

  /** The statistics after a new header has been written inside a free block. */
  lemma CreateStats(b: seq<Block>, i: int, dst: int, used: bool, start: int, limit: int)
    requires Spot(b, i) && !Swallows(b[i].addr, dst, used)
    ensures var c := Inserted(b, i, dst, used);
      && Overhead(c, start) == Overhead(b, start) + NODE
      && Allocated(c, limit) == Allocated(b, limit) + (if used then Size(c, i + 1, limit) else 0)
      && Holes(c) == Holes(b)
           + (if i + 1 == |b| then Size(c, i, limit)
              else if used then -NODE - Size(c, i + 1, limit) else -NODE)
  {
    CreatedAt(b, i, dst, used);
    CreateSum(b, i, dst, used, limit, true);
    CreateSum(b, i, dst, used, limit, false);
    HolesAreFreeSpace(b, limit);
    HolesAreFreeSpace(Inserted(b, i, dst, used), limit);
  }

  /** Both cases of an insertion at once. */
  lemma InsertStats(b: seq<Block>, i: int, dst: int, used: bool, start: int, limit: int)
    requires Spot(b, i)
    ensures var c := Inserted(b, i, dst, used);
      var moved := Swallows(b[i].addr, dst, used);
      var diff := dst - b[i].addr;
      var taken := if used then End(b, i, limit) - dst - NODE else 0;
      && Overhead(c, start) == Overhead(b, start) + (if !moved then NODE else if i == 0 then diff else 0)
      && Allocated(c, limit) == Allocated(b, limit) + taken + (if moved && 0 < i then diff else 0)
      && Holes(c) == Holes(b)
           + (if i + 1 < |b| then -taken - (if moved then diff else NODE) else if moved then 0 else diff - NODE)
  {
    if Swallows(b[i].addr, dst, used) {
      SwallowStats(b, i, dst, start, limit);
    } else {
      CreateStats(b, i, dst, used, start, limit);
      CreatedAt(b, i, dst, used);
    }
  }

  // ---------------------------------------------------------------------
  // Marking and merging (free, merge_into_prev_block)
  // ---------------------------------------------------------------------

  function Marked(b: seq<Block>, i: int, used: bool): seq<Block>
    requires 0 <= i < |b|
  {
    b[i := Block(b[i].addr, used)]
  }

  lemma MarkStats(b: seq<Block>, i: int, used: bool, start: int, limit: int)
    requires 0 <= i < |b| && b[i].used != used
    ensures var c := Marked(b, i, used);
      && Overhead(c, start) == Overhead(b, start)
      && Allocated(c, limit) == Allocated(b, limit) + (if used then Size(b, i, limit) else -Size(b, i, limit))
      && Holes(c) == Holes(b) + if i + 1 == |b| then 0 else if used then -Size(b, i, limit) else Size(b, i, limit)
  {
    var c := Marked(b, i, used);
    var pre, post := b[..i], b[i + 1..];
    assert b == pre + [b[i]] + post;
    assert c == pre + [c[i]] + post;
    forall u ensures Sum(c, limit, u) == Sum(b, limit, u) + if u == used then Size(b, i, limit) else -Size(b, i, limit)
    {
      SumMiddle(pre, [b[i]], post, limit, u);
      SumMiddle(pre, [c[i]], post, limit, u);
      SumOne(b[i], Front(post, limit), u);
      SumOne(c[i], Front(post, limit), u);
    }
    HolesAreFreeSpace(b, limit);
    HolesAreFreeSpace(c, limit);
  }

  function Removed(b: seq<Block>, j: int): seq<Block>
    requires 0 <= j < |b|
  {
    b[..j] + b[j + 1..]
  }

  lemma RemovedSpaced(b: seq<Block>, j: int, start: int, limit: int)
    requires Spaced(b, start, limit) && 0 <= j < |b|
    ensures Spaced(Removed(b, j), start, limit)
  {
    var c := Removed(b, j);
    forall x, y | 0 <= x < y < |c| ensures Before(c, x, y) {
      var x', y' := if x < j then x else x + 1, if y < j then y else y + 1;
      assert c[x] == b[x'] && c[y] == b[y'];
      assert Before(b, x', y');
    }
  }

  /** The statistics after a free block has been merged into the free block before it. */
  lemma RemoveStats(b: seq<Block>, j: int, start: int, limit: int)
    requires 0 < j < |b| && !b[j].used && !b[j - 1].used
    ensures var c := Removed(b, j);
      && Overhead(c, start) == Overhead(b, start) - NODE
      && Allocated(c, limit) == Allocated(b, limit)
      && Holes(c) == Holes(b) + if j + 1 < |b| then NODE else -Size(b, j - 1, limit)
  {
    var c := Removed(b, j);
    var pre, post := b[..j - 1], b[j + 1..];
    assert b == pre + [b[j - 1], b[j]] + post;
    assert c == pre + [b[j - 1]] + post;
    forall u ensures Sum(c, limit, u) == Sum(b, limit, u) + if u then 0 else NODE
    {
      SumMiddle(pre, [b[j - 1], b[j]], post, limit, u);
      SumMiddle(pre, [b[j - 1]], post, limit, u);
      SumPair(b[j - 1], b[j], Front(post, limit), u);
      SumOne(b[j - 1], Front(post, limit), u);
    }
    HolesAreFreeSpace(b, limit);
    HolesAreFreeSpace(c, limit);
  }
}
