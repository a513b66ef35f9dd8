/**
  What one call of `Heap::alloc` or `Heap::free` does to the node list, when
  it panics, and what every run of such calls keeps.
 */
module HeapSpec {
  import opened HeapBlocks
  import opened HeapLists
  import opened Alignment

  /** The header address for data of the given alignment inside the block at `node`. */
  function Place(node: int, align: nat): int
    requires 0 <= node
  {
    AlignUp(node + NODE, align) - NODE
  }

  /** A request in whole words: the size in bytes is rounded up, and is at least one word. */
  function SizeWords(size: nat): nat {
    var s := AlignUp(size, 4);
    (if s == 0 then 4 else s) / 4
  }

  /** The alignment of a request in words. */
  function AlignWords(align: nat): nat
    requires align <= MAX_ALIGN
  {
    RoundAlign(align) / 4
  }

  lemma SizeWordsCover(size: nat)
    ensures 0 < SizeWords(size) && size <= 4 * SizeWords(size) < size + 4 + (if size == 0 then 1 else 0)
  {
    AlignUpBounds(size, 4);
  }

  lemma AlignWordsExact(align: nat)
    requires align <= MAX_ALIGN
    ensures 0 < AlignWords(align) && RoundAlign(align) == 4 * AlignWords(align)
  {
    RoundAlignWord(align);
  }

  /** The request is small enough for the 32-bit address arithmetic of the search; `limit` is in words. */
  predicate NoWrap(size: nat, align: nat, limit: int) {
    align <= MAX_ALIGN && 4 * (limit + AlignWords(align) + SizeWords(size)) <= U32
  }

  predicate Candidate(b: seq<Block>, i: int, size: nat, align: nat, limit: int)
    requires 0 <= i < |b| && 0 <= b[i].addr
  {
    !b[i].used && Place(b[i].addr, align) + NODE + size <= End(b, i, limit)
  }

  predicate Addressed(b: seq<Block>) { forall i :: 0 <= i < |b| ==> 0 <= b[i].addr }

  /** The first block, from k on, that the request fits in. */
  function FirstFit(b: seq<Block>, k: nat, size: nat, align: nat, limit: int): (i: nat)
    requires Addressed(b) && k <= |b|
    ensures k <= i <= |b|
    ensures i < |b| ==> Candidate(b, i, size, align, limit)
    ensures forall j :: k <= j < i ==> !Candidate(b, j, size, align, limit)
    decreases |b| - k
  {
    if k == |b| then k
    else if Candidate(b, k, size, align, limit) then k
    else FirstFit(b, k + 1, size, align, limit)
  }

  /** What is left of block i behind an allocation of `size` words at header `dst`. */
  function Rest(b: seq<Block>, i: int, dst: int, size: int, limit: int): int
    requires 0 <= i < |b|
  {
    End(b, i, limit) - (dst + NODE + size)
  }

  /** What an allocation in block i puts in its place. */
  function Middle(b: seq<Block>, i: int, dst: int, size: int, limit: int): seq<Block>
    requires 0 <= i < |b|
  {
    (if dst - b[i].addr >= SPLIT then [Block(b[i].addr, false)] else [])
    + [Block(dst, true)]
    + (if Rest(b, i, dst, size, limit) > SPLIT then [Block(dst + NODE + size, false)] else [])
  }

  /**
    The list after an allocation: leftover space behind it becomes a free block
    if it is worth a header, and so does the space skipped for alignment;
    smaller leftovers go to the allocation, smaller skips to the block before.
   */
  function Placed(b: seq<Block>, i: int, dst: int, size: int, limit: int): seq<Block>
    requires 0 <= i < |b|
  {
    b[..i] + Middle(b, i, dst, size, limit) + b[i + 1..]
  }

  /** The list up to and including the free block that contains block i once i is free. */
  function Ahead(b: seq<Block>, i: int): seq<Block>
    requires 0 <= i < |b|
  {
    if 0 < i && !b[i - 1].used then b[..i] else b[..i] + [Block(b[i].addr, false)]
  }

  /** What lies behind that block. */
  function Behind(b: seq<Block>, i: int): seq<Block>
    requires 0 <= i < |b|
  {
    if i + 1 < |b| && !b[i + 1].used then b[i + 2..] else b[i + 1..]
  }

  /** The list after block i is freed and merged with its free neighbours. */
  function Freed(b: seq<Block>, i: int): seq<Block>
    requires 0 <= i < |b|
  {
    Ahead(b, i) + Behind(b, i)
  }

  /**
    The one allocation that makes the statistics wrong: it consumes the whole
    trailing block, and skips enough of it for alignment to leave a free
    block that is not counted as a hole.
   */
  predicate Miscounts(b: seq<Block>, i: int, dst: int, size: int, limit: int)
    requires 0 <= i < |b|
  {
    i + 1 == |b| && Rest(b, i, dst, size, limit) <= SPLIT && SPLIT <= dst - b[i].addr
  }

  /** A finished call gives the new list and the header of the block concerned; its data starts NODE words further. */
  datatype Outcome = Panic | NoSpace | Done(list: seq<Block>, header: int)

  /** The block an allocation takes: the first that fits, or |b|. */
  function Chosen(b: seq<Block>, size: nat, align: nat, limit: int): (i: nat)
    requires Addressed(b) && align <= MAX_ALIGN
    ensures i <= |b|
    ensures i < |b| ==> !b[i].used
  {
    FirstFit(b, 0, SizeWords(size), AlignWords(align), limit)
  }

  /** The header address of the allocation inside that block. */
  function Target(b: seq<Block>, size: nat, align: nat, limit: int): int
    requires Addressed(b) && align <= MAX_ALIGN && Chosen(b, size, align, limit) < |b|
  {
    Place(b[Chosen(b, size, align, limit)].addr, AlignWords(align))
  }

  function AllocResult(b: seq<Block>, size: nat, align: nat, limit: int): Outcome
    requires Addressed(b) && align <= MAX_ALIGN
  {
    var i := Chosen(b, size, align, limit);
    if i == |b| then NoSpace
    else
      var dst := Target(b, size, align, limit);
      if Miscounts(b, i, dst, SizeWords(size), limit) then Panic
      else Done(Placed(b, i, dst, SizeWords(size), limit), dst)
  }

  /** The index of the first block from k on with the given header address, or |b|. */
  function IndexFrom(b: seq<Block>, k: nat, addr: int): (i: nat)
    requires k <= |b|
    ensures k <= i <= |b|
    ensures i < |b| ==> b[i].addr == addr
    ensures i == |b| ==> forall j :: k <= j < |b| ==> b[j].addr != addr
    decreases |b| - k
  {
    if k == |b| || b[k].addr == addr then k else IndexFrom(b, k + 1, addr)
  }

  /** The index of the block with the given header address, or |b|. */
  function IndexOf(b: seq<Block>, addr: int): (i: nat)
    ensures i <= |b|
    ensures i < |b| ==> b[i].addr == addr
    ensures i == |b| ==> forall j :: 0 <= j < |b| ==> b[j].addr != addr
  {
    IndexFrom(b, 0, addr)
  }

  /** Freeing the block behind a header: anything but a used block that is not the last one panics. */
  function FreeResult(b: seq<Block>, header: int): Outcome {
    var i := IndexOf(b, header);
    if i == |b| || !b[i].used || i + 1 == |b| then Panic else Done(Freed(b, i), header)
  }

  // ---------------------------------------------------------------------
  // Placing keeps the list well-formed
  // ---------------------------------------------------------------------

  ghost predicate Fits(b: seq<Block>, i: int, dst: int, size: int, limit: int) {
    && 0 <= i < |b| && !b[i].used && 0 < size
    && b[i].addr <= dst && dst + NODE + size <= End(b, i, limit)
  }

  /** The search's choice has room for the request, at the requested alignment. */
  lemma TargetFits(b: seq<Block>, size: nat, align: nat, start: int, limit: int)
    requires WellFormed(b, start, limit) && align <= MAX_ALIGN && Chosen(b, size, align, limit) < |b|
    ensures Fits(b, Chosen(b, size, align, limit), Target(b, size, align, limit), SizeWords(size), limit)
    ensures size <= 4 * SizeWords(size) && 0 < RoundAlign(align)
    ensures 4 * (Target(b, size, align, limit) + NODE) % RoundAlign(align) == 0
  {
    SizeWordsCover(size);
    AlignWordsExact(align);
    var a, x := AlignWords(align), b[Chosen(b, size, align, limit)].addr + NODE;
    AlignUpBounds(x, a);
    ScaleMod(AlignUp(x, a), a);
  }

  lemma ScaleMod(x: nat, y: nat)
    requires 0 < y
    ensures 4 * x % (4 * y) == 4 * (x % y)
  {
    var q, r := x / y, x % y;
    assert x == q * y + r;
    assert 4 * x == q * (4 * y) + 4 * r;
    DivUnique(4 * x, q, 4 * r, 4 * y);
  }

  /** The list after free block i has taken in the next block, if that is free. */
  function JoinedNext(b: seq<Block>, i: int): seq<Block>
    requires 0 <= i < |b|
  {
    if i + 1 < |b| && !b[i + 1].used then Removed(b, i + 1) else b
  }

  /** The list after free block i has gone into the previous block, if that is free. */
  function JoinedPrev(b: seq<Block>, i: int): seq<Block>
    requires 0 <= i < |b|
  {
    if 0 < i && !b[i - 1].used then Removed(b, i) else b
  }

  function Joined(b: seq<Block>, i: int): seq<Block>
    requires 0 <= i < |b|
  {
    JoinedPrev(JoinedNext(b, i), i)
  }

  /** The list after the padding block behind the allocation, if any, has been inserted. */
  function Padded(b: seq<Block>, i: int, dst: int, size: int, limit: int): seq<Block>
    requires 0 <= i < |b|
  {
    if Rest(b, i, dst, size, limit) > SPLIT then Inserted(b, i, dst + NODE + size, false) else b
  }

  /** The two insertions of `alloc`, in the code's order, give the placed list. */
  lemma PlacedInSteps(b: seq<Block>, i: int, dst: int, size: int, limit: int)
    requires Fits(b, i, dst, size, limit)
    ensures var c := Padded(b, i, dst, size, limit);
      Placed(b, i, dst, size, limit) == if dst == b[i].addr then Marked(c, i, true) else Inserted(c, i, dst, true)
  {
    var c := Padded(b, i, dst, size, limit);
    var x := Block(dst, true);
    var pad := if Rest(b, i, dst, size, limit) > SPLIT then [Block(dst + NODE + size, false)] else [];
    PaddedSplit(b, i, dst, size, limit);
    if dst - b[i].addr >= SPLIT {
      assert b[i] == Block(b[i].addr, false);
      assert Inserted(c, i, dst, true) == b[..i] + ([b[i]] + [x] + pad) + b[i + 1..];
    } else {
      assert c[i := x] == b[..i] + ([x] + pad) + b[i + 1..];
      assert [] + [x] + pad == [x] + pad;
    }
  }

  lemma PaddedSplit(b: seq<Block>, i: int, dst: int, size: int, limit: int)
    requires 0 <= i < |b|
    ensures var c := Padded(b, i, dst, size, limit);
      && i < |c| && c[..i] == b[..i] && c[i] == b[i] && c[..i + 1] == b[..i] + [b[i]]
      && c[i + 1..] == (if Rest(b, i, dst, size, limit) > SPLIT then [Block(dst + NODE + size, false)] else []) + b[i + 1..]
  {
  }

  lemma MergedSpot(b: seq<Block>, i: int)
    requires Merged(b) && 0 <= i < |b| && !b[i].used
    ensures Spot(b, i)
    ensures i + 1 < |b| ==> b[i + 1].used
  {
  }

  lemma PadInsertable(b: seq<Block>, i: int, dst: int, size: int, start: int, limit: int)
    requires Spaced(b, start, limit) && Merged(b) && Fits(b, i, dst, size, limit)
    requires Rest(b, i, dst, size, limit) > SPLIT
    ensures Insertable(b, i, dst + NODE + size, false, start, limit)
  {
    MergedSpot(b, i);
  }

  lemma PaddedSpaced(b: seq<Block>, i: int, dst: int, size: int, start: int, limit: int)
    requires Spaced(b, start, limit) && Merged(b) && Fits(b, i, dst, size, limit)
    ensures Spaced(Padded(b, i, dst, size, limit), start, limit)
  {
    if Rest(b, i, dst, size, limit) > SPLIT {
      var pad := dst + NODE + size;
      PadInsertable(b, i, dst, size, start, limit);
      InsertedSpaced(b, i, pad, false, start, limit);
      assert Padded(b, i, dst, size, limit) == Inserted(b, i, pad, false);
    }
  }

  /** The node in front of the padding, if any, is exactly as large as needed. */
  lemma PaddedEnd(b: seq<Block>, i: int, dst: int, size: int, limit: int)
    requires Merged(b) && Fits(b, i, dst, size, limit)
    ensures var c := Padded(b, i, dst, size, limit);
      && i < |c| && c[i] == b[i] && Spot(c, i)
      && (i + 1 == |c| <==> i + 1 == |b| && Rest(b, i, dst, size, limit) <= SPLIT)
      && End(c, i, limit) == if Rest(b, i, dst, size, limit) > SPLIT then dst + NODE + size else End(b, i, limit)
  {
    MergedSpot(b, i);
    if Rest(b, i, dst, size, limit) > SPLIT { CreatedAt(b, i, dst + NODE + size, false); }
  }

  lemma PlacedSpaced(b: seq<Block>, i: int, dst: int, size: int, start: int, limit: int)
    requires Spaced(b, start, limit) && Merged(b) && Fits(b, i, dst, size, limit)
    ensures Spaced(Placed(b, i, dst, size, limit), start, limit)
  {
    PlacedInSteps(b, i, dst, size, limit);
    PaddedSpaced(b, i, dst, size, start, limit);
    PaddedEnd(b, i, dst, size, limit);
    var c := Padded(b, i, dst, size, limit);
    if dst != b[i].addr {
      InsertedSpaced(c, i, dst, true, start, limit);
    } else {
      MarkedSpaced(c, i, true, start, limit);
    }
  }

  lemma MarkedSpaced(b: seq<Block>, i: int, used: bool, start: int, limit: int)
    requires Spaced(b, start, limit) && 0 <= i < |b|
    ensures Spaced(Marked(b, i, used), start, limit)
  {
    var c := Marked(b, i, used);
    forall j, k | 0 <= j < k < |c| ensures Before(c, j, k) { assert Before(b, j, k); }
  }

  /** Gluing merged lists whose touching ends are not both free. */
  lemma MergedConcat(a: seq<Block>, b: seq<Block>)
    requires Merged(a) && Merged(b)
    requires a != [] && b != [] ==> a[|a| - 1].used || b[0].used
    ensures Merged(a + b)
  {
  }

  lemma MergedParts(b: seq<Block>, i: int)
    requires Merged(b) && 0 <= i <= |b|
    ensures Merged(b[..i]) && Merged(b[i..])
  {
  }

  lemma MiddleMerged(b: seq<Block>, i: int, dst: int, size: int, limit: int)
    requires 0 <= i < |b|
    ensures Merged(Middle(b, i, dst, size, limit))
  {
    var mid := Middle(b, i, dst, size, limit);
    assert forall k :: 0 <= k < |mid| ==> mid[k].used || k == 0 || k == |mid| - 1;
  }

  lemma PlacedMerged(b: seq<Block>, i: int, dst: int, size: int, limit: int)
    requires Merged(b) && 0 <= i < |b| && !b[i].used
    ensures Merged(Placed(b, i, dst, size, limit))
  {
    var pre, mid, post := b[..i], Middle(b, i, dst, size, limit), b[i + 1..];
    MergedSpot(b, i);
    MergedParts(b, i);
    MergedParts(b, i + 1);
    MiddleMerged(b, i, dst, size, limit);
    MergedConcat(pre, mid);
    MergedConcat(pre + mid, post);
  }

  lemma AllocWellFormed(b: seq<Block>, size: nat, align: nat, start: int, limit: int)
    requires WellFormed(b, start, limit) && align <= MAX_ALIGN
    requires AllocResult(b, size, align, limit).Done?
    ensures WellFormed(AllocResult(b, size, align, limit).list, start, limit)
  {
    var i, dst := Chosen(b, size, align, limit), Target(b, size, align, limit);
    TargetFits(b, size, align, start, limit);
    PlacedSpaced(b, i, dst, SizeWords(size), start, limit);
    PlacedMerged(b, i, dst, SizeWords(size), limit);
    PlacedFilled(b, i, dst, SizeWords(size), limit);
  }

  /** The index of the allocated block in the placed list. */
  function NewIndex(b: seq<Block>, i: int, dst: int): int
    requires 0 <= i < |b|
  {
    if dst - b[i].addr >= SPLIT then i + 1 else i
  }

  lemma PlacedSplit(b: seq<Block>, i: int, dst: int, size: int, limit: int)
    requires 0 <= i < |b|
    ensures var c := Placed(b, i, dst, size, limit); var j := NewIndex(b, i, dst);
      && j < |c| && c[j] == Block(dst, true)
      && c[..j] == b[..i] + (if dst - b[i].addr >= SPLIT then [Block(b[i].addr, false)] else [])
      && c[j + 1..] == (if Rest(b, i, dst, size, limit) > SPLIT then [Block(dst + NODE + size, false)] else []) + b[i + 1..]
  {
  }

  /** The allocated block has all the bytes up to the next header. */
  lemma NewSize(b: seq<Block>, i: int, dst: int, size: int, limit: int)
    requires 0 <= i < |b|
    ensures var c := Placed(b, i, dst, size, limit); var j := NewIndex(b, i, dst);
      j < |c| && c[j] == Block(dst, true)
      && Size(c, j, limit) == if Rest(b, i, dst, size, limit) > SPLIT then size else size + Rest(b, i, dst, size, limit)
  {
    var c := Placed(b, i, dst, size, limit);
    var j := NewIndex(b, i, dst);
    PlacedSplit(b, i, dst, size, limit);
    var right := c[j + 1..];
    if j + 1 < |c| { assert c[j + 1] == right[0]; }
    if i + 1 < |b| { assert b[i + 1..][0] == b[i + 1]; }
  }

  /** Where block k of the old list sits after an allocation in block i. */
  function After(b: seq<Block>, i: int, dst: int, size: int, limit: int, k: int): int
    requires 0 <= i < |b|
  {
    if k < i then k else k + |Placed(b, i, dst, size, limit)| - |b|
  }

  /** The elements of a spliced list. */
  lemma SpliceAt(pre: seq<Block>, mid: seq<Block>, post: seq<Block>, k: int)
    requires 0 <= k < |pre| + |mid| + |post|
    ensures (pre + mid + post)[k]
         == if k < |pre| then pre[k] else if k < |pre| + |mid| then mid[k - |pre|] else post[k - |pre| - |mid|]
  {
  }

  lemma PlacedAt(b: seq<Block>, i: int, dst: int, size: int, limit: int, k: int)
    requires 0 <= i < |b| && 0 <= k < |b| && k != i
    ensures var c := Placed(b, i, dst, size, limit); var k' := After(b, i, dst, size, limit, k);
      && 0 <= k' < |c| && c[k'] == b[k]
      && (k + 1 != i ==> End(c, k', limit) == End(b, k, limit))
      && (k + 1 == i ==> End(c, k', limit) == if dst - b[i].addr >= SPLIT then b[i].addr else dst)
  {
    var mid := Middle(b, i, dst, size, limit);
    var k' := After(b, i, dst, size, limit, k);
    SpliceAt(b[..i], mid, b[i + 1..], k');
    if k + 1 < |b| || k + 1 == i { SpliceAt(b[..i], mid, b[i + 1..], k' + 1); }
  }

  lemma PlacedFilled(b: seq<Block>, i: int, dst: int, size: int, limit: int)
    requires Fits(b, i, dst, size, limit) && Filled(b, limit)
    ensures Filled(Placed(b, i, dst, size, limit), limit)
  {
    var c := Placed(b, i, dst, size, limit);
    var j := NewIndex(b, i, dst);
    forall k | 0 <= k < |c| && c[k].used ensures 0 < Size(c, k, limit) {
      if k == j {
        NewSize(b, i, dst, size, limit);
      } else {
        var o := PlacedOrigin(b, i, dst, size, limit, k);
        PlacedAt(b, i, dst, size, limit, o);
        assert 0 < Size(b, o, limit);
      }
    }
  }

  /** An allocated block of the placed list other than the new one was in the old list. */
  lemma PlacedOrigin(b: seq<Block>, i: int, dst: int, size: int, limit: int, k: int) returns (o: int)
    requires 0 <= i < |b|
    requires 0 <= k < |Placed(b, i, dst, size, limit)| && Placed(b, i, dst, size, limit)[k].used
    requires k != NewIndex(b, i, dst)
    ensures 0 <= o < |b| && o != i && After(b, i, dst, size, limit, o) == k && b[o] == Placed(b, i, dst, size, limit)[k]
  {
    var mid := Middle(b, i, dst, size, limit);
    SpliceAt(b[..i], mid, b[i + 1..], k);
    o := if k < i then k else k - |mid| + 1;
  }

  // ---------------------------------------------------------------------
  // Freeing keeps the list well-formed
  // ---------------------------------------------------------------------

  /** Marking the block free and merging it, in the code's order, gives the freed list. */
  lemma FreedInSteps(b: seq<Block>, i: int)
    requires 0 <= i < |b|
    ensures Freed(b, i) == Joined(Marked(b, i, false), i)
  {
    var m := Marked(b, i, false);
    assert JoinedNext(m, i) == b[..i] + [Block(b[i].addr, false)] + Behind(b, i);
  }

  lemma JoinedSpaced(b: seq<Block>, i: int, start: int, limit: int)
    requires Spaced(b, start, limit) && 0 <= i < |b|
    ensures Spaced(Joined(b, i), start, limit)
  {
    if i + 1 < |b| && !b[i + 1].used { RemovedSpaced(b, i + 1, start, limit); }
    var c := JoinedNext(b, i);
    if 0 < i && !c[i - 1].used { RemovedSpaced(c, i, start, limit); }
  }

  lemma FreedSpaced(b: seq<Block>, i: int, start: int, limit: int)
    requires Spaced(b, start, limit) && 0 <= i < |b|
    ensures Spaced(Freed(b, i), start, limit)
  {
    FreedInSteps(b, i);
    MarkedSpaced(b, i, false, start, limit);
    JoinedSpaced(Marked(b, i, false), i, start, limit);
  }

  lemma FreedMerged(b: seq<Block>, i: int)
    requires Merged(b) && 0 <= i < |b| && b[i].used
    ensures Merged(Freed(b, i))
  {
    MergedParts(b, i);
    MergedParts(b, i + 1);
    if i + 1 < |b| && !b[i + 1].used {
      MergedParts(b, i + 2);
      assert i + 2 < |b| ==> b[i + 2].used;
    }
    if !(0 < i && !b[i - 1].used) {
      MergedConcat(b[..i], [Block(b[i].addr, false)]);
    }
    MergedConcat(Ahead(b, i), Behind(b, i));
  }

  lemma FreedAt(b: seq<Block>, i: int, k: int)
    requires 0 <= i < |b| && 0 <= k < |b| && k != i && b[k].used
    ensures var c := Freed(b, i); var k' := if k < i then k else k + |c| - |b|;
      0 <= k' < |c| && c[k'] == b[k] && (k' + 1 < |c| <==> k + 1 < |b|)
      && (k' + 1 < |c| ==> c[k' + 1].addr == b[k + 1].addr)
  {
    var c := Freed(b, i);
    var right := Behind(b, i);
    if k > i {
      var d := |b| - |right|;
      assert c[k + |c| - |b|] == right[k - d];
    }
  }

  lemma FreedFilled(b: seq<Block>, i: int, limit: int)
    requires 0 <= i < |b| && Filled(b, limit)
    ensures Filled(Freed(b, i), limit)
  {
    var c := Freed(b, i);
    var left, right := Ahead(b, i), Behind(b, i);
    forall k | 0 <= k < |c| && c[k].used ensures 0 < Size(c, k, limit) {
      if k < |left| {
        assert c[k] == left[k];
        FreedAt(b, i, k);
        assert 0 < Size(b, k, limit);
      } else {
        assert c[k] == right[k - |left|] == b[k - |c| + |b|];
        FreedAt(b, i, k - |c| + |b|);
        assert 0 < Size(b, k - |c| + |b|, limit);
      }
    }
  }

  /** Every allocated block of the new list was one of the old list. */
  lemma FreedUsed(b: seq<Block>, i: int, start: int, limit: int, k: int)
    requires Spaced(b, start, limit) && 0 <= i < |b|
    requires 0 <= k < |Freed(b, i)| && Freed(b, i)[k].used
    ensures Freed(b, i)[k] in b && Freed(b, i)[k].addr != b[i].addr
  {
    var c := Freed(b, i);
    var left, right := Ahead(b, i), Behind(b, i);
    var o := if k < |left| then k else k - |left| + (|b| - |right|);
    assert c[k] == b[o] && o != i by {
      if k < |left| { assert c[k] == left[k]; } else { assert c[k] == right[k - |left|]; }
    }
    HeadersApart(b, start, limit, o, i);
  }

  lemma FreedWellFormed(b: seq<Block>, i: int, start: int, limit: int)
    requires WellFormed(b, start, limit) && 0 <= i < |b| && b[i].used && 1 < |b|
    ensures Freed(b, i) == Joined(Marked(b, i, false), i)
    ensures WellFormed(Freed(b, i), start, limit)
  {
    FreedInSteps(b, i);
    FreedSpaced(b, i, start, limit);
    FreedMerged(b, i);
    FreedFilled(b, i, limit);
    assert i == 0 ==> Ahead(b, i) != [];
  }

  /** A freed block that is not merged into the one before keeps its header. */
  lemma FreedHas(b: seq<Block>, i: int)
    requires 0 <= i < |b| && !(0 < i && !b[i - 1].used)
    ensures IndexOf(Freed(b, i), b[i].addr) < |Freed(b, i)|
  {
    assert Freed(b, i)[i] == Ahead(b, i)[i] == Block(b[i].addr, false);
  }
}
