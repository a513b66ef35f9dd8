/** The allocator of physical pages: src/kernel/src/memory/manager-physical.cc. A set bit means a free page. */
module PhysicalMemory {
  import opened Bits
  import opened Bitset

  const PAGE_SIZE := 4096
  const WORDS := 0x8000
  const PAGES := 0x10_0000
  const MIB := 0x10_0000
  const U32_MAX := 0xffff_ffff

  /** The free pages of a bitmap. */
  ghost function FreePages(words: seq<Word>): (s: set<nat>)
    ensures forall j: nat :: j in s <==> j < WORD_BITS * |words| && BitAt(words, j)
  {
    set j: nat | j < WORD_BITS * |words| && BitAt(words, j)
  }

  ghost predicate Below(s: set<nat>, n: nat) { forall p :: p in s ==> p < n }

  /** The lowest page of a set. */
  ghost predicate Lowest(s: set<nat>, p: nat) { p in s && forall q: nat :: q in s ==> p <= q }

  /** A region of memory that the boot loader reports as usable. */
  datatype Region = Region(start: nat, size: nat)

  /** A region that is too small, or cannot be reached with 32-bit addresses. */
  predicate Ignored(r: Region) { r.start >= U32_MAX || r.start + PAGE_SIZE >= U32_MAX || r.size < PAGE_SIZE }

  /** Page j lies in the region as a whole. */
  predicate Inside(r: Region, j: nat) { r.start <= PAGE_SIZE * j && PAGE_SIZE * (j + 1) <= r.start + r.size }

  /** The last whole page of the region is within the first 4 GiB. */
  predicate InReach(r: Region) { Ignored(r) || r.start + r.size < PAGE_SIZE * (PAGES + 1) }

  /** The first page of a region, and the number of pages, as `mark_region_free` rounds them. */
  function Span(r: Region): (nat, nat)
    requires PAGE_SIZE <= r.size
  {
    var rest := r.start % PAGE_SIZE;
    var skip := if rest != 0 then PAGE_SIZE - rest else 0;
    ((r.start + skip) / PAGE_SIZE, (r.size - skip) / PAGE_SIZE)
  }

  /** The pages that are marked are those inside the region; they are in the bitmap exactly when the region is in reach. */
  lemma SpanIs(r: Region)
    requires !Ignored(r)
    ensures forall j: nat :: Inside(r, j) <==> Span(r).0 <= j < Span(r).0 + Span(r).1
    ensures InReach(r) <==> Span(r).0 + Span(r).1 <= PAGES
  {
    var (first, count) := Span(r);
    assert first + count == (r.start + r.size) / PAGE_SIZE;
  }

  /** Page j is usable memory by the map of the boot loader. */
  ghost predicate Usable(rs: seq<Region>, j: nat) { exists i :: 0 <= i < |rs| && UsableIn(rs, i, j) }

  ghost predicate UsableIn(rs: seq<Region>, i: int, j: nat)
    requires 0 <= i < |rs|
  {
    !Ignored(rs[i]) && Inside(rs[i], j)
  }

  // ---------------------------------------------------------------------
  // Pages that come and go
  // ---------------------------------------------------------------------

  /** The free pages, and the pages that have been handed out and not yet given back. */
  datatype Pages = Pages(free: set<nat>, owned: set<nat>)

  datatype Op = Allocate(p: nat) | Free(p: nat)

  /** An allocation that returns p, and a page that its owner gives back. */
  ghost predicate Legal(s: Pages, op: Op) {
    match op
    case Allocate(p) => if s.free == {} then p == 0 else Lowest(s.free, p)
    case Free(p) => p in s.owned
  }

  ghost function Step(s: Pages, op: Op): Pages {
    match op
    case Allocate(p) => if p == 0 then s else Pages(s.free - {p}, s.owned + {p})
    case Free(p) => Pages(s.free + {p}, s.owned - {p})
  }

  /** No page is free and handed out at once, and page 0, which stands for a failure, is neither. */
  ghost predicate Separate(s: Pages) { s.free !! s.owned && 0 !in s.free + s.owned }

  /** The change of the counter of used pages, and the opposite change of the counter of free ones. */
  function ChangeOf(op: Op): int {
    match op
    case Allocate(p) => if p == 0 then 0 else 1
    case Free(_) => -1
  }

  lemma StepConserves(s: Pages, op: Op)
    requires Separate(s) && Legal(s, op)
    ensures var t := Step(s, op);
      && Separate(t) && t.free + t.owned == s.free + s.owned
      && |t.owned| == |s.owned| + ChangeOf(op) && |t.free| == |s.free| - ChangeOf(op)
  {}

  /**
    The hint is right; no page is free and handed out at once; all pages are
    accounted for; and the number of pages that are used is right.
   */
  ghost predicate Sound(s: Pages, managed: set<nat>, hint: nat, used: int) {
    && (forall p: nat :: p in s.free ==> hint <= p)
    && Separate(s) && s.free + s.owned == managed && Below(managed, PAGES) && used == |s.owned|
  }

  /** The usable pages behind the first MiB and the kernel. */
  ghost function Managed(rs: seq<Region>, kernelPages: nat): set<nat> {
    set j: nat | j < PAGES && Usable(rs, j) && MIB / PAGE_SIZE + kernelPages <= j
  }

  lemma StartSound(free: set<nat>, rs: seq<Region>, kernelPages: nat)
    requires forall j: nat :: j in free <==> j < PAGES && Usable(rs, j) && MIB / PAGE_SIZE + kernelPages <= j
    ensures Sound(Pages(free, {}), Managed(rs, kernelPages), 0, 0)
  {
    assert free == Managed(rs, kernelPages);
    assert free + {} == free;
  }

  lemma StepSound(s: Pages, op: Op, managed: set<nat>, hint: nat, used: int, hint': nat)
    requires Sound(s, managed, hint, used) && Legal(s, op)
    requires match op case Allocate(p) => hint' == (if p == 0 then hint else p + 1) case Free(p) => hint' <= p && hint' <= hint
    ensures Sound(Step(s, op), managed, hint', used + ChangeOf(op))
  {
    StepConserves(s, op);
  }

  class Allocator {
    const bitmap: Bitset
    const kernelPages: nat
    /** The pages that the allocator hands out, and those that it has handed out. */
    ghost const managed: set<nat>
    ghost var owned: set<nat>
    /** No page below this one is free. */
    var firstFree: nat
    var totalFree: int
    var totalUsed: int
    var totalReserved: int

    ghost function Free(): set<nat>
      reads bitmap.data
    {
      FreePages(bitmap.Words())
    }

    /** The pages as a value. */
    ghost function View(): Pages
      reads this`owned, bitmap.data
    {
      Pages(Free(), owned)
    }

    ghost predicate Valid()
      reads this, bitmap.data
    {
      bitmap.data.Length == WORDS && Sound(View(), managed, firstFree, totalUsed - kernelPages)
    }

    /** `mark_region_free`: the pages that lie in the region as a whole become free. */
    method MarkRegionFree(r: Region)
      requires bitmap.data.Length == WORDS && InReach(r)
      modifies this`totalFree, this`totalReserved, bitmap.data
      ensures forall j: nat :: j < PAGES ==>
        (BitAt(bitmap.Words(), j) <==> old(BitAt(bitmap.Words(), j)) || (!Ignored(r) && Inside(r, j)))
      ensures totalFree + totalReserved == old(totalFree + totalReserved)
    {
      if r.start >= U32_MAX || r.start + PAGE_SIZE >= U32_MAX { return; }
      if r.size < PAGE_SIZE { return; }
      var start, size := r.start, r.size;
      var rest := start % PAGE_SIZE;
      if rest != 0 {
        start := start + (PAGE_SIZE - rest);
        size := size - (PAGE_SIZE - rest);
      }
      var pageStart, pageCount := start / PAGE_SIZE, size / PAGE_SIZE;
      SpanIs(r);
      bitmap.SetRange(pageStart, pageCount, true);
      totalFree := totalFree + pageCount;
      totalReserved := totalReserved - pageCount;
    }

    /** The loop of `init` over the memory map. */
    method MarkRegionsFree(regions: seq<Region>)
      requires forall i :: 0 <= i < |regions| ==> InReach(regions[i])
      requires bitmap.data.Length == WORDS && Empty()
      modifies this`totalFree, this`totalReserved, bitmap.data
      ensures forall j: nat :: j < PAGES ==> (BitAt(bitmap.Words(), j) <==> Usable(regions, j))
      ensures totalFree + totalReserved == old(totalFree + totalReserved)
    {
      var i := 0;
      while i < |regions|
        invariant 0 <= i <= |regions| && totalFree + totalReserved == old(totalFree + totalReserved)
        invariant forall j: nat :: j < PAGES ==> (BitAt(bitmap.Words(), j) <==> Usable(regions[..i], j))
      {
        assert InReach(regions[i]);
        MarkRegionFree(regions[i]);
        forall j: nat | j < PAGES
          ensures Usable(regions[..i + 1], j) <==> Usable(regions[..i], j) || UsableIn(regions, i, j)
        {
          UsableStep(regions, i, j);
        }
        i := i + 1;
      }
      assert regions[..i] == regions;
    }

    ghost predicate Empty()
      reads bitmap.data
    {
      forall j: nat :: j < WORD_BITS * |bitmap.Words()| ==> !BitAt(bitmap.Words(), j)
    }

    /**
      `init`: the free pages are those of the memory map, without the first MiB
      and the pages of the kernel behind it.
     */
    constructor (regions: seq<Region>, kernelPages: nat)
      requires forall i :: 0 <= i < |regions| ==> InReach(regions[i])
      requires MIB / PAGE_SIZE + kernelPages <= PAGES
      ensures Valid()
      ensures forall j: nat :: j < PAGES ==>
        (BitAt(bitmap.Words(), j) <==> Usable(regions, j) && MIB / PAGE_SIZE + kernelPages <= j)
      ensures totalFree + totalUsed + totalReserved == U32_MAX && this.kernelPages == kernelPages && owned == {}
    {
      this.kernelPages := kernelPages;
      managed := Managed(regions, kernelPages);
      owned := {};
      bitmap := new Bitset(WORDS);
      firstFree := 0;
      totalFree, totalUsed, totalReserved := 0, 0, U32_MAX;
      new;
      MarkRegionsFree(regions);
      bitmap.SetRange(0, MIB / PAGE_SIZE, false);
      bitmap.SetRange(MIB / PAGE_SIZE, kernelPages, false);
      totalFree := totalFree - (MIB / PAGE_SIZE + kernelPages);
      totalReserved := totalReserved + MIB / PAGE_SIZE;
      totalUsed := totalUsed + kernelPages;
      StartSound(Free(), regions, kernelPages);
    }

    /** `find_next_free_page`: the first free page in the words from the one of `start` on, or 0. */
    method FindNextFreePage(start: nat) returns (p: nat)
      requires bitmap.data.Length == WORDS
      ensures p == 0 || (p in Free() && WORD_BITS * (start / WORD_BITS) <= p)
      ensures forall q: nat :: q in Free() && WORD_BITS * (start / WORD_BITS) <= q ==> p in Free() && p <= q
    {
      var w := start / WORD_BITS;
      ghost var from := WORD_BITS * w;
      while w < bitmap.data.Length
        invariant start / WORD_BITS <= w
        invariant forall q: nat :: from <= q < WORD_BITS * w ==> q !in Free()
        decreases bitmap.data.Length - w
      {
        var word := bitmap.data[w];
        ZeroWord(word);
        if word != Zero() {
          p := w * WORD_BITS + CountTrailing0s(word);
          LowestInWord(bitmap.Words(), w, p);
          return;
        }
        EmptyWord(bitmap.Words(), w);
        w := w + 1;
      }
      p := 0;
    }

    /** One bit of the bitmap is set or cleared. */
    method Mark(p: nat, free: bool)
      requires bitmap.data.Length == WORDS && p < PAGES
      modifies bitmap.data
      ensures Free() == if free then old(Free()) + {p} else old(Free()) - {p}
    {
      bitmap.Set(p, free);
    }

    /** The pages and the counters after a page has been taken or given back. */
    method Count(ghost op: Op, used: int, hint: nat)
      modifies this`owned, this`totalUsed, this`totalFree, this`firstFree
      ensures owned == Step(Pages({}, old(owned)), op).owned
      ensures totalUsed == old(totalUsed) + used && totalFree == old(totalFree) - used && firstFree == hint
    {
      totalUsed := totalUsed + used;
      totalFree := totalFree - used;
      firstFree := hint;
      owned := Step(Pages({}, owned), op).owned;
    }

    /** `allocate_one`: the lowest free page, or 0 when there is none. */
    method AllocateOne() returns (p: nat)
      requires Valid()
      modifies this, bitmap.data
      ensures Valid()
      ensures p == 0 <==> old(Free()) == {}
      ensures p != 0 ==> Lowest(old(Free()), p) && p !in old(owned)
      ensures Legal(old(View()), Allocate(p)) && View() == Step(old(View()), Allocate(p))
      ensures totalUsed == old(totalUsed) + ChangeOf(Allocate(p)) && totalFree == old(totalFree) - ChangeOf(Allocate(p))
      ensures totalReserved == old(totalReserved)
    {
      p := FindNextFreePage(firstFree);
      if p > 0 {
        StepSound(View(), Allocate(p), managed, firstFree, totalUsed - kernelPages, p + 1);
        Mark(p, false);
        Count(Allocate(p), 1, p + 1);
      } else {
        NoneFree(Free());
      }
    }

    /** `free_one`, for a page that has been handed out. */
    method FreeOne(p: nat)
      requires Valid() && Legal(View(), Op.Free(p))
      modifies this, bitmap.data
      ensures Valid() && View() == Step(old(View()), Op.Free(p))
      ensures totalUsed == old(totalUsed) - 1 && totalFree == old(totalFree) + 1 && totalReserved == old(totalReserved)
    {
      var hint := if p < firstFree then p else firstFree;
      StepSound(View(), Op.Free(p), managed, firstFree, totalUsed - kernelPages, hint);
      assert p in managed;
      Mark(p, true);
      Count(Op.Free(p), -1, hint);
    }
  }

  lemma UsableStep(rs: seq<Region>, i: nat, j: nat)
    requires i < |rs|
    ensures Usable(rs[..i + 1], j) <==> Usable(rs[..i], j) || UsableIn(rs, i, j)
  {
    if Usable(rs[..i + 1], j) {
      var k :| 0 <= k < i + 1 && UsableIn(rs[..i + 1], k, j);
      if k < i { assert UsableIn(rs[..i], k, j); }
    }
    if Usable(rs[..i], j) {
      var k :| 0 <= k < i && UsableIn(rs[..i], k, j);
      assert UsableIn(rs[..i + 1], k, j);
    }
    if UsableIn(rs, i, j) { assert UsableIn(rs[..i + 1], i, j); }
  }

  lemma NoneFree(s: set<nat>)
    requires forall q: nat :: q !in s
    ensures s == {}
  {}

  lemma EmptyWord(words: seq<Word>, w: nat)
    requires w < |words| && words[w] == Zero()
    ensures forall q: nat :: WORD_BITS * w <= q < WORD_BITS * (w + 1) ==> q !in FreePages(words)
  {}

  lemma LowestInWord(words: seq<Word>, w: nat, p: nat)
    requires w < |words| && CountTrailing0s(words[w]) < WORD_BITS && p == w * WORD_BITS + CountTrailing0s(words[w])
    ensures p in FreePages(words) && forall q: nat :: WORD_BITS * w <= q < p ==> q !in FreePages(words)
  {
    var n := CountTrailing0s(words[w]);
    assert p / WORD_BITS == w && p % WORD_BITS == n;
    forall q: nat | WORD_BITS * w <= q < p ensures q !in FreePages(words) {
      assert q / WORD_BITS == w && q % WORD_BITS < n;
    }
  }

  // ---------------------------------------------------------------------
  // Runs
  // ---------------------------------------------------------------------

  ghost function Run(s: Pages, ops: seq<Op>): Pages
    decreases |ops|
  {
    if ops == [] then s else Run(Step(s, ops[0]), ops[1..])
  }

  ghost predicate LegalRun(s: Pages, ops: seq<Op>)
    decreases |ops|
  {
    ops == [] || (Legal(s, ops[0]) && LegalRun(Step(s, ops[0]), ops[1..]))
  }

  /** The change of the counters over a run. */
  function Change(ops: seq<Op>): int { if ops == [] then 0 else ChangeOf(ops[0]) + Change(ops[1..]) }

  /** On every run the pages of the allocator stay the same, and their numbers change as the counters do. */
  lemma {:induction false} PagesConserved(s: Pages, ops: seq<Op>)
    requires Separate(s) && LegalRun(s, ops)
    ensures var t := Run(s, ops);
      && Separate(t) && t.free + t.owned == s.free + s.owned
      && |t.owned| == |s.owned| + Change(ops) && |t.free| == |s.free| - Change(ops)
    decreases |ops|
  {
    if ops != [] {
      StepConserves(s, ops[0]);
      PagesConserved(Step(s, ops[0]), ops[1..]);
    }
  }

  ghost predicate FreedIn(ops: seq<Op>, p: nat) { exists k :: 0 <= k < |ops| && ops[k] == Free(p) }

  /** A page that is handed out stays so until it is given back, and is not handed out again. */
  lemma {:induction false} OwnedUntilFreed(s: Pages, ops: seq<Op>, p: nat)
    requires Separate(s) && LegalRun(s, ops) && p in s.owned && !FreedIn(ops, p)
    ensures p in Run(s, ops).owned && Allocate(p) !in ops
    decreases |ops|
  {
    if ops != [] {
      StepConserves(s, ops[0]);
      forall k | 0 <= k < |ops| - 1 ensures ops[1..][k] != Free(p) { assert ops[k + 1] != Free(p); }
      assert ops[0] != Free(p);
      OwnedUntilFreed(Step(s, ops[0]), ops[1..], p);
      forall k | 0 <= k < |ops| ensures ops[k] != Allocate(p) {
        if 0 < k { assert ops[1..][k - 1] == ops[k]; }
      }
    }
  }

  lemma {:induction false} LegalAfter(s: Pages, ops: seq<Op>, i: nat)
    requires LegalRun(s, ops) && i <= |ops|
    ensures LegalRun(s, ops[..i]) && LegalRun(Run(s, ops[..i]), ops[i..])
    decreases i
  {
    if 0 < i {
      LegalAfter(Step(s, ops[0]), ops[1..], i - 1);
      assert ops[..i][1..] == ops[1..][..i - 1] && ops[1..][i - 1..] == ops[i..];
    }
  }

  lemma NoFree(ops: seq<Op>, i: nat, j: nat, p: nat)
    requires i < j < |ops| && !FreedIn(ops[i..j], p) && ops[j] == Allocate(p)
    ensures !FreedIn(ops[i..][1..][..j - i], p)
  {
    var upTo := ops[i..][1..][..j - i];
    forall k | 0 <= k < |upTo| ensures upTo[k] != Free(p) {
      if k < j - i - 1 { assert ops[i..j][k + 1] == upTo[k]; }
    }
  }

  lemma LastOf(ops: seq<Op>, i: nat, j: nat)
    requires i < j < |ops|
    ensures ops[j] in ops[i..][1..][..j - i]
  {
    assert ops[i..][1..][..j - i][j - i - 1] == ops[j];
  }

  /** Between two allocations that return the same page it is given back: no page ever has two owners. */
  lemma NeverTwice(s: Pages, ops: seq<Op>, i: nat, j: nat, p: nat)
    requires Separate(s) && LegalRun(s, ops)
    requires i < j < |ops| && ops[i] == ops[j] == Allocate(p) && p != 0
    ensures FreedIn(ops[i..j], p)
  {
    LegalAfter(s, ops, i);
    PagesConserved(s, ops[..i]);
    var t, rest := Run(s, ops[..i]), ops[i..];
    StepConserves(t, rest[0]);
    var behind := rest[1..];
    if !FreedIn(ops[i..j], p) {
      var upTo := behind[..j - i];
      LegalAfter(Step(t, rest[0]), behind, j - i);
      NoFree(ops, i, j, p);
      OwnedUntilFreed(Step(t, rest[0]), upTo, p);
      LastOf(ops, i, j);
      assert false;
    }
  }
}
