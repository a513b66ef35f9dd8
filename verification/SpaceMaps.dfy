/**
  Pages of the address spaces: what they are mapped to, and what the operations
  of `AddressSpaces` change of that. Addresses are given as page numbers.
 */
module SpaceMaps {
  import opened Basics
  import opened Lists
  import opened SpaceSpec
  import SpaceTheorems

  function TabOf(page: nat): nat { page / ENTRIES }

  function IndexOf(page: nat): nat { page % ENTRIES }

  /** What a page is mapped to in a space, if it is: the entry for it. */
  function Mapping(st: Spaces, s: int, page: nat): Option<Entry> {
    if HasTable(st, s, TabOf(page)) && IndexOf(page) < |Table(st, s, TabOf(page))| && Table(st, s, TabOf(page))[IndexOf(page)].present
    then Some(Table(st, s, TabOf(page))[IndexOf(page)]) else None
  }

  predicate Mapped(st: Spaces, s: int, page: nat) { Mapping(st, s, page).Some? }

  /** The page is in the part of the address space that belongs to the user. */
  predicate InUser(page: nat) { FIRST_USER <= TabOf(page) < ENTRIES }

  /** A directory with the kernel's entries of another one, and no user entries. */
  function NewDir(dir: seq<Entry>): (d: seq<Entry>)
    requires |dir| == ENTRIES
    ensures |d| == ENTRIES && forall i :: 0 <= i < ENTRIES ==> d[i] == if i < FIRST_USER then dir[i] else ABSENT
  {
    seq(ENTRIES, i requires 0 <= i < ENTRIES => if i < FIRST_USER then dir[i] else ABSENT)
  }

  ghost predicate AllMapped(st: Spaces, s: int, page: nat, count: nat) {
    forall p: nat :: page <= p < page + count ==> Mapped(st, s, p)
  }

  /** No mapping has changed, in any space. */
  ghost predicate SameMappings(st: Spaces, t: Spaces) { forall q, p: nat :: Mapping(t, q, p) == Mapping(st, q, p) }

  /** One page of space s is mapped otherwise, and nothing else has changed, in any space. */
  ghost predicate Rewritten(st: Spaces, t: Spaces, s: int, page: nat, o: Option<Entry>) {
    forall q, p: nat :: Mapping(t, q, p) == if q == s && p == page then o else Mapping(st, q, p)
  }

  /** Flags of entries. */
  const PRESENT := 1
  const WRITABLE := 2
  const USER := 4
  const BORROWED := 0x200

  /** `flags | flag_present` */
  function WithPresent(flags: nat): nat { if Bit(flags, PRESENT) then flags else flags + PRESENT }

  /** The entry that was asked for: present, otherwise with these flags, for the given page of memory, or for one of the free ones. */
  predicate Wanted(e: Entry, phy: nat, borrowed: bool, flags: nat, free: set<nat>) {
    && e.present && e.flags % 2 == 1 && e.flags / 2 == flags / 2 && e.borrowed == borrowed
    && if phy != 0 then e.frame == phy else e.frame in free
  }

  predicate InRange(s: int, page: nat, count: nat, q: int, p: nat) { q == s && page <= p < page + count }

  /** What is mapped in the range is as it was asked for; everything else is as it was, in every space. */
  ghost predicate RangeMapped(st: Spaces, free: set<nat>, t: Spaces, s: int, page: nat, count: nat, phy: nat, borrowed: bool, flags: nat) {
    forall q, p: nat ::
      if InRange(s, page, count, q, p)
      then Mapping(t, q, p).Some? ==>
        Wanted(Mapping(t, q, p).value, if phy != 0 then phy + (p - page) else 0, borrowed, flags, free)
      else Mapping(t, q, p) == Mapping(st, q, p)
  }

  /** Nothing is mapped in the range; everything else is as it was, in every space. */
  ghost predicate RangeUnmapped(st: Spaces, t: Spaces, s: int, page: nat, count: nat) {
    forall q, p: nat :: Mapping(t, q, p) == if InRange(s, page, count, q, p) then None else Mapping(st, q, p)
  }

  /** The directory entry of a new table: present and writable, and for the user unless it is made for the last page. */
  predicate NewTableEntry(e: Entry, i: nat) {
    e.present && !e.borrowed && (e.flags == 1 + 2 + 4 || (i == ENTRIES - 1 && e.flags == 1 + 2))
  }

  /** Entry i of a directory is as it was, or that of a new table of space s; entries of the kernel are as they were. */
  ghost predicate DirEntryKept(st: Spaces, t: Spaces, s: int, q: int, i: nat) {
    q in st.dirs && q in t.dirs && i < |st.dirs[q]| && i < |t.dirs[q]| ==>
      t.dirs[q][i] == st.dirs[q][i] || (q == s && FIRST_USER <= i && !st.dirs[q][i].present && NewTableEntry(t.dirs[q][i], i))
  }

  ghost predicate DirsKept(st: Spaces, t: Spaces, s: int) {
    && t.dirs.Keys == st.dirs.Keys
    && (forall q :: q in st.dirs ==> |t.dirs[q]| == |st.dirs[q]|)
    && (forall q, i: nat :: DirEntryKept(st, t, s, q, i))
  }

  lemma DirsKeptTwice(st: Spaces, t: Spaces, u: Spaces, s: int)
    requires DirsKept(st, t, s) && DirsKept(t, u, s)
    ensures DirsKept(st, u, s)
  {
    forall q, i: nat ensures DirEntryKept(st, u, s, q, i) { assert DirEntryKept(st, t, s, q, i) && DirEntryKept(t, u, s, q, i); }
  }

  /** The flags of a new table for a page; the last page of memory is not in the user's region. */
  function TableFlags(page: nat): int { if page < 0xf_ffff then 7 else 3 }

  /** The tables of space s after one was made for directory entry i, unless it was there. */
  ghost predicate AfterTable(st: Spaces, t: Spaces, s: int, i: nat) {
    forall k: nat :: HasTable(t, s, k) <==> HasTable(st, s, k) || k == i
  }

  /** The free pages that it takes to have the table for a page. */
  function TableCost(st: Spaces, s: int, page: nat): nat { if HasTable(st, s, TabOf(page)) then 0 else 1 }

  /** The free pages that it takes to map one page. */
  function Cost(st: Spaces, s: int, page: nat, phy: nat): nat { TableCost(st, s, page) + PageCost(phy) }

  function PageCost(phy: nat): nat { if phy == 0 then 1 else 0 }

  /** The directory entries of a range of pages that have no table. */
  ghost function NewTables(st: Spaces, s: int, page: nat, count: nat): set<nat> {
    if count == 0 then {}
    else
      var k := TabOf(page + count - 1);
      NewTables(st, s, page, count - 1) + if HasTable(st, s, k) then {} else {k}
  }

  lemma {:induction false} NewTablesAre(st: Spaces, s: int, page: nat, count: nat, k: nat)
    ensures k in NewTables(st, s, page, count) <==>
      !HasTable(st, s, k) && exists p: nat :: page <= p < page + count && TabOf(p) == k
    decreases count
  {
    if count > 0 {
      NewTablesAre(st, s, page, count - 1, k);
      assert k == TabOf(page + count - 1) || forall p: nat :: page <= p < page + count && TabOf(p) == k ==> p < page + count - 1;
    }
  }

  /** The free pages that it takes to map a range, none of which is mapped. */
  ghost function Need(st: Spaces, s: int, page: nat, count: nat, phy: nat): nat {
    |NewTables(st, s, page, count)| + if phy == 0 then count else 0
  }

  /**
    After the first i pages: they are mapped, at the expense of just the pages
    they need; or memory has run out, and one of them is not.
   */
  ghost predicate MappedSoFar(st: Spaces, free: set<nat>, t: Spaces, left: set<nat>, s: int, page: nat, i: nat, phy: nat) {
    if Need(st, s, page, i, phy) <= |free|
    then
      && AllMapped(t, s, page, i) && |left| == |free| - Need(st, s, page, i, phy)
      && forall k: nat :: HasTable(t, s, k) <==> HasTable(st, s, k) || k in NewTables(st, s, page, i)
    else left == {} && !AllMapped(t, s, page, i)
  }

  lemma NothingNeeded(st: Spaces, s: int, page: nat, phy: nat)
    ensures NewTables(st, s, page, 0) == {} && Need(st, s, page, 0, phy) == 0
  {
    assert NewTables(st, s, page, 0) == {};
  }

  /** One more page needs a table if neither the space nor an earlier page has it. */
  lemma NeedStep(st: Spaces, s: int, page: nat, i: nat, phy: nat)
    ensures var k, new1 := TabOf(page + i), NewTables(st, s, page, i);
      && NewTables(st, s, page, i + 1) == (if HasTable(st, s, k) then new1 else new1 + {k})
      && Need(st, s, page, i + 1, phy)
         == Need(st, s, page, i, phy) + (if HasTable(st, s, k) || k in new1 then 0 else 1) + (if phy == 0 then 1 else 0)
  {
    var k, new1 := TabOf(page + i), NewTables(st, s, page, i);
    assert new1 + {} == new1;
    if k in new1 { assert new1 + {k} == new1; }
  }

  lemma MappedAll(st: Spaces, free: set<nat>, t: Spaces, left: set<nat>, s: int, page: nat, count: nat, phy: nat)
    requires MappedSoFar(st, free, t, left, s, page, count, phy)
    ensures AllMapped(t, s, page, count) <==> Need(st, s, page, count, phy) <= |free|
  {}

  /** One round of the loop of `map`. */
  lemma MapStep(st: Spaces, free: set<nat>, t: Spaces, left: set<nat>, u: Spaces, left': set<nat>, s: int, page: nat, i: nat,
                phy: nat, ok: bool)
    requires MappedSoFar(st, free, t, left, s, page, i, phy) && left' <= left
    requires ok <==> Cost(t, s, page + i, phy) <= |left|
    requires if ok then |left'| == |left| - Cost(t, s, page + i, phy) && AfterTable(t, u, s, TabOf(page + i)) else left' == {}
    requires forall p: nat :: Mapped(u, s, p) <==> (ok && p == page + i) || Mapped(t, s, p)
    requires !Mapped(t, s, page + i)
    ensures MappedSoFar(st, free, u, left', s, page, i + 1, phy)
  {
    NeedStep(st, s, page, i, phy);
    if Need(st, s, page, i, phy) <= |free| {
      if !ok { assert !Mapped(u, s, page + i); }
    } else {
      var p: nat :| page <= p < page + i && !Mapped(t, s, p);
      assert !Mapped(u, s, p);
    }
  }

  lemma RangeStep(st: Spaces, free: set<nat>, t: Spaces, left: set<nat>, u: Spaces, s: int, page: nat, i: nat, phy: nat,
                  borrowed: bool, flags: nat, o: Option<Entry>)
    requires RangeMapped(st, free, t, s, page, i, phy, borrowed, flags) && left <= free
    requires Rewritten(t, u, s, page + i, o)
    requires o.Some? ==> Wanted(o.value, if phy != 0 then phy + i else 0, borrowed, flags, left)
    ensures RangeMapped(st, free, u, s, page, i + 1, phy, borrowed, flags)
  {
    forall q, p: nat
      ensures if InRange(s, page, i + 1, q, p)
              then Mapping(u, q, p).Some? ==>
                Wanted(Mapping(u, q, p).value, if phy != 0 then phy + (p - page) else 0, borrowed, flags, free)
              else Mapping(u, q, p) == Mapping(st, q, p)
    {
      assert InRange(s, page, i + 1, q, p) <==> InRange(s, page, i, q, p) || (q == s && p == page + i);
    }
  }

  lemma UnmapStep(st: Spaces, t: Spaces, u: Spaces, s: int, page: nat, i: nat)
    requires RangeUnmapped(st, t, s, page, i) && Rewritten(t, u, s, page + i, None)
    ensures RangeUnmapped(st, u, s, page, i + 1)
  {
    forall q, p: nat ensures Mapping(u, q, p) == if InRange(s, page, i + 1, q, p) then None else Mapping(st, q, p) {
      assert InRange(s, page, i + 1, q, p) <==> InRange(s, page, i, q, p) || (q == s && p == page + i);
    }
  }

  /** A range of pages, and where it lies in memory, or 0 if free pages are to be taken. */
  datatype Segment = Segment(page: nat, count: nat, phy: nat)

  predicate Within(seg: Segment, p: nat) { seg.page <= p < seg.page + seg.count }

  predicate UserSegment(seg: Segment) { forall p: nat :: seg.page <= p < seg.page + seg.count ==> InUser(p) }

  predicate Apart(a: Segment, b: Segment) { a.page + a.count <= b.page || b.page + b.count <= a.page }

  /** The segments of a program lie in the user's part and do not overlap. */
  ghost predicate Program(segs: seq<Segment>) {
    && (forall i :: 0 <= i < |segs| ==> UserSegment(segs[i]))
    && (forall i, j :: 0 <= i < j < |segs| ==> Apart(segs[i], segs[j]))
  }

  ghost predicate Unmapped(st: Spaces, s: int, seg: Segment) { forall p: nat :: Within(seg, p) ==> !Mapped(st, s, p) }

  /** A space that owned nothing at first, and is deleted, leaves everything as it was. */
  lemma GivesAllBack(st: Spaces, free: set<nat>, t: Spaces, left: set<nat>, pages: set<nat>, s: int)
    requires Owned(st, free, pages) && Owned(t, left, pages) && Keeps(st, free, t, left, s) && s in t.dirs
    requires forall r :: SpaceOf(r) == s ==> FrameOf(st, r) == None
    ensures left + PagesOfSpace(t, s) == free
    ensures forall r :: FrameOf(st, r) == if SpaceOf(r) == s then None else FrameOf(t, r)
  {
    SpaceTheorems.OwnsWhatWasTaken(st, free, t, left, pages, s);
  }

  // ---------------------------------------------------------------------
  // What the operations write
  // ---------------------------------------------------------------------

  /** What making a table changes. */
  lemma Install(st: Spaces, free: set<nat>, pages: set<nat>, s: int, i: nat, f: nat, flags: int, content: seq<Entry>)
    requires Owned(st, free, pages) && s in st.dirs && FIRST_USER <= i < |st.dirs[s]| && !st.dirs[s][i].present
    requires f in free && f in pages && |content| == ENTRIES && Clear(content) && NewTableEntry(Entry(f, true, false, flags), i)
    ensures var t := WithTable(st, s, i, f, flags, content);
      && Owned(t, free - {f}, pages) && Grows(st, free, t, free - {f}, s) && AfterTable(st, t, s, i)
      && SameMappings(st, t) && DirsKept(st, t, s)
  {
    var t := WithTable(st, s, i, f, flags, content);
    SpaceTheorems.ClearIsHarmless(st, free, pages, content);
    SpaceTheorems.WithTableOwned(st, free, pages, s, i, f, flags, content);
    SpaceTheorems.WithTableGrows(st, free, pages, s, i, f, flags, content);
    SpaceTheorems.FreeIsNobodys(st, free, pages, f);
    forall q, k: nat
      ensures HasTable(t, q, k) <==> HasTable(st, q, k) || (q == s && k == i)
      ensures HasTable(st, q, k) ==> HasTable(t, q, k) && Table(t, q, k) == Table(st, q, k)
    {
      assert FrameOf(st, TableRef(q, k)) != Some(f) && EntryOk(st, q, k);
    }
    forall q, p: nat ensures Mapping(t, q, p) == Mapping(st, q, p) {
      if !HasTable(st, q, TabOf(p)) && HasTable(t, q, TabOf(p)) { assert Table(t, q, TabOf(p)) == content; }
    }
  }

  /** What mapping a page that was not mapped changes. */
  lemma SetPage(st: Spaces, free: set<nat>, free': set<nat>, pages: set<nat>, s: int, page: nat, e: Entry)
    requires Owned(st, free, pages) && HasTable(st, s, TabOf(page)) && !Mapped(st, s, page) && e.present
    requires if e.borrowed then free' == free else e.frame in free && e.frame in pages && free' == free - {e.frame}
    ensures IndexOf(page) < |Table(st, s, TabOf(page))|
    ensures var t := WithEntry(st, s, TabOf(page), IndexOf(page), e);
      && Owned(t, free', pages) && Grows(st, free, t, free', s)
      && (forall k: nat :: HasTable(t, s, k) <==> HasTable(st, s, k)) && Rewritten(st, t, s, page, Some(e))
  {
    var i, j := TabOf(page), IndexOf(page);
    SpaceTheorems.TableFacts(st, free, pages, s, i);
    if !e.borrowed { SpaceTheorems.FreeIsNobodys(st, free, pages, e.frame); }
    assert FrameOf(st, PageRef(s, i, j)) == None;
    SpaceTheorems.WithEntryOwned(st, free, pages, s, i, j, e, free');
    SpaceTheorems.WithEntryKeeps(st, free, pages, s, i, j, e, free');
    MappedAfter(st, free, pages, s, page, e);
  }

  lemma MappedAfter(st: Spaces, free: set<nat>, pages: set<nat>, s: int, page: nat, e: Entry)
    requires Owned(st, free, pages) && HasTable(st, s, TabOf(page)) && IndexOf(page) < |Table(st, s, TabOf(page))|
    ensures var t := WithEntry(st, s, TabOf(page), IndexOf(page), e);
      && (forall k: nat :: HasTable(t, s, k) <==> HasTable(st, s, k))
      && Rewritten(st, t, s, page, if e.present then Some(e) else None)
  {
    var i, j := TabOf(page), IndexOf(page);
    var t := WithEntry(st, s, i, j, e);
    SpaceTheorems.TableFacts(st, free, pages, s, i);
    forall k: nat ensures HasTable(t, s, k) <==> HasTable(st, s, k) {}
    forall q, p: nat
      ensures Mapping(t, q, p) == if q == s && p == page then (if e.present then Some(e) else None) else Mapping(st, q, p)
    {
      var k := TabOf(p);
      assert HasTable(t, q, k) <==> HasTable(st, q, k);
      assert HasTable(st, q, k) && st.dirs[q][k].frame == st.dirs[s][i].frame ==> q == s && k == i;
      assert k == i && IndexOf(p) == j ==> p == page;
    }
  }

  /** What unmapping a mapped page changes. */
  lemma ClearPage(st: Spaces, free: set<nat>, pages: set<nat>, s: int, page: nat)
    requires Owned(st, free, pages) && Mapped(st, s, page)
    ensures var i, j := TabOf(page), IndexOf(page);
      var t, o := WithEntry(st, s, i, j, ABSENT), FrameOf(st, PageRef(s, i, j));
      && (o.Some? ==> o.value in pages && o.value !in free)
      && Owned(t, free + OneOf(o), pages) && Keeps(st, free, t, free + OneOf(o), s)
      && (forall r :: r != PageRef(s, i, j) ==> FrameOf(t, r) == FrameOf(st, r))
      && Rewritten(st, t, s, page, None)
  {
    var i, j := TabOf(page), IndexOf(page);
    var t, o := WithEntry(st, s, i, j, ABSENT), FrameOf(st, PageRef(s, i, j));
    assert InUse(st, free, pages, PageRef(s, i, j));
    SpaceTheorems.WithEntryOwned(st, free, pages, s, i, j, ABSENT, free + OneOf(o));
    SpaceTheorems.WithEntryKeeps(st, free, pages, s, i, j, ABSENT, free + OneOf(o));
    forall r | r != PageRef(s, i, j) ensures FrameOf(t, r) == FrameOf(st, r) {
      SpaceTheorems.WithEntryFrames(st, free, pages, s, i, j, ABSENT, r);
    }
    MappedAfter(st, free, pages, s, page, ABSENT);
  }

  lemma EntryWanted(f: nat, phy: nat, borrowed: bool, flags: nat, free: set<nat>)
    requires if phy != 0 then f == phy else f in free
    ensures Wanted(Entry(f, true, borrowed, WithPresent(flags)), phy, borrowed, flags, free)
  {}

  /** A page is entered after its table has been made. */
  lemma PlacedAfterTable(st: Spaces, free: set<nat>, t: Spaces, left: set<nat>, u: Spaces, left': set<nat>, s: int, page: nat,
                         o: Option<Entry>)
    requires Grows(st, free, t, left, s) && SameMappings(st, t) && DirsKept(st, t, s)
    requires Grows(t, left, u, left', s) && Rewritten(t, u, s, page, o) && u.dirs == t.dirs
    ensures Grows(st, free, u, left', s) && Rewritten(st, u, s, page, o) && DirsKept(st, u, s)
  {
    SpaceTheorems.KeepsTwice(st, free, t, left, u, left', s);
    forall q, p: nat ensures Mapping(u, q, p) == if q == s && p == page then o else Mapping(st, q, p) {}
    forall q, i: nat ensures DirEntryKept(st, u, s, q, i) { assert DirEntryKept(st, t, s, q, i); }
  }

  /** What the attempt to map one page does; o is what the page is mapped to. */
  ghost predicate OneMapped(t: Spaces, left: set<nat>, u: Spaces, left': set<nat>, s: int, page: nat, phy: nat, borrowed: bool,
                            flags: nat, ok: bool, o: Option<Entry>) {
    && Grows(t, left, u, left', s) && DirsKept(t, u, s) && Rewritten(t, u, s, page, o)
    && ok == o.Some? && (ok <==> Cost(t, s, page, phy) <= |left|)
    && (ok ==> Wanted(o.value, phy, borrowed, flags, left))
    && if ok then |left'| == |left| - Cost(t, s, page, phy) && AfterTable(t, u, s, TabOf(page)) else left' == {}
  }

  /** The loop of `map` after i pages, in all respects. */
  ghost predicate MapState(st: Spaces, free: set<nat>, t: Spaces, left: set<nat>, s: int, page: nat, i: nat, phy: nat,
                           borrowed: bool, flags: nat) {
    && Grows(st, free, t, left, s) && DirsKept(st, t, s) && MappedSoFar(st, free, t, left, s, page, i, phy)
    && RangeMapped(st, free, t, s, page, i, phy, borrowed, flags)
  }

  /** The memory for page i of a range. */
  function PhyAt(phy: nat, i: nat): nat { if phy != 0 then phy + i else 0 }

  lemma RoundStep(st: Spaces, free: set<nat>, t: Spaces, left: set<nat>, u: Spaces, left': set<nat>, s: int, page: nat, i: nat,
                  next: nat, p: nat, phy: nat, f: nat, borrowed: bool, flags: nat, ok: bool, o: Option<Entry>)
    requires next == i + 1 && p == page + i && f == PhyAt(phy, i) && !Mapped(t, s, p)
    requires MapState(st, free, t, left, s, page, i, phy, borrowed, flags)
    requires OneMapped(t, left, u, left', s, p, f, borrowed, flags, ok, o)
    ensures MapState(st, free, u, left', s, page, next, phy, borrowed, flags)
  {
    SpaceTheorems.KeepsTwice(st, free, t, left, u, left', s);
    RangeStep(st, free, t, left, u, s, page, i, phy, borrowed, flags, o);
    DirsKeptTwice(st, t, u, s);
    MapStep(st, free, t, left, u, left', s, page, i, phy, ok);
  }

  lemma MapStart(st: Spaces, free: set<nat>, s: int, page: nat, phy: nat, borrowed: bool, flags: nat)
    ensures MapState(st, free, st, free, s, page, 0, phy, borrowed, flags)
  {
    NothingNeeded(st, s, page, phy);
  }

  lemma MapEnd(st: Spaces, free: set<nat>, t: Spaces, left: set<nat>, s: int, page: nat, n: nat, count: nat, phy: nat, borrowed: bool, flags: nat)
    requires n == count && MapState(st, free, t, left, s, page, n, phy, borrowed, flags)
    ensures Grows(st, free, t, left, s) && DirsKept(st, t, s) && RangeMapped(st, free, t, s, page, count, phy, borrowed, flags)
    ensures AllMapped(t, s, page, count) <==> Need(st, s, page, count, phy) <= |free|
  {
    MappedAll(st, free, t, left, s, page, count, phy);
  }

  /** Page i of the range is not mapped yet. */
  lemma StillUnmapped(st: Spaces, free: set<nat>, t: Spaces, left: set<nat>, s: int, page: nat, i: nat, p: nat,
                      phy: nat, borrowed: bool, flags: nat)
    requires MapState(st, free, t, left, s, page, i, phy, borrowed, flags) && p == page + i && !Mapped(st, s, p)
    ensures !Mapped(t, s, p)
  {
    assert !InRange(s, page, i, s, p);
  }

  // ---------------------------------------------------------------------
  // Addresses
  // ---------------------------------------------------------------------

  /**
    Byte address a is looked up, as the processor does it, with its upper ten
    bits in the directory and the next ten in the table; the user has the
    addresses from 1 GiB to 4 GiB.
   */
  lemma AddressParts(a: nat)
    requires a < 0x1_0000_0000
    ensures TabOf(a / 4096) == a / 0x40_0000 && IndexOf(a / 4096) == a / 0x1000 - 0x400 * (a / 0x40_0000)
    ensures InUser(a / 4096) <==> 0x4000_0000 <= a
  {
    assert a / 4096 / 1024 == a / 0x40_0000;
  }
}
