/**
  Mapping and unmapping pages, and making and deleting address spaces:
  src/kernel/src/memory/manager-virtual.cc over the allocator of physical pages.
  Addresses are given as page numbers.
 */
module AddressSpaces {
  import opened Basics
  import opened Lists
  import Errno
  import P = PhysicalMemory
  import opened SpaceMaps
  import opened SpaceSpec
  import SpaceTheorems

  class Manager {
    const phys: P.Allocator
    var dirs: map<int, seq<Entry>>
    var tables: map<nat, seq<Entry>>
    var current: int

    function St(): Spaces
      reads this
    {
      Spaces(dirs, tables)
    }

    /** Every page of memory has one owner or is free. */
    ghost predicate Sound()
      reads this, phys, phys.bitmap.data
    {
      phys.Valid() && Owned(St(), phys.Free(), phys.managed)
    }

    /** The current space exists, too. */
    ghost predicate Valid()
      reads this, phys, phys.bitmap.data
    {
      Sound() && current in dirs
    }

    /** The kernel's own space, without user pages. */
    constructor (phys: P.Allocator)
      requires phys.Valid()
      ensures Valid() && this.phys == phys && dirs.Keys == {0} && current == 0 && forall r :: FrameOf(St(), r) == None
    {
      this.phys := phys;
      dirs, tables, current := map[0 := seq(ENTRIES, _ => ABSENT)], map[], 0;
      new;
      forall r ensures FrameOf(St(), r) == None {}
    }

    /** `switch_address_space`, from whatever space, even one that has been deleted. */
    method Switch(s: int)
      requires Sound() && s in dirs
      modifies this`current
      ensures Valid() && current == s
    {
      current := s;
    }

    /**
      `get_tab`: the table for a page, which is made when there is none and
      `allocate` is set. `content` is what a new table page happens to hold.
     */
    method GetTab(page: nat, allocate: bool, content: seq<Entry>) returns (ok: bool)
      requires Valid() && InUser(page) && |content| == ENTRIES && Clear(content)
      modifies this`dirs, this`tables, phys, phys.bitmap.data
      ensures Valid() && Grows(old(St()), old(phys.Free()), St(), phys.Free(), current)
      ensures ok == (old(HasTable(St(), current, TabOf(page))) || (allocate && old(phys.Free()) != {}))
      ensures ok ==> AfterTable(old(St()), St(), current, TabOf(page))
      ensures ok ==> |phys.Free()| == |old(phys.Free())| - TableCost(old(St()), current, page)
      ensures !ok || !allocate ==> St() == old(St()) && phys.Free() == old(phys.Free())
      ensures SameMappings(old(St()), St()) && DirsKept(old(St()), St(), current)
    {
      var i := TabOf(page);
      ok := true;
      assert DirSize(St(), current) && EntryOk(St(), current, i);
      if !dirs[current][i].present {
        if !allocate { return false; }
        ok := MakeTable(i, TableFlags(page), content);
      }
    }

    /** The part of `get_tab` that makes a table. */
    method MakeTable(i: nat, flags: int, content: seq<Entry>) returns (ok: bool)
      requires Valid() && FIRST_USER <= i < |dirs[current]| && !dirs[current][i].present
      requires |content| == ENTRIES && Clear(content) && (flags == 7 || (i == ENTRIES - 1 && flags == 3))
      modifies this`dirs, this`tables, phys, phys.bitmap.data
      ensures Valid() && Grows(old(St()), old(phys.Free()), St(), phys.Free(), current)
      ensures ok == (old(phys.Free()) != {})
      ensures ok ==> AfterTable(old(St()), St(), current, i) && |phys.Free()| == |old(phys.Free())| - 1
      ensures !ok ==> St() == old(St()) && phys.Free() == old(phys.Free())
      ensures SameMappings(old(St()), St()) && DirsKept(old(St()), St(), current)
    {
      ghost var st, free := St(), phys.Free();
      var f := TakePage();
      if f == 0 { return false; }
      Install(st, free, phys.managed, current, i, f, flags, content);
      dirs := dirs[current := dirs[current][i := Entry(f, true, false, flags)]];
      tables := tables[f := content];
      ok := true;
    }

    /** The page of memory that is mapped: the given one, or a free one, if there is one. */
    method PageFor(phy: nat) returns (f: nat)
      requires phys.Valid()
      modifies phys, phys.bitmap.data
      ensures phys.Valid() && (f == 0 <==> |old(phys.Free())| < PageCost(phy))
      ensures phy != 0 || f == 0 ==> f == phy && phys.Free() == old(phys.Free())
      ensures f == 0 ==> phys.Free() == {}
      ensures phy == 0 && f != 0 ==> f in old(phys.Free()) && f in phys.managed && phys.Free() == old(phys.Free()) - {f}
      ensures f != 0 ==> |phys.Free()| == |old(phys.Free())| - PageCost(phy)
    {
      f := phy;
      if phy == 0 { f := TakePage(); }
    }

    /** The page that an entry owns, if any, is given back. */
    method Release(e: Entry, ghost o: Option<nat>)
      requires phys.Valid() && o == (if e.borrowed then None else Some(e.frame))
      requires o.Some? ==> o.value in phys.managed && o.value !in phys.Free()
      modifies phys, phys.bitmap.data
      ensures phys.Valid() && phys.Free() == old(phys.Free()) + OneOf(o)
    {
      if !e.borrowed { ReturnPage(e.frame); }
    }

    /** A page that has been handed out becomes free. */
    method ReturnPage(f: nat)
      requires phys.Valid() && f in phys.managed && f !in phys.Free()
      modifies phys, phys.bitmap.data
      ensures phys.Valid() && phys.Free() == old(phys.Free()) + {f} && phys.totalFree == old(phys.totalFree) + 1
    {
      phys.FreeOne(f);
    }

    /** A free page, if there is one. */
    method TakePage() returns (f: nat)
      requires phys.Valid()
      modifies phys, phys.bitmap.data
      ensures phys.Valid() && (f == 0 <==> old(phys.Free()) == {})
      ensures f == 0 ==> phys.Free() == old(phys.Free())
      ensures f != 0 ==> f in old(phys.Free()) && f in phys.managed
      ensures f != 0 ==> phys.Free() == old(phys.Free()) - {f} && |phys.Free()| == |old(phys.Free())| - 1
    {
      f := phys.AllocateOne();
    }

    /**
      `map_one`: a page is mapped to the page `phy` of memory, or to a free page
      when `phy` is 0. It succeeds exactly when there are enough free pages for
      the table, if there is none yet, and for the page itself.
     */
    method MapOne(page: nat, phy: nat, borrowed: bool, flags: nat, content: seq<Entry>) returns (ok: bool, ghost o: Option<Entry>)
      requires Valid() && InUser(page) && |content| == ENTRIES && Clear(content) && !Mapped(St(), current, page)
      requires (borrowed <==> phy != 0) && borrowed == Bit(flags, BORROWED)
      modifies this`dirs, this`tables, phys, phys.bitmap.data
      ensures Valid() && OneMapped(old(St()), old(phys.Free()), St(), phys.Free(), current, page, phy, borrowed, flags, ok, o)
    {
      o := None;
      ok := GetTab(page, true, content);
      if !ok { return; }
      ghost var st, free := St(), phys.Free();
      ok, o := PlacePage(page, phy, borrowed, flags);
      PlacedAfterTable(old(St()), old(phys.Free()), st, free, St(), phys.Free(), current, page, o);
    }

    /** The part of `map_one` behind the table: the page of memory is entered in it. */
    method PlacePage(page: nat, phy: nat, borrowed: bool, flags: nat) returns (ok: bool, ghost o: Option<Entry>)
      requires Valid() && HasTable(St(), current, TabOf(page)) && !Mapped(St(), current, page) && (borrowed <==> phy != 0) && borrowed == Bit(flags, BORROWED)
      modifies this`tables, phys, phys.bitmap.data
      ensures Valid() && Grows(old(St()), old(phys.Free()), St(), phys.Free(), current)
      ensures ok <==> PageCost(phy) <= |old(phys.Free())|
      ensures if ok then |phys.Free()| == |old(phys.Free())| - PageCost(phy) else phys.Free() == {}
      ensures forall k: nat :: HasTable(St(), current, k) <==> HasTable(old(St()), current, k)
      ensures ok == o.Some? && (ok ==> Wanted(o.value, phy, borrowed, flags, old(phys.Free())))
      ensures Rewritten(old(St()), St(), current, page, o)
    {
      ghost var st, free := St(), phys.Free();
      var f := PageFor(phy);
      if f == 0 { return false, None; }
      var e := Entry(f, true, borrowed, WithPresent(flags));
      EntryWanted(f, phy, borrowed, flags, free);
      SetPage(st, free, phys.Free(), phys.managed, current, page, e);
      WriteEntry(page, e);
      ok, o := true, Some(e);
    }

    method WriteEntry(page: nat, e: Entry)
      requires HasTable(St(), current, TabOf(page)) && IndexOf(page) < |Table(St(), current, TabOf(page))|
      modifies this`tables
      ensures St() == WithEntry(old(St()), current, TabOf(page), IndexOf(page), e)
    {
      var t := dirs[current][TabOf(page)].frame;
      tables := tables[t := tables[t][IndexOf(page) := e]];
    }

    /**
      `map`: reports success whatever happens, since the test for a failure of
      `map_one` never holds. The whole range is mapped afterwards if and only if
      there were enough free pages before: one for each table that is missing,
      and one for each page of the range when no memory is given. What is mapped
      has the flags and the memory that were asked for; no other mapping of any
      space, and no other directory entry but those of new tables, changes.
     */
    method Map(page: nat, phy: nat, count: nat, borrowed: bool, flags: nat, content: seq<Entry>) returns (err: int)
      requires Valid() && |content| == ENTRIES && Clear(content) && (borrowed <==> phy != 0) && borrowed == Bit(flags, BORROWED)
      requires forall p: nat :: page <= p < page + count ==> InUser(p) && !Mapped(St(), current, p)
      modifies this`dirs, this`tables, phys, phys.bitmap.data
      ensures Valid() && err == Errno.SUCCESS && Grows(old(St()), old(phys.Free()), St(), phys.Free(), current)
      ensures AllMapped(St(), current, page, count) <==> Need(old(St()), current, page, count, phy) <= |old(phys.Free())|
      ensures RangeMapped(old(St()), old(phys.Free()), St(), current, page, count, phy, borrowed, flags)
      ensures DirsKept(old(St()), St(), current)
    {
      ghost var st, free := St(), phys.Free();
      ghost var n := MapPages(page, phy, count, borrowed, flags, content);
      MapEnd(st, free, St(), phys.Free(), current, page, n, count, phy, borrowed, flags);
      err := Errno.SUCCESS;
    }

    /** The loop of `map`. */
    method MapPages(page: nat, phy: nat, count: nat, borrowed: bool, flags: nat, content: seq<Entry>) returns (ghost n: nat)
      requires Valid() && |content| == ENTRIES && Clear(content)
      requires (borrowed <==> phy != 0) && borrowed == Bit(flags, BORROWED)
      requires forall p: nat :: page <= p < page + count ==> InUser(p) && !Mapped(St(), current, p)
      modifies this`dirs, this`tables, phys, phys.bitmap.data
      ensures Valid() && n == count
      ensures MapState(old(St()), old(phys.Free()), St(), phys.Free(), current, page, n, phy, borrowed, flags)
    {
      ghost var st, free := St(), phys.Free();
      MapStart(st, free, current, page, phy, borrowed, flags);
      var i := 0;
      while i < count
        invariant 0 <= i <= count && Valid()
        invariant MapState(st, free, St(), phys.Free(), current, page, i, phy, borrowed, flags)
      {
        var next := i + 1;
        MapRound(st, free, page, phy, i, next, borrowed, flags, content);
        i := next;
      }
      n := i;
    }

    /** One round of the loop of `map`, which began with the spaces st and the free pages `free`. */
    method MapRound(ghost st: Spaces, ghost free: set<nat>, page: nat, phy: nat, i: nat, ghost next: nat, borrowed: bool,
                    flags: nat, content: seq<Entry>)
      requires next == i + 1 && InUser(page + i) && !Mapped(st, current, page + i)
      requires Valid() && |content| == ENTRIES && Clear(content)
      requires (borrowed <==> phy != 0) && borrowed == Bit(flags, BORROWED)
      requires MapState(st, free, St(), phys.Free(), current, page, i, phy, borrowed, flags)
      modifies this`dirs, this`tables, phys, phys.bitmap.data
      ensures Valid() && MapState(st, free, St(), phys.Free(), current, page, next, phy, borrowed, flags)
    {
      ghost var t, left := St(), phys.Free();
      var p, f := page + i, PhyAt(phy, i);
      StillUnmapped(st, free, t, left, current, page, i, p, phy, borrowed, flags);
      var ok;
      ghost var o;
      ok, o := MapOne(p, f, borrowed, flags, content);
      RoundStep(st, free, t, left, St(), phys.Free(), current, page, i, next, p, phy, f, borrowed, flags, ok, o);
    }

    /** With no free page left, nothing is mapped, and yet `map` reports success. */
    method MapWithoutMemory(page: nat, flags: nat, content: seq<Entry>) returns (err: int)
      requires Valid() && InUser(page) && !Mapped(St(), current, page) && |content| == ENTRIES && Clear(content)
      requires phys.Free() == {} && !Bit(flags, BORROWED)
      modifies this`dirs, this`tables, phys, phys.bitmap.data
      ensures Valid() && err == Errno.SUCCESS && !Mapped(St(), current, page)
    {
      err := Map(page, 0, 1, false, flags, content);
      assert Need(old(St()), current, page, 1, 0) >= 1;
    }

    /** `unmap_one`: the page is not mapped afterwards; a page of memory that it owned is free again. */
    method UnmapOne(page: nat)
      requires Valid() && InUser(page)
      modifies this`tables, phys, phys.bitmap.data
      ensures Valid() && Keeps(old(St()), old(phys.Free()), St(), phys.Free(), current)
      ensures phys.Free() == old(phys.Free()) + OneOf(FrameOf(old(St()), PageRef(current, TabOf(page), IndexOf(page))))
      ensures Rewritten(old(St()), St(), current, page, None)
      ensures forall r :: r != PageRef(current, TabOf(page), IndexOf(page)) ==> FrameOf(St(), r) == FrameOf(old(St()), r)
    {
      var i, j := TabOf(page), IndexOf(page);
      ghost var st, free := St(), phys.Free();
      assert DirSize(st, current) && EntryOk(st, current, i);
      if dirs[current][i].present {
        SpaceTheorems.TableFacts(st, free, phys.managed, current, i);
        if tables[dirs[current][i].frame][j].present { ClearMapped(page); }
      }
    }

    /** The part of `unmap_one` for a page that is mapped. */
    method ClearMapped(page: nat)
      requires Valid() && InUser(page) && Mapped(St(), current, page)
      modifies this`tables, phys, phys.bitmap.data
      ensures Valid() && Keeps(old(St()), old(phys.Free()), St(), phys.Free(), current)
      ensures phys.Free() == old(phys.Free()) + OneOf(FrameOf(old(St()), PageRef(current, TabOf(page), IndexOf(page))))
      ensures Rewritten(old(St()), St(), current, page, None)
      ensures forall r :: r != PageRef(current, TabOf(page), IndexOf(page)) ==> FrameOf(St(), r) == FrameOf(old(St()), r)
    {
      ClearPage(St(), phys.Free(), phys.managed, current, page);
      Release(tables[dirs[current][TabOf(page)].frame][IndexOf(page)], FrameOf(St(), PageRef(current, TabOf(page), IndexOf(page))));
      WriteEntry(page, ABSENT);
    }

    /** `unmap` */
    method Unmap(page: nat, count: nat)
      requires Valid() && forall p: nat :: page <= p < page + count ==> InUser(p)
      modifies this`tables, phys, phys.bitmap.data
      ensures Valid() && Keeps(old(St()), old(phys.Free()), St(), phys.Free(), current) && old(phys.Free()) <= phys.Free()
      ensures RangeUnmapped(old(St()), St(), current, page, count)
    {
      ghost var st, free := St(), phys.Free();
      var i := 0;
      while i < count
        invariant 0 <= i <= count && Valid() && Keeps(st, free, St(), phys.Free(), current) && free <= phys.Free()
        invariant RangeUnmapped(st, St(), current, page, i)
      {
        ghost var t, left := St(), phys.Free();
        UnmapOne(page + i);
        SpaceTheorems.KeepsTwice(st, free, t, left, St(), phys.Free(), current);
        UnmapStep(st, t, St(), current, page, i);
        i := i + 1;
      }
    }

    /** `is_mapped`, for a range of whole pages. */
    method IsMapped(page: nat, count: nat) returns (all: bool)
      requires Valid() && forall p: nat :: page <= p < page + count ==> InUser(p)
      ensures all <==> forall p: nat :: page <= p < page + count ==> Mapped(St(), current, p)
    {
      var i := 0;
      while i < count
        invariant 0 <= i <= count && forall p: nat :: page <= p < page + i ==> Mapped(St(), current, p)
      {
        var k := TabOf(page + i);
        assert InUser(page + i);
        assert DirSize(St(), current) && EntryOk(St(), current, k);
        if !dirs[current][k].present {
          assert !Mapped(St(), current, page + i);
          return false;
        }
        SpaceTheorems.TableFacts(St(), phys.Free(), phys.managed, current, k);
        if !tables[dirs[current][k].frame][IndexOf(page + i)].present {
          assert !Mapped(St(), current, page + i);
          return false;
        }
        i := i + 1;
      }
      all := true;
    }

    /** `make_address_space`: the kernel's entries are shared, and there are no user pages. */
    method MakeSpace(s: int)
      requires Valid() && s !in dirs
      modifies this`dirs
      ensures Valid() && |old(dirs)[current]| == ENTRIES
      ensures dirs == old(dirs)[s := NewDir(old(dirs)[current])]
      ensures forall r :: FrameOf(St(), r) == FrameOf(old(St()), r)
      ensures forall r :: SpaceOf(r) == s ==> FrameOf(St(), r) == None
      ensures forall q, p: nat :: Mapping(St(), q, p) == if q == s then None else Mapping(old(St()), q, p)
    {
      assert DirSize(St(), current);
      var d := NewDir(dirs[current]);
      EmptySpace(St(), phys.Free(), phys.managed, s, d);
      dirs := dirs[s := d];
    }

    static lemma EmptySpace(st: Spaces, free: set<nat>, pages: set<nat>, s: int, d: seq<Entry>)
      requires Owned(st, free, pages) && s !in st.dirs && |d| == ENTRIES
      requires forall i :: FIRST_USER <= i < ENTRIES ==> !d[i].present
      ensures var t := st.(dirs := st.dirs[s := d]);
        Owned(t, free, pages) && forall r :: FrameOf(t, r) == FrameOf(st, r)
    {
      var t := st.(dirs := st.dirs[s := d]);
      forall r ensures FrameOf(t, r) == FrameOf(st, r) {
        var (q, k) := match r case TableRef(q, k) => (q, k) case PageRef(q, k, j) => (q, k);
        assert HasTable(t, q, k) <==> HasTable(st, q, k);
      }
      forall a, b ensures Exclusive(t, a, b) { assert Exclusive(st, a, b); }
      forall r ensures InUse(t, free, pages, r) { assert InUse(st, free, pages, r); }
      forall q ensures DirSize(t, q) { assert DirSize(st, q); }
      forall g ensures TableSize(t, g) { assert TableSize(st, g); }
      forall q, k: nat ensures EntryOk(t, q, k) { assert EntryOk(st, q, k); }
    }

    /** The next entry of a table that is taken down. */
    static lemma FreeStep(st: Spaces, free: set<nat>, pages: set<nat>, s: int, i: nat, j: nat)
      requires Owned(st, free, pages) && HasTable(st, s, i) && j < |Table(st, s, i)|
      ensures var e, before, after := Table(st, s, i)[j], PagesOf(st, s, i, j), PagesOf(st, s, i, j + 1);
        if e.present && !e.borrowed
        then e.frame in pages && e.frame !in free && e.frame !in before && after == before + {e.frame} && |after| == |before| + 1
        else after == before
    {
      var r := PageRef(s, i, j);
      assert InUse(st, free, pages, r);
      assert PagesOf(st, s, i, j + 1) == PagesOf(st, s, i, j) + OneOf(FrameOf(st, r));
      if FrameOf(st, r).Some? { SpaceTheorems.NextPage(st, free, pages, s, i, j); }
    }

    /** A page that has not been given back yet is given back. */
    method GiveBack(f: nat, ghost got: set<nat>, ghost free: set<nat>, ghost total: int)
      requires phys.Valid() && f in phys.managed && f !in free && f !in got
      requires phys.Free() == free + got && phys.totalFree == total + |got|
      modifies phys, phys.bitmap.data
      ensures phys.Valid() && phys.Free() == free + (got + {f}) && phys.totalFree == total + |got + {f}|
    {
      ReturnPage(f);
      assert |got + {f}| == |got| + 1;
    }

    /** The body of the inner loop: a page that the entry owns is given back. */
    method FreeEntry(e: Entry, ghost got: set<nat>, ghost free: set<nat>, ghost total: int) returns (ghost now: set<nat>)
      requires phys.Valid() && (e.present && !e.borrowed ==> e.frame in phys.managed && e.frame !in free && e.frame !in got)
      requires phys.Free() == free + got && phys.totalFree == total + |got|
      modifies phys, phys.bitmap.data
      ensures phys.Valid() && phys.Free() == free + now && phys.totalFree == total + |now|
      ensures now == if e.present && !e.borrowed then got + {e.frame} else got
    {
      now := got;
      if e.present && !e.borrowed {
        GiveBack(e.frame, got, free, total);
        now := got + {e.frame};
      }
    }

    /** The pages of table i, after those of the earlier tables. */
    static lemma NextTablePages(st: Spaces, free: set<nat>, pages: set<nat>, s: int, i: nat)
      requires Owned(st, free, pages) && HasTable(st, s, i)
      ensures var f, own := st.dirs[s][i].frame, PagesOf(st, s, i, |Table(st, s, i)|);
        && f in pages && f !in free && f !in PagesUpTo(st, s, i) + own
        && PagesUpTo(st, s, i + 1) == PagesUpTo(st, s, i) + own + {f}
        && own !! PagesUpTo(st, s, i)
    {
      SpaceTheorems.TableFacts(st, free, pages, s, i);
      SpaceTheorems.NextTable(st, free, pages, s, i);
    }

    static lemma {:induction false} PagesGrow(st: Spaces, s: int, i: nat, m: nat, n: nat)
      requires m <= n
      ensures PagesOf(st, s, i, m) <= PagesOf(st, s, i, n)
      decreases n
    {
      if m < n { PagesGrow(st, s, i, m, n - 1); }
    }

    /** The next page of a table is not among those that have been given back. */
    static lemma PageStep(st: Spaces, free: set<nat>, pages: set<nat>, s: int, i: nat, j: nat, got: set<nat>)
      requires Owned(st, free, pages) && HasTable(st, s, i) && j < |Table(st, s, i)|
      requires PagesOf(st, s, i, |Table(st, s, i)|) !! got
      ensures var e, now, after := Table(st, s, i)[j], got + PagesOf(st, s, i, j), got + PagesOf(st, s, i, j + 1);
        if e.present && !e.borrowed then e.frame in pages && e.frame !in free && e.frame !in now && after == now + {e.frame} else after == now
    {
      FreeStep(st, free, pages, s, i, j);
      PagesGrow(st, s, i, j + 1, |Table(st, s, i)|);
      var e := Table(st, s, i)[j];
      if e.present && !e.borrowed {
        assert e.frame in PagesOf(st, s, i, j + 1);
        assert e.frame in PagesOf(st, s, i, |Table(st, s, i)|);
      }
    }

    /** Entry j of table i, after those before it. */
    method FreeNext(ghost st: Spaces, ghost s: int, ghost i: nat, ghost j: nat, ghost next: nat, e: Entry, ghost got: set<nat>,
                    ghost now0: set<nat>, ghost free: set<nat>, ghost total: int) returns (ghost now: set<nat>)
      requires next == j + 1
      requires phys.Valid() && Owned(st, free, phys.managed) && HasTable(st, s, i) && j < |Table(st, s, i)| && e == Table(st, s, i)[j]
      requires PagesOf(st, s, i, |Table(st, s, i)|) !! got && now0 == got + PagesOf(st, s, i, j)
      requires phys.Free() == free + now0 && phys.totalFree == total + |now0|
      modifies phys, phys.bitmap.data
      ensures phys.Valid() && now == got + PagesOf(st, s, i, next)
      ensures phys.Free() == free + now && phys.totalFree == total + |now|
    {
      PageStep(st, free, phys.managed, s, i, j, got);
      now := FreeEntry(e, now0, free, total);
    }

    /** The inner loop of `delete_address_space`: the pages that the entries of a table own are given back, each once. */
    method FreePages(s: int, i: nat, ghost got: set<nat>, ghost free: set<nat>, ghost total: int) returns (ghost now: set<nat>)
      requires phys.Valid() && Owned(St(), free, phys.managed) && HasTable(St(), s, i)
      requires phys.Free() == free + got && phys.totalFree == total + |got|
      requires PagesOf(St(), s, i, |Table(St(), s, i)|) !! got
      modifies phys, phys.bitmap.data
      ensures phys.Valid() && now == old(got + PagesOf(St(), s, i, |Table(St(), s, i)|))
      ensures phys.Free() == free + now && phys.totalFree == total + |now|
    {
      ghost var st := St();
      var table := tables[dirs[s][i].frame];
      assert table == Table(st, s, i) && PagesOf(st, s, i, 0) == {};
      var j := 0;
      now := got;
      while j < |table|
        invariant 0 <= j <= |table| && phys.Valid() && now == got + PagesOf(st, s, i, j)
        invariant phys.Free() == free + now && phys.totalFree == total + |now|
      {
        var next := j + 1;
        now := FreeNext(st, s, i, j, next, table[j], got, now, free, total);
        j := next;
      }
      assert j == |table|;
    }

    /** The body of the outer loop: the pages of one directory entry are given back. */
    method FreeTable(s: int, i: nat, ghost got: set<nat>, ghost free: set<nat>, ghost total: int) returns (ghost now: set<nat>)
      requires phys.Valid() && Owned(St(), free, phys.managed) && s in dirs && FIRST_USER <= i < |dirs[s]|
      requires got == PagesUpTo(St(), s, i) && phys.Free() == free + got && phys.totalFree == total + |got|
      modifies phys, phys.bitmap.data
      ensures phys.Valid() && now == PagesUpTo(St(), s, i + 1)
      ensures phys.Free() == free + now && phys.totalFree == total + |now|
    {
      ghost var st := St();
      assert EntryOk(st, s, i);
      now := got;
      if dirs[s][i].present {
        NextTablePages(st, free, phys.managed, s, i);
        now := FreePages(s, i, got, free, total);
        GiveBack(dirs[s][i].frame, now, free, total);
        now := now + {dirs[s][i].frame};
      } else {
        assert TablePages(st, s, i) == {};
      }
    }

    /** The outer loop of `delete_address_space`: all user entries of the directory. */
    method FreeTables(s: int)
      requires Valid() && s in dirs
      modifies phys, phys.bitmap.data
      ensures phys.Valid() && phys.Free() == old(phys.Free()) + PagesOfSpace(St(), s)
      ensures phys.totalFree == old(phys.totalFree) + |PagesOfSpace(St(), s)|
    {
      ghost var st, free, total := St(), phys.Free(), phys.totalFree;
      assert DirSize(st, s);
      var i := FIRST_USER;
      KernelOwnsNothing(st, s, i);
      ghost var got: set<nat> := {};
      while i < |dirs[s]|
        invariant FIRST_USER <= i <= |dirs[s]| && phys.Valid() && got == PagesUpTo(st, s, i)
        invariant phys.Free() == free + got && phys.totalFree == total + |got|
      {
        got := FreeTable(s, i, got, free, total);
        i := i + 1;
      }
      assert got == PagesOfSpace(st, s);
    }

    static lemma {:induction false} KernelOwnsNothing(st: Spaces, s: int, n: nat)
      requires n <= FIRST_USER
      ensures PagesUpTo(st, s, n) == {}
    {
      if n > 0 { KernelOwnsNothing(st, s, n - 1); }
    }

    /**
      `delete_address_space`: exactly the pages that the space owns are given
      back, each once, and every other space keeps its own. The method switches
      to the space and back to the one before; when that is the same one, as it
      is when a process exits, the current space does not exist afterwards.
     */
    method DeleteSpace(s: int)
      requires Valid() && s in dirs
      modifies this`dirs, this`tables, this`current, phys, phys.bitmap.data
      ensures Sound() && dirs.Keys == old(dirs.Keys) - {s} && current == old(current)
      ensures Valid() <==> s != old(current)
      ensures phys.Free() == old(phys.Free()) + PagesOfSpace(old(St()), s)
      ensures phys.totalFree == old(phys.totalFree) + |PagesOfSpace(old(St()), s)|
      ensures forall r :: FrameOf(St(), r) == if SpaceOf(r) == s then None else FrameOf(old(St()), r)
    {
      ghost var st, free := St(), phys.Free();
      var before := current;
      current := s;
      FreeTables(s);
      current := before;
      SpaceTheorems.WithoutSpace(st, free, phys.managed, s);
      Forget(s);
    }

    /** The space and its tables are no more. */
    method Forget(s: int)
      requires s in dirs
      modifies this`dirs, this`tables
      ensures St() == SpaceTheorems.Without(old(St()), s)
    {
      tables := map f | f in tables && !SpaceTheorems.IsTableOf(St(), s, f) :: tables[f];
      dirs := dirs - {s};
    }

    /** The pages of a range, of which none is mapped yet, are mapped in the current space. */
    method MapSegment(seg: Segment, content: seq<Entry>)
      requires Valid() && |content| == ENTRIES && Clear(content) && UserSegment(seg) && Unmapped(St(), current, seg)
      modifies this`dirs, this`tables, phys, phys.bitmap.data
      ensures Valid() && Keeps(old(St()), old(phys.Free()), St(), phys.Free(), current)
      ensures forall p: nat :: Mapped(St(), current, p) ==> Mapped(old(St()), current, p) || Within(seg, p)
    {
      var err := Map(seg.page, seg.phy, seg.count, seg.phy != 0, WRITABLE + USER + (if seg.phy != 0 then BORROWED else 0), content);
    }

    /** The segments of a program are mapped one after the other, as process/elf.cc does it. */
    method MapSegments(segs: seq<Segment>, content: seq<Entry>)
      requires Valid() && |content| == ENTRIES && Clear(content) && Program(segs)
      requires forall p: nat :: !Mapped(St(), current, p)
      modifies this`dirs, this`tables, phys, phys.bitmap.data
      ensures Valid() && Keeps(old(St()), old(phys.Free()), St(), phys.Free(), current)
    {
      ghost var st, free := St(), phys.Free();
      var i := 0;
      while i < |segs|
        invariant 0 <= i <= |segs| && Valid() && Keeps(st, free, St(), phys.Free(), current)
        invariant forall k :: i <= k < |segs| ==> Unmapped(St(), current, segs[k])
      {
        ghost var t, left := St(), phys.Free();
        MapSegment(segs[i], content);
        SpaceTheorems.KeepsTwice(st, free, t, left, St(), phys.Free(), current);
        forall k | i + 1 <= k < |segs| ensures Unmapped(St(), current, segs[k]) {
          assert Unmapped(t, current, segs[k]) && Apart(segs[i], segs[k]);
        }
        i := i + 1;
      }
    }

    /** A program uses the current space. */
    method Use(segs: seq<Segment>, part: Segment, content: seq<Entry>)
      requires Valid() && |content| == ENTRIES && Clear(content) && Program(segs) && UserSegment(part)
      requires forall p: nat :: !Mapped(St(), current, p)
      modifies this`dirs, this`tables, phys, phys.bitmap.data
      ensures Valid() && Keeps(old(St()), old(phys.Free()), St(), phys.Free(), current)
    {
      MapSegments(segs, content);
      ghost var t, left := St(), phys.Free();
      Unmap(part.page, part.count);
      SpaceTheorems.KeepsTwice(old(St()), old(phys.Free()), t, left, St(), phys.Free(), current);
    }

    /**
      The life of an address space: it is made, any segments are mapped in it
      and any part of it is unmapped while it is the current one, and it is
      deleted, either after it has been left, as when loading a program fails,
      or as the current one, when its process exits. Whatever memory there was,
      and whether or not it ran out on the way, exactly the pages are free
      afterwards that were free before, and all other spaces own what they
      owned. After an exit the current space does not exist.
     */
    method Lifetime(s: int, segs: seq<Segment>, part: Segment, content: seq<Entry>, exits: bool)
      requires Valid() && s !in dirs && |content| == ENTRIES && Clear(content) && Program(segs) && UserSegment(part)
      modifies this`dirs, this`tables, this`current, phys, phys.bitmap.data
      ensures Sound() && (Valid() <==> !exits)
      ensures dirs.Keys == old(dirs.Keys) && current == if exits then s else old(current)
      ensures phys.Free() == old(phys.Free())
      ensures forall r :: FrameOf(St(), r) == FrameOf(old(St()), r)
    {
      ghost var before, free := St(), phys.Free();
      MakeSpace(s);
      ghost var st := St();
      Visit(s, segs, part, content, exits);
      DeleteUsed(s, st, free);
      assert dirs.Keys == before.dirs.Keys;
    }

    /** A program runs in a space, which is left again unless the program exits there. */
    method Visit(s: int, segs: seq<Segment>, part: Segment, content: seq<Entry>, exits: bool)
      requires Valid() && s in dirs && |content| == ENTRIES && Clear(content) && Program(segs) && UserSegment(part)
      requires forall p: nat :: !Mapped(St(), s, p)
      modifies this`dirs, this`tables, this`current, phys, phys.bitmap.data
      ensures Valid() && current == (if exits then s else old(current))
      ensures Keeps(old(St()), old(phys.Free()), St(), phys.Free(), s)
    {
      var home := current;
      Switch(s);
      Use(segs, part, content);
      if !exits { Switch(home); }
    }

    /** A process that exits in its own space: its pages are free again, and the current space is gone. */
    method ExitLeavesNoSpace(s: int, segs: seq<Segment>, part: Segment, content: seq<Entry>)
      requires Valid() && s !in dirs && |content| == ENTRIES && Clear(content) && Program(segs) && UserSegment(part)
      modifies this`dirs, this`tables, this`current, phys, phys.bitmap.data
      ensures !Valid() && current !in dirs && phys.Free() == old(phys.Free())
    {
      Lifetime(s, segs, part, content, true);
    }

    /** A space that owned nothing at first is deleted again. */
    method DeleteUsed(s: int, ghost st: Spaces, ghost free: set<nat>)
      requires Valid() && s in dirs && Owned(st, free, phys.managed)
      requires Keeps(st, free, St(), phys.Free(), s) && forall r :: SpaceOf(r) == s ==> FrameOf(st, r) == None
      modifies this`dirs, this`tables, this`current, phys, phys.bitmap.data
      ensures Sound() && dirs.Keys == old(dirs.Keys) - {s} && current == old(current) && (Valid() <==> s != current)
      ensures phys.Free() == free && forall r :: FrameOf(St(), r) == FrameOf(st, r)
    {
      GivesAllBack(st, free, St(), phys.Free(), phys.managed, s);
      DeleteSpace(s);
    }
  }
}
