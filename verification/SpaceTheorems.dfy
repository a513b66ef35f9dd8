/** Page ownership is kept by mapping, unmapping and deleting. */
module SpaceTheorems {
  import opened Lists
  import opened SpaceSpec

  /** Table i of a space, if it has been made. */
  lemma TableFacts(st: Spaces, free: set<nat>, pages: set<nat>, s: int, i: nat)
    requires Owned(st, free, pages) && HasTable(st, s, i)
    ensures |Table(st, s, i)| == ENTRIES && st.dirs[s][i].frame in pages && st.dirs[s][i].frame !in free
    ensures forall t, k: nat :: HasTable(st, t, k) && st.dirs[t][k].frame == st.dirs[s][i].frame ==> t == s && k == i
  {
    assert InUse(st, free, pages, TableRef(s, i)) && TableSize(st, st.dirs[s][i].frame);
    forall t, k: nat | HasTable(st, t, k) && st.dirs[t][k].frame == st.dirs[s][i].frame ensures t == s && k == i {
      assert Exclusive(st, TableRef(t, k), TableRef(s, i));
    }
  }

  /** What each entry owns after a table has been made. */
  lemma WithTableFrames(st: Spaces, s: int, i: nat, f: nat, flags: int, content: seq<Entry>, r: Ref)
    requires WellFormed(st) && s in st.dirs && FIRST_USER <= i < |st.dirs[s]| && !st.dirs[s][i].present
    requires Nobodys(st, f)
    ensures FrameOf(WithTable(st, s, i, f, flags, content), r)
         == if r == TableRef(s, i) then Some(f)
            else if r.PageRef? && r.s == s && r.i == i then PageOf(content, r.j)
            else FrameOf(st, r)
    ensures r == TableRef(s, i) || (r.PageRef? && r.s == s && r.i == i) ==> FrameOf(st, r) == None
  {
    var t := WithTable(st, s, i, f, flags, content);
    var (q, k) := match r case TableRef(q, k) => (q, k) case PageRef(q, k, j) => (q, k);
    assert FrameOf(st, TableRef(q, k)) != Some(f);
    if q == s && k == i {
      assert !HasTable(st, s, i) && Table(t, s, i) == content;
    } else {
      assert EntryOk(st, q, k);
      assert HasTable(t, q, k) <==> HasTable(st, q, k);
      assert HasTable(t, q, k) ==> Table(t, q, k) == Table(st, q, k);
    }
  }

  lemma FreeIsNobodys(st: Spaces, free: set<nat>, pages: set<nat>, f: nat)
    requires Owned(st, free, pages) && f in free
    ensures Nobodys(st, f)
  {
    forall r ensures FrameOf(st, r) != Some(f) { assert InUse(st, free, pages, r); }
  }

  /** A page with harmless contents can become a table. */
  lemma WithTableOwned(st: Spaces, free: set<nat>, pages: set<nat>, s: int, i: nat, f: nat, flags: int, content: seq<Entry>)
    requires Owned(st, free, pages) && s in st.dirs && FIRST_USER <= i < |st.dirs[s]| && !st.dirs[s][i].present
    requires f in free && f in pages && Harmless(st, free, pages, content) && |content| == ENTRIES
    ensures Owned(WithTable(st, s, i, f, flags, content), free - {f}, pages)
  {
    var t := WithTable(st, s, i, f, flags, content);
    FreeIsNobodys(st, free, pages, f);
    forall a, b ensures Exclusive(t, a, b) {
      WithTableFrames(st, s, i, f, flags, content, a);
      WithTableFrames(st, s, i, f, flags, content, b);
      assert Exclusive(st, a, b);
      assert a.PageRef? ==> LeftoverOk(st, free, pages, content, a.j);
      assert b.PageRef? ==> LeftoverOk(st, free, pages, content, b.j);
      assert a.PageRef? && b.PageRef? ==> LeftoversDiffer(content, a.j, b.j);
    }
    forall r ensures InUse(t, free - {f}, pages, r) {
      WithTableFrames(st, s, i, f, flags, content, r);
      assert InUse(st, free, pages, r);
      assert r.PageRef? ==> LeftoverOk(st, free, pages, content, r.j);
    }
    forall q ensures DirSize(t, q) { assert DirSize(st, q); }
    forall g ensures TableSize(t, g) { assert TableSize(st, g); }
    forall q, k: nat ensures EntryOk(t, q, k) { assert EntryOk(st, q, k); }
  }

  lemma ClearIsHarmless(st: Spaces, free: set<nat>, pages: set<nat>, content: seq<Entry>)
    requires Clear(content)
    ensures Harmless(st, free, pages, content)
  {}

  /**
    A page becomes a table, with whatever it holds: single ownership is kept
    exactly when every old entry in it is absent, borrowed, or owns a page that
    has been handed out and is nobody's, each such page once.
   */
  lemma DirtyTable(st: Spaces, free: set<nat>, pages: set<nat>, s: int, i: nat, f: nat, flags: int, content: seq<Entry>)
    requires Owned(st, free, pages) && s in st.dirs && FIRST_USER <= i < |st.dirs[s]| && !st.dirs[s][i].present
    requires f in free && f in pages && |content| == ENTRIES
    ensures Owned(WithTable(st, s, i, f, flags, content), free - {f}, pages) <==> Harmless(st, free, pages, content)
  {
    if Harmless(st, free, pages, content) {
      WithTableOwned(st, free, pages, s, i, f, flags, content);
    }
    if Owned(WithTable(st, s, i, f, flags, content), free - {f}, pages) {
      forall j: nat ensures LeftoverOk(st, free, pages, content, j) {
        OwnedLeftover(st, free, pages, s, i, f, flags, content, j);
      }
      forall j: nat, k: nat ensures LeftoversDiffer(content, j, k) {
        OwnedLeftovers(st, free, pages, s, i, f, flags, content, j, k);
      }
    }
  }

  lemma OwnedLeftover(st: Spaces, free: set<nat>, pages: set<nat>, s: int, i: nat, f: nat, flags: int, content: seq<Entry>, j: nat)
    requires Owned(st, free, pages) && s in st.dirs && FIRST_USER <= i < |st.dirs[s]| && !st.dirs[s][i].present
    requires f in free && Owned(WithTable(st, s, i, f, flags, content), free - {f}, pages)
    ensures LeftoverOk(st, free, pages, content, j)
  {
    var t, e := WithTable(st, s, i, f, flags, content), PageRef(s, i, j);
    FreeIsNobodys(st, free, pages, f);
    WithTableFrames(st, s, i, f, flags, content, e);
    WithTableFrames(st, s, i, f, flags, content, TableRef(s, i));
    assert InUse(t, free - {f}, pages, e) && Exclusive(t, e, TableRef(s, i));
    forall r ensures FrameOf(st, r) == None || FrameOf(st, r) != PageOf(content, j) {
      WithTableFrames(st, s, i, f, flags, content, r);
      assert Exclusive(t, r, e);
    }
  }

  lemma OwnedLeftovers(st: Spaces, free: set<nat>, pages: set<nat>, s: int, i: nat, f: nat, flags: int, content: seq<Entry>,
                       j: nat, k: nat)
    requires Owned(st, free, pages) && s in st.dirs && FIRST_USER <= i < |st.dirs[s]| && !st.dirs[s][i].present
    requires f in free && Owned(WithTable(st, s, i, f, flags, content), free - {f}, pages)
    ensures LeftoversDiffer(content, j, k)
  {
    var t := WithTable(st, s, i, f, flags, content);
    FreeIsNobodys(st, free, pages, f);
    WithTableFrames(st, s, i, f, flags, content, PageRef(s, i, j));
    WithTableFrames(st, s, i, f, flags, content, PageRef(s, i, k));
    assert Exclusive(t, PageRef(s, i, j), PageRef(s, i, k));
  }

  /** What each entry owns after an entry has been written. */
  lemma WithEntryFrames(st: Spaces, free: set<nat>, pages: set<nat>, s: int, i: nat, j: nat, e: Entry, r: Ref)
    requires Owned(st, free, pages) && HasTable(st, s, i) && j < |Table(st, s, i)|
    ensures FrameOf(WithEntry(st, s, i, j, e), r)
         == if r == PageRef(s, i, j) then (if e.present && !e.borrowed then Some(e.frame) else None) else FrameOf(st, r)
  {
    TableFacts(st, free, pages, s, i);
    var t := WithEntry(st, s, i, j, e);
    var (q, k) := match r case TableRef(q, k) => (q, k) case PageRef(q, k, n) => (q, k);
    assert HasTable(t, q, k) <==> HasTable(st, q, k);
  }

  lemma WithEntryOwned(st: Spaces, free: set<nat>, pages: set<nat>, s: int, i: nat, j: nat, e: Entry, free': set<nat>)
    requires Owned(st, free, pages) && HasTable(st, s, i) && j < |Table(st, s, i)|
    requires e.present && !e.borrowed ==> e.frame in pages && e.frame !in free' && Nobodys(st, e.frame)
    requires forall f :: f in free' && f !in free ==> FrameOf(st, PageRef(s, i, j)) == Some(f) && !e.present
    ensures Owned(WithEntry(st, s, i, j, e), free', pages)
  {
    var t := WithEntry(st, s, i, j, e);
    TableFacts(st, free, pages, s, i);
    forall a, b ensures Exclusive(t, a, b) {
      WithEntryFrames(st, free, pages, s, i, j, e, a);
      WithEntryFrames(st, free, pages, s, i, j, e, b);
      assert Exclusive(st, a, b);
    }
    forall r ensures InUse(t, free', pages, r) {
      WithEntryFrames(st, free, pages, s, i, j, e, r);
      assert InUse(st, free, pages, r) && Exclusive(st, r, PageRef(s, i, j));
    }
    forall q ensures DirSize(t, q) { assert DirSize(st, q); }
    forall g ensures TableSize(t, g) { assert TableSize(st, g); }
    forall q, k: nat ensures EntryOk(t, q, k) { assert EntryOk(st, q, k); }
  }

  // ---------------------------------------------------------------------
  // Deleting a space
  // ---------------------------------------------------------------------

  ghost predicate Owns(st: Spaces, s: int, f: nat) { exists r :: SpaceOf(r) == s && FrameOf(st, r) == Some(f) }

  lemma {:induction false} PagesOfOwn(st: Spaces, s: int, i: nat, m: nat, f: nat)
    ensures f in PagesOf(st, s, i, m) <==> exists j: nat :: j < m && FrameOf(st, PageRef(s, i, j)) == Some(f)
    decreases m
  {
    if m > 0 {
      PagesOfOwn(st, s, i, m - 1, f);
      assert f in OneOf(FrameOf(st, PageRef(s, i, m - 1))) <==> FrameOf(st, PageRef(s, i, m - 1)) == Some(f);
    }
  }

  lemma TablePagesOwn(st: Spaces, s: int, i: nat, f: nat)
    ensures f in TablePages(st, s, i)
      <==> FrameOf(st, TableRef(s, i)) == Some(f) || exists j: nat :: FrameOf(st, PageRef(s, i, j)) == Some(f)
  {
    if HasTable(st, s, i) {
      var t := Table(st, s, i);
      PagesOfOwn(st, s, i, |t|, f);
      forall j: nat | FrameOf(st, PageRef(s, i, j)) == Some(f) ensures j < |t| {}
    }
  }

  lemma {:induction false} PagesUpToHas(st: Spaces, s: int, n: nat, i: nat, f: nat)
    requires i < n && f in TablePages(st, s, i)
    ensures f in PagesUpTo(st, s, n)
    decreases n
  {
    if i < n - 1 { PagesUpToHas(st, s, n - 1, i, f); }
  }

  lemma {:induction false} PagesUpToFrom(st: Spaces, s: int, n: nat, f: nat) returns (i: nat)
    requires f in PagesUpTo(st, s, n)
    ensures i < n && f in TablePages(st, s, i)
    decreases n
  {
    if f in TablePages(st, s, n - 1) { i := n - 1; } else { i := PagesUpToFrom(st, s, n - 1, f); }
  }

  /** The pages of a space are exactly the pages that it owns. */
  lemma PagesOfSpaceOwn(st: Spaces, s: int, f: nat)
    requires s in st.dirs
    ensures f in PagesOfSpace(st, s) <==> Owns(st, s, f)
  {
    var n := |st.dirs[s]|;
    if f in PagesOfSpace(st, s) {
      var i := PagesUpToFrom(st, s, n, f);
      TablePagesOwn(st, s, i, f);
      if FrameOf(st, TableRef(s, i)) == Some(f) {
        assert SpaceOf(TableRef(s, i)) == s;
      } else {
        var j: nat :| FrameOf(st, PageRef(s, i, j)) == Some(f);
        assert SpaceOf(PageRef(s, i, j)) == s;
      }
    }
    if Owns(st, s, f) {
      var r :| SpaceOf(r) == s && FrameOf(st, r) == Some(f);
      var i := match r case TableRef(_, i) => i case PageRef(_, i, _) => i;
      TablePagesOwn(st, s, i, f);
      PagesUpToHas(st, s, n, i, f);
    }
  }

  /** The entry that owns a page of table i. */
  lemma OwnerIn(st: Spaces, s: int, i: nat, f: nat) returns (r: Ref)
    requires f in TablePages(st, s, i)
    ensures FrameOf(st, r) == Some(f) && (r == TableRef(s, i) || (r.PageRef? && r.s == s && r.i == i))
  {
    TablePagesOwn(st, s, i, f);
    if FrameOf(st, TableRef(s, i)) == Some(f) {
      r := TableRef(s, i);
    } else {
      var j: nat :| FrameOf(st, PageRef(s, i, j)) == Some(f);
      r := PageRef(s, i, j);
    }
  }

  lemma TablesApart(st: Spaces, free: set<nat>, pages: set<nat>, s: int, i: nat, k: nat, f: nat)
    requires Owned(st, free, pages) && i != k && f in TablePages(st, s, i)
    ensures f !in TablePages(st, s, k)
  {
    var a := OwnerIn(st, s, i, f);
    assert Exclusive(st, TableRef(s, k), a);
    forall j: nat ensures FrameOf(st, PageRef(s, k, j)) != Some(f) { assert Exclusive(st, PageRef(s, k, j), a); }
    TablePagesOwn(st, s, k, f);
  }

  /** The next table owns pages that no earlier one does, and its own page is not among those of its entries. */
  lemma NextTable(st: Spaces, free: set<nat>, pages: set<nat>, s: int, i: nat)
    requires Owned(st, free, pages) && HasTable(st, s, i)
    ensures TablePages(st, s, i) !! PagesUpTo(st, s, i)
    ensures st.dirs[s][i].frame !in PagesOf(st, s, i, |Table(st, s, i)|)
  {
    forall f | f in TablePages(st, s, i) ensures f !in PagesUpTo(st, s, i) {
      if f in PagesUpTo(st, s, i) {
        var k := PagesUpToFrom(st, s, i, f);
        TablesApart(st, free, pages, s, i, k, f);
      }
    }
    var f := st.dirs[s][i].frame;
    forall j: nat ensures FrameOf(st, PageRef(s, i, j)) != Some(f) {
      assert Exclusive(st, PageRef(s, i, j), TableRef(s, i));
    }
    PagesOfOwn(st, s, i, |Table(st, s, i)|, f);
  }

  /** The next entry of a table owns a page that no earlier one does. */
  lemma NextPage(st: Spaces, free: set<nat>, pages: set<nat>, s: int, i: nat, j: nat)
    requires Owned(st, free, pages) && FrameOf(st, PageRef(s, i, j)).Some?
    ensures FrameOf(st, PageRef(s, i, j)).value !in PagesOf(st, s, i, j)
  {
    var f := FrameOf(st, PageRef(s, i, j)).value;
    forall k: nat | k < j ensures FrameOf(st, PageRef(s, i, k)) != Some(f) {
      assert Exclusive(st, PageRef(s, i, k), PageRef(s, i, j));
    }
    PagesOfOwn(st, s, i, j, f);
  }

  /** The spaces without space s and its tables. */
  function Without(st: Spaces, s: int): Spaces
    requires s in st.dirs
  {
    Spaces(st.dirs - {s}, map f | f in st.tables && !IsTableOf(st, s, f) :: st.tables[f])
  }

  predicate IsTableOf(st: Spaces, s: int, f: nat)
    requires s in st.dirs
  {
    exists i :: FIRST_USER <= i < |st.dirs[s]| && HasTable(st, s, i) && st.dirs[s][i].frame == f
  }

  lemma WithoutFrames(st: Spaces, free: set<nat>, pages: set<nat>, s: int, r: Ref)
    requires Owned(st, free, pages) && s in st.dirs
    ensures FrameOf(Without(st, s), r) == if SpaceOf(r) == s then None else FrameOf(st, r)
  {
    var t := Without(st, s);
    var (q, k) := match r case TableRef(q, k) => (q, k) case PageRef(q, k, j) => (q, k);
    if q != s && HasTable(st, q, k) {
      TableFacts(st, free, pages, q, k);
      assert !IsTableOf(st, s, st.dirs[q][k].frame);
      assert Table(t, q, k) == Table(st, q, k);
    }
  }

  /** A deleted space gives back exactly its own pages; every other space keeps its pages. */
  lemma WithoutOwned(st: Spaces, free: set<nat>, pages: set<nat>, s: int)
    requires Owned(st, free, pages) && s in st.dirs
    ensures Owned(Without(st, s), free + PagesOfSpace(st, s), pages)
    ensures forall q, f :: q != s ==> (Owns(Without(st, s), q, f) <==> Owns(st, q, f))
  {
    var t := Without(st, s);
    forall a, b ensures Exclusive(t, a, b) {
      WithoutFrames(st, free, pages, s, a);
      WithoutFrames(st, free, pages, s, b);
      assert Exclusive(st, a, b);
    }
    forall r ensures InUse(t, free + PagesOfSpace(st, s), pages, r) {
      WithoutFrames(st, free, pages, s, r);
      assert InUse(st, free, pages, r);
      if SpaceOf(r) != s && FrameOf(st, r).Some? {
        PagesOfSpaceOwn(st, s, FrameOf(st, r).value);
        forall x | SpaceOf(x) == s ensures FrameOf(st, x) != FrameOf(st, r) { assert Exclusive(st, r, x); }
      }
    }
    forall q ensures DirSize(t, q) { assert DirSize(st, q); }
    forall g ensures TableSize(t, g) { assert TableSize(st, g); }
    forall q, k: nat ensures EntryOk(t, q, k) {
      assert EntryOk(st, q, k);
      WithoutFrames(st, free, pages, s, TableRef(q, k));
    }
    forall q, f | q != s ensures Owns(t, q, f) <==> Owns(st, q, f) {
      forall r ensures FrameOf(t, r) == if SpaceOf(r) == s then None else FrameOf(st, r) {
        WithoutFrames(st, free, pages, s, r);
      }
    }
  }

  lemma WithoutSpace(st: Spaces, free: set<nat>, pages: set<nat>, s: int)
    requires Owned(st, free, pages) && s in st.dirs
    ensures Owned(Without(st, s), free + PagesOfSpace(st, s), pages)
    ensures forall r :: FrameOf(Without(st, s), r) == if SpaceOf(r) == s then None else FrameOf(st, r)
  {
    WithoutOwned(st, free, pages, s);
    forall r ensures FrameOf(Without(st, s), r) == if SpaceOf(r) == s then None else FrameOf(st, r) {
      WithoutFrames(st, free, pages, s, r);
    }
  }

  // ---------------------------------------------------------------------
  // No page is lost
  // ---------------------------------------------------------------------

  /** A page that becomes a table, and holds no pages, goes from the free ones to the space. */
  lemma WithTableGrows(st: Spaces, free: set<nat>, pages: set<nat>, s: int, i: nat, f: nat, flags: int, content: seq<Entry>)
    requires Owned(st, free, pages) && s in st.dirs && FIRST_USER <= i < |st.dirs[s]| && !st.dirs[s][i].present
    requires f in free && Clear(content)
    ensures Grows(st, free, WithTable(st, s, i, f, flags, content), free - {f}, s)
  {
    var t := WithTable(st, s, i, f, flags, content);
    FreeIsNobodys(st, free, pages, f);
    forall r
      ensures FrameOf(t, r) == if r == TableRef(s, i) then Some(f) else FrameOf(st, r)
      ensures FrameOf(st, TableRef(s, i)) == None
    {
      WithTableFrames(st, s, i, f, flags, content, r);
    }
    forall g ensures Held(t, free - {f}, g) <==> Held(st, free, g) {
      if g == f { assert FrameOf(t, TableRef(s, i)) == Some(f); }
      if !Nobodys(st, g) { var r :| FrameOf(st, r) == Some(g); assert FrameOf(t, r) == Some(g); }
      if !Nobodys(t, g) { var r :| FrameOf(t, r) == Some(g); assert r != TableRef(s, i) ==> FrameOf(st, r) == Some(g); }
    }
  }

  /**
    An entry that is written takes a free page when it is to own one, and gives
    back the page that it owned.
   */
  lemma WithEntryKeeps(st: Spaces, free: set<nat>, pages: set<nat>, s: int, i: nat, j: nat, e: Entry, free': set<nat>)
    requires Owned(st, free, pages) && HasTable(st, s, i) && j < |Table(st, s, i)|
    requires var o := FrameOf(st, PageRef(s, i, j));
      if e.present && !e.borrowed then o == None && e.frame in free && free' == free - {e.frame} else free' == free + OneOf(o)
    ensures Keeps(st, free, WithEntry(st, s, i, j, e), free', s)
    ensures FrameOf(st, PageRef(s, i, j)) == None ==> Grows(st, free, WithEntry(st, s, i, j, e), free', s)
  {
    var t, a := WithEntry(st, s, i, j, e), PageRef(s, i, j);
    var o := if e.present && !e.borrowed then Some(e.frame) else None;
    forall r ensures FrameOf(t, r) == if r == a then o else FrameOf(st, r) {
      WithEntryFrames(st, free, pages, s, i, j, e, r);
    }
    forall g: nat ensures Held(t, free', g) <==> Held(st, free, g) {
      if o == Some(g) { assert FrameOf(t, a) == Some(g); }
      if !Nobodys(st, g) { var r :| FrameOf(st, r) == Some(g); assert r != a ==> FrameOf(t, r) == Some(g); }
      if !Nobodys(t, g) { var r :| FrameOf(t, r) == Some(g); assert r != a ==> FrameOf(st, r) == Some(g); }
    }
  }

  /**
    Mapping over an entry, as two overlapping segments of a program do: no page
    is lost if and only if the entry owned none. Otherwise the page that it
    owned is neither free nor anybody's, for ever.
   */
  lemma RemapLosesPage(st: Spaces, free: set<nat>, pages: set<nat>, s: int, i: nat, j: nat, e: Entry, free': set<nat>)
    requires Owned(st, free, pages) && HasTable(st, s, i) && j < |Table(st, s, i)| && e.present
    requires if e.borrowed then free' == free else e.frame in free && free' == free - {e.frame}
    ensures var t, o := WithEntry(st, s, i, j, e), FrameOf(st, PageRef(s, i, j));
      && (Keeps(st, free, t, free', s) <==> o == None)
      && (o.Some? ==> o.value !in free' && Nobodys(t, o.value))
  {
    var t, a := WithEntry(st, s, i, j, e), PageRef(s, i, j);
    var o := FrameOf(st, a);
    if o == None {
      WithEntryKeeps(st, free, pages, s, i, j, e, free');
    } else {
      assert InUse(st, free, pages, a);
      forall r ensures FrameOf(t, r) != o {
        WithEntryFrames(st, free, pages, s, i, j, e, r);
        assert Exclusive(st, r, a);
      }
      assert !Held(t, free', o.value) && Held(st, free, o.value);
    }
  }

  lemma KeepsTwice(st: Spaces, free: set<nat>, t: Spaces, free': set<nat>, u: Spaces, free'': set<nat>, s: int)
    requires Keeps(st, free, t, free', s) && Keeps(t, free', u, free'', s)
    ensures Keeps(st, free, u, free'', s)
    ensures Grows(st, free, t, free', s) && Grows(t, free', u, free'', s) ==> Grows(st, free, u, free'', s)
  {}

  /**
    A space that owned nothing, and was changed without losing pages or taking
    any from elsewhere: what it owns is exactly what was free before and is not now.
   */
  lemma OwnsWhatWasTaken(st: Spaces, free: set<nat>, t: Spaces, free': set<nat>, pages: set<nat>, s: int)
    requires Owned(st, free, pages) && Owned(t, free', pages) && Keeps(st, free, t, free', s) && s in t.dirs
    requires forall r :: SpaceOf(r) == s ==> FrameOf(st, r) == None
    ensures free' + PagesOfSpace(t, s) == free && free' !! PagesOfSpace(t, s)
  {
    forall f ensures f in free <==> f in free' || f in PagesOfSpace(t, s) {
      PagesOfSpaceOwn(t, s, f);
      assert Held(t, free', f) <==> Held(st, free, f);
      if f in free {
        FreeIsNobodys(st, free, pages, f);
        if f !in free' { var r :| FrameOf(t, r) == Some(f); assert SpaceOf(r) == s; }
      } else if !Nobodys(st, f) {
        var r :| FrameOf(st, r) == Some(f);
        assert FrameOf(t, r) == Some(f) && InUse(t, free', pages, r);
        forall x | SpaceOf(x) == s ensures FrameOf(t, x) != Some(f) { assert Exclusive(t, x, r); }
      } else {
        assert !Held(t, free', f);
      }
    }
    forall f | f in free' ensures f !in PagesOfSpace(t, s) {
      PagesOfSpaceOwn(t, s, f);
      FreeIsNobodys(t, free', pages, f);
    }
  }

  /**
    Why tables would have to be cleared: a table of a deleted space whose page
    becomes a table again, with its old entries, breaks single ownership
    whenever one of these owned a page.
   */
  lemma RecycledTable(st: Spaces, free: set<nat>, pages: set<nat>, s: int, i: nat, j: nat, q: int, k: nat, flags: int)
    requires Owned(st, free, pages) && s in st.dirs && HasTable(st, s, i) && FrameOf(st, PageRef(s, i, j)).Some?
    requires q in st.dirs && q != s && FIRST_USER <= k < |st.dirs[q]| && !st.dirs[q][k].present
    ensures var f, free' := st.dirs[s][i].frame, free + PagesOfSpace(st, s);
      !Owned(WithTable(Without(st, s), q, k, f, flags, Table(st, s, i)), free' - {f}, pages)
  {
    var f, free' := st.dirs[s][i].frame, free + PagesOfSpace(st, s);
    var content, g := Table(st, s, i), FrameOf(st, PageRef(s, i, j)).value;
    WithoutOwned(st, free, pages, s);
    TableFacts(st, free, pages, s, i);
    assert FrameOf(st, TableRef(s, i)) == Some(f) && SpaceOf(TableRef(s, i)) == s && SpaceOf(PageRef(s, i, j)) == s;
    PagesOfSpaceOwn(st, s, f);
    PagesOfSpaceOwn(st, s, g);
    DirtyTable(Without(st, s), free', pages, q, k, f, flags, content);
    assert !LeftoverOk(Without(st, s), free', pages, content, j);
  }
}
