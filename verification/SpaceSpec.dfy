/**
  Address spaces of src/kernel/src/memory/manager-virtual.cc: a page directory
  with the tables that its entries refer to, and who owns which page of memory.
 */
module SpaceSpec {
  import opened Lists

  const ENTRIES := 1024
  /** Directory entries below this one are the kernel's, in every space. */
  const FIRST_USER := 256

  /** An entry of a page table or a page directory: the page it refers to, and its flags. */
  datatype Entry = Entry(frame: nat, present: bool, borrowed: bool, flags: int)

  const ABSENT := Entry(0, false, false, 0)

  /** The directories, by space, and the tables, by the page that holds them. */
  datatype Spaces = Spaces(dirs: map<int, seq<Entry>>, tables: map<nat, seq<Entry>>)

  /** The two ways to own a page: as the table of a directory entry, and as the page of a table entry. */
  datatype Ref = TableRef(s: int, i: nat) | PageRef(s: int, i: nat, j: nat)

  predicate HasTable(st: Spaces, s: int, i: nat) {
    && s in st.dirs && FIRST_USER <= i < |st.dirs[s]| && st.dirs[s][i].present && st.dirs[s][i].frame in st.tables
  }

  /** The table behind a directory entry. */
  function Table(st: Spaces, s: int, i: nat): seq<Entry>
    requires HasTable(st, s, i)
  {
    st.tables[st.dirs[s][i].frame]
  }

  /** The page that entry j of a table owns. */
  function PageOf(table: seq<Entry>, j: nat): Option<nat> {
    if j < |table| && table[j].present && !table[j].borrowed then Some(table[j].frame) else None
  }

  /** The page that an entry owns. A borrowed page is not owned. */
  function FrameOf(st: Spaces, r: Ref): Option<nat> {
    match r
    case TableRef(s, i) => if HasTable(st, s, i) then Some(st.dirs[s][i].frame) else None
    case PageRef(s, i, j) =>
      if HasTable(st, s, i) then PageOf(Table(st, s, i), j) else None
  }

  ghost predicate Exclusive(st: Spaces, a: Ref, b: Ref) { a == b || FrameOf(st, a) == None || FrameOf(st, a) != FrameOf(st, b) }

  /** The page is one of the allocator's, and has been handed out. */
  ghost predicate InUse(st: Spaces, free: set<nat>, pages: set<nat>, r: Ref) {
    match FrameOf(st, r) case Some(f) => f in pages && f !in free case None => true
  }

  predicate DirSize(st: Spaces, s: int) { s in st.dirs ==> |st.dirs[s]| == ENTRIES }

  predicate EntryOk(st: Spaces, s: int, i: nat) {
    s in st.dirs && FIRST_USER <= i < |st.dirs[s]| && st.dirs[s][i].present ==> HasTable(st, s, i)
  }

  predicate TableSize(st: Spaces, f: nat) { f in st.tables ==> |st.tables[f]| == ENTRIES }

  ghost predicate WellFormed(st: Spaces) {
    && (forall s :: DirSize(st, s)) && (forall s, i: nat :: EntryOk(st, s, i)) && (forall f :: TableSize(st, f))
  }

  /** Every owned page has exactly one owner, and is not free. */
  ghost predicate Owned(st: Spaces, free: set<nat>, pages: set<nat>) {
    && WellFormed(st)
    && (forall a, b :: Exclusive(st, a, b))
    && (forall r :: InUse(st, free, pages, r))
  }

  function SpaceOf(r: Ref): int { match r case TableRef(s, _) => s case PageRef(s, _, _) => s }

  /** The page is free, or somebody owns it. */
  ghost predicate Held(st: Spaces, free: set<nat>, f: nat) { f in free || !Nobodys(st, f) }

  /** A change of space s alone, in which no page is lost and none comes from elsewhere. */
  ghost predicate Keeps(st: Spaces, free: set<nat>, t: Spaces, free': set<nat>, s: int) {
    && t.dirs.Keys == st.dirs.Keys
    && (forall r :: SpaceOf(r) != s ==> FrameOf(t, r) == FrameOf(st, r))
    && (forall f :: Held(t, free', f) <==> Held(st, free, f))
  }

  /** Such a change in which space s only gains pages. */
  ghost predicate Grows(st: Spaces, free: set<nat>, t: Spaces, free': set<nat>, s: int) {
    && Keeps(st, free, t, free', s) && free' <= free
    && (forall r :: FrameOf(st, r).Some? ==> FrameOf(t, r) == FrameOf(st, r))
  }

  /** Nobody owns the page. */
  ghost predicate Nobodys(st: Spaces, f: nat) { forall r :: FrameOf(st, r) != Some(f) }

  // ---------------------------------------------------------------------
  // Updates
  // ---------------------------------------------------------------------

  /** `get_tab`, when it has to make a table: the page f, with what it happens to hold, becomes table i. */
  function WithTable(st: Spaces, s: int, i: nat, f: nat, flags: int, content: seq<Entry>): Spaces
    requires s in st.dirs && i < |st.dirs[s]|
  {
    Spaces(st.dirs[s := st.dirs[s][i := Entry(f, true, false, flags)]], st.tables[f := content])
  }

  /** An entry of a table is written. */
  function WithEntry(st: Spaces, s: int, i: nat, j: nat, e: Entry): Spaces
    requires HasTable(st, s, i) && j < |Table(st, s, i)|
  {
    st.(tables := st.tables[st.dirs[s][i].frame := Table(st, s, i)[j := e]])
  }

  /** Entry j of a page that becomes a table owns nothing, or a page that has been handed out and is nobody's. */
  ghost predicate LeftoverOk(st: Spaces, free: set<nat>, pages: set<nat>, content: seq<Entry>, j: nat) {
    match PageOf(content, j) case Some(g) => g in pages && g !in free && Nobodys(st, g) case None => true
  }

  ghost predicate LeftoversDiffer(content: seq<Entry>, j: nat, k: nat) {
    j == k || PageOf(content, j) == None || PageOf(content, j) != PageOf(content, k)
  }

  /** What a page may hold when it becomes a table. */
  ghost predicate Harmless(st: Spaces, free: set<nat>, pages: set<nat>, content: seq<Entry>) {
    && (forall j: nat :: LeftoverOk(st, free, pages, content, j))
    && (forall j: nat, k: nat :: LeftoversDiffer(content, j, k))
  }

  /** No entry of the table is present. */
  predicate Clear(content: seq<Entry>) { forall j :: 0 <= j < |content| ==> !content[j].present }

  // ---------------------------------------------------------------------
  // The pages of a space
  // ---------------------------------------------------------------------

  /** The pages owned by the first m entries of table i. */
  ghost function PagesOf(st: Spaces, s: int, i: nat, m: nat): set<nat> {
    if m == 0 then {}
    else PagesOf(st, s, i, m - 1) + OneOf(FrameOf(st, PageRef(s, i, m - 1)))
  }

  function OneOf(o: Option<nat>): set<nat> { match o case Some(f) => {f} case None => {} }

  /** The pages of the first n directory entries: their tables, and what these own. */
  ghost function PagesUpTo(st: Spaces, s: int, n: nat): (r: set<nat>) {
    if n == 0 then {}
    else PagesUpTo(st, s, n - 1) + TablePages(st, s, n - 1)
  }

  ghost function TablePages(st: Spaces, s: int, i: nat): set<nat> {
    if HasTable(st, s, i) then PagesOf(st, s, i, |Table(st, s, i)|) + {st.dirs[s][i].frame} else {}
  }

  /** All pages that a space owns. */
  ghost function PagesOfSpace(st: Spaces, s: int): set<nat>
    requires s in st.dirs
  {
    PagesUpTo(st, s, |st.dirs[s]|)
  }
}
