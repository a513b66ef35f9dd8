/**
  Directory enumeration of src/kernel/src/filesystem/fat32.cc and the default
  lookup of filesystem.cc over it. A directory is a file of 32-byte entries
  (section 6 of the Microsoft FAT Specification).
 */
module FatDir {
  import Alignment
  import opened Basics
  import Errno
  import F = Fat32
  import opened FatSpec
  import opened LruSpec

  const ENTRY_SIZE := 32
  const ENTRIES_PER_BLOCK := 16
  const SPACE := 0x20
  const DOT := 0x2e
  const SLASH := 0x2f
  const DELETED := 0xe5

  /** `dir_entry_t`, with the directory's own number and the place of the entry in it. */
  datatype Entry = Entry(name: seq<int>, cluster: int, isDir: bool, size: int, parent: int, index: nat)

  /** The weights of the attribute bits. */
  const ATTR_VOLUME_LABEL := 0x08
  const ATTR_DIRECTORY := 0x10
  const ATTR_DISK := 0x40

  predicate IsSpace(c: int) { c == SPACE || c == 0x09 || c == 0x0a || c == 0x0d }

  function ToLower(c: int): int { if 0x41 <= c <= 0x5a then c + 0x20 else c }

  /** `rtrim` */
  function RTrim(s: seq<int>): (r: seq<int>)
    ensures r <= s && (r != [] ==> !IsSpace(r[|r| - 1]))
    ensures forall i :: |r| <= i < |s| ==> IsSpace(s[i])
  {
    if s != [] && IsSpace(s[|s| - 1]) then RTrim(s[..|s| - 1]) else s
  }

  function Lower(s: seq<int>): (r: seq<int>)
    ensures |r| == |s| && forall i :: 0 <= i < |s| ==> r[i] == ToLower(s[i])
  {
    seq(|s|, i requires 0 <= i < |s| => ToLower(s[i]))
  }

  /** The name of a raw entry, with the dot only when there is an extension. */
  function DirName(raw: seq<int>): seq<int>
    requires |raw| == ENTRY_SIZE
  {
    var name := RTrim(raw[..8]);
    Lower(RTrim(if raw[8] != SPACE then name + [DOT] + raw[8..11] else name))
  }

  /** A name that enumeration passes on: not empty, not beginning with a dot, and free of slashes. */
  predicate GoodName(name: seq<int>) { name != [] && name[0] != DOT && SLASH !in name }

  function Parse(raw: seq<int>, parent: int, index: nat): Entry
    requires |raw| == ENTRY_SIZE
  {
    Entry(DirName(raw), (raw[20] + 0x100 * raw[21]) * 0x1_0000 + raw[26] + 0x100 * raw[27], Bit(raw[11], ATTR_DIRECTORY),
          raw[28] + 0x100 * raw[29] + 0x1_0000 * raw[30] + 0x100_0000 * raw[31], parent, index)
  }

  /**
    Entry i of a directory: passed on by enumeration, or passed over; or a stop,
    with the result of an enumeration that gets there.
   */
  datatype Slot = Visible(entry: Entry) | Hidden | Stop(r: int)

  /**
    What a raw entry means. An empty name marks the end of the directory. Disks,
    volume labels, deleted entries and bad names are passed over.
   */
  function Decode(raw: seq<int>, parent: int, index: nat): (s: Slot)
    requires |raw| == ENTRY_SIZE
    ensures s.Visible? ==> s.entry.index == index
    ensures s.Stop? ==> s.r == 0
  {
    if raw[0] == 0 then Stop(0)
    else if !Bit(raw[11], ATTR_DISK) && !Bit(raw[11], ATTR_VOLUME_LABEL) && raw[0] != DELETED && GoodName(DirName(raw))
    then Visible(Parse(raw, parent, index))
    else Hidden
  }

  /** The bytes of entry n of a block of a directory. */
  function RawOf(block: Block, n: nat): (raw: seq<int>)
    requires |block| == BLOCK_SIZE && n < ENTRIES_PER_BLOCK
    ensures |raw| == ENTRY_SIZE
  {
    block[ENTRY_SIZE * n..ENTRY_SIZE * n + ENTRY_SIZE]
  }

  function SlotAt(v: Volume, start: int, i: nat): (s: Slot)
    requires v.Valid()
    ensures s.Visible? ==> s.entry.index == i
    ensures s.Stop? ==> s.r == 0 || s.r == Errno.IO
  {
    var q := i / ENTRIES_PER_BLOCK;
    if !BlockOk(v, start, q) then Stop(Failure(v, start, q))
    else Decode(RawOf(v.dev[FileBlock(v, start, q)], i % ENTRIES_PER_BLOCK), start, i)
  }

  /** A directory: all its entries, and the stop at its end. */
  ghost predicate IsDirectory(v: Volume, start: int, d: seq<Slot>)
    requires v.Valid()
  {
    && d != [] && d[|d| - 1].Stop?
    && forall i: nat :: i < |d| ==> d[i] == SlotAt(v, start, i)
  }

  /** Each entry knows its place. */
  ghost predicate Indexed(d: seq<Slot>) { forall i: nat :: i < |d| && d[i].Visible? ==> d[i].entry.index == i }

  ghost predicate Skipped(d: seq<Slot>, i: nat) { i < |d| && d[i].Hidden? }

  /** The visible entries from index i on, before the end of the directory. */
  function Listing(d: seq<Slot>, i: nat): (l: seq<Entry>)
    decreases |d| - i
  {
    if i >= |d| then []
    else match d[i]
      case Visible(entry) => [entry] + Listing(d, i + 1)
      case Hidden => Listing(d, i + 1)
      case Stop(_) => []
  }

  /** What one call of `read_dir` from index i does: go on to index i1 with a result and an entry. */
  ghost predicate ReadDirIs(d: seq<Slot>, i: nat, i1: nat, r: int, entry: Entry) {
    if r == 1 then
      && i < i1 <= |d| && d[i1 - 1] == Visible(entry)
      && forall k: nat :: i <= k < i1 - 1 ==> Skipped(d, k)
    else
      && i <= i1 < |d| && d[i1] == Stop(r)
      && forall k: nat :: i <= k < i1 ==> Skipped(d, k)
  }

  /** Each call returns the next entry of the listing, and the rest of it is left for the following calls. */
  lemma {:induction false} ReadDirLists(d: seq<Slot>, i: nat, i1: nat, r: int, entry: Entry)
    requires d != [] && d[|d| - 1].Stop? && ReadDirIs(d, i, i1, r, entry)
    ensures i1 < |d|
    ensures Listing(d, i) == if r == 1 then [entry] + Listing(d, i1) else []
    decreases i1 - i
  {
    var more := if r == 1 then i < i1 - 1 else i < i1;
    assert more ==> Skipped(d, i);
    if more { ReadDirLists(d, i + 1, i1, r, entry); }
  }

  /** The entry at index k is visible and before the end of the directory. */
  ghost predicate Listed(d: seq<Slot>, i: nat, k: nat) {
    i <= k < |d| && d[k].Visible? && forall j: nat :: i <= j <= k ==> !d[j].Stop?
  }

  lemma ListedStep(d: seq<Slot>, i: nat, k: nat)
    requires i < |d| && !d[i].Stop?
    ensures Listed(d, i, k) <==> (k == i && d[i].Visible?) || Listed(d, i + 1, k)
  {
    if Listed(d, i + 1, k) {
      forall j: nat | i <= j <= k ensures !d[j].Stop? {}
    }
  }

  /** The listing has an entry for each visible one before the end of the directory, and no other. */
  lemma {:induction false} ListingComplete(d: seq<Slot>, i: nat, e: Entry)
    requires Indexed(d)
    ensures e in Listing(d, i) <==> Listed(d, i, e.index) && d[e.index].entry == e
    decreases |d| - i
  {
    if i < |d| && !d[i].Stop? {
      ListingComplete(d, i + 1, e);
      ListedStep(d, i, e.index);
    }
  }

  ghost predicate IndexBefore(l: seq<Entry>, a: int, b: int)
    requires 0 <= a < |l| && 0 <= b < |l|
  {
    l[a].index < l[b].index
  }

  /** The entries are at increasing indices, from `least` on. */
  ghost predicate InOrder(l: seq<Entry>, least: int) {
    && (forall a :: 0 <= a < |l| ==> least <= l[a].index)
    && (forall a, b :: 0 <= a < b < |l| ==> IndexBefore(l, a, b))
  }

  lemma InOrderPrepend(e: Entry, rest: seq<Entry>)
    requires InOrder(rest, e.index + 1)
    ensures InOrder([e] + rest, e.index)
  {
    var l := [e] + rest;
    forall a, b | 0 <= a < b < |l| ensures IndexBefore(l, a, b) {
      assert 0 < a ==> IndexBefore(rest, a - 1, b - 1);
    }
  }

  /** The listing is in the order of the entries on the disk, so each of them appears once. */
  lemma {:induction false} ListingOrdered(d: seq<Slot>, i: nat)
    requires Indexed(d)
    ensures InOrder(Listing(d, i), i)
    decreases |d| - i
  {
    if i < |d| && !d[i].Stop? {
      ListingOrdered(d, i + 1);
      if d[i].Visible? { InOrderPrepend(d[i].entry, Listing(d, i + 1)); }
    }
  }

  /**
    Enumeration from the start is exact: it passes on every visible entry before
    the end of the directory, each once, in the order of the disk, and no other.
   */
  lemma EnumerationExact(v: Volume, start: int, d: seq<Slot>, e: Entry)
    requires v.Valid() && IsDirectory(v, start, d)
    ensures InOrder(Listing(d, 0), 0)
    ensures e in Listing(d, 0)
      <==> SlotAt(v, start, e.index) == Visible(e) && e.index < |d| && forall j: nat :: j <= e.index ==> !SlotAt(v, start, j).Stop?
  {
    ListingOrdered(d, 0);
    ListingComplete(d, 0, e);
  }

  // ---------------------------------------------------------------------
  // The driver
  // ---------------------------------------------------------------------

  const NO_ENTRY := Entry([], 0, false, 0, 0, 0)

  /** A name that is short enough for the entry, in lower case, and does not end in white space. */
  ghost predicate NameShape(name: seq<int>) {
    && |name| <= 12 && (name != [] ==> !IsSpace(name[|name| - 1]))
    && forall i :: 0 <= i < |name| ==> !(0x41 <= name[i] <= 0x5a)
  }

  lemma DirNameShape(raw: seq<int>)
    requires |raw| == ENTRY_SIZE
    ensures NameShape(DirName(raw))
  {}

  /** `rtrim`: the white space at the end is taken off, one character after the other. */
  method TrimName(name0: seq<int>) returns (name: seq<int>)
    ensures name == RTrim(name0)
  {
    name := name0;
    while name != [] && IsSpace(name[|name| - 1])
      invariant RTrim(name) == RTrim(name0)
      decreases |name|
    {
      name := name[..|name| - 1];
    }
  }

  /** `to_lower`, in place. */
  method LowerName(name0: seq<int>) returns (name: seq<int>)
    ensures name == Lower(name0)
  {
    name := name0;
    var i := 0;
    while i < |name|
      invariant 0 <= i <= |name| == |name0|
      invariant forall k :: 0 <= k < |name| ==> name[k] == if k < i then ToLower(name0[k]) else name0[k]
    {
      name := name[i := ToLower(name[i])];
      i := i + 1;
    }
  }

  /** The bytes raw[from..to] are appended to the name, one after the other. */
  method PushBytes(name0: seq<int>, raw: seq<int>, from: nat, to: nat) returns (name: seq<int>)
    requires from <= to <= |raw|
    ensures name == name0 + raw[from..to]
  {
    name := name0;
    var i := from;
    while i < to
      invariant from <= i <= to && name == name0 + raw[from..i]
    {
      name := name + [raw[i]];
      i := i + 1;
    }
  }

  /** The name of an entry, as `read_dir` builds it up. */
  method BuildName(raw: seq<int>) returns (name: seq<int>)
    requires |raw| == ENTRY_SIZE
    ensures name == DirName(raw) && NameShape(name)
  {
    name := PushBytes([], raw, 0, 8);
    assert [] + raw[0..8] == raw[..8];
    name := TrimName(name);
    if raw[8] != SPACE {
      name := name + [DOT];
      name := PushBytes(name, raw, 8, 11);
    }
    name := TrimName(name);
    name := LowerName(name);
    DirNameShape(raw);
  }

  /**
    The body of the inner loop of `read_dir`: an entry that is in use is passed
    on if it has a good name, which is then not empty, short, in lower case, and
    without slashes, a dot at its beginning or white space at its end.
   */
  method Examine(raw: seq<int>, start: int, i: nat) returns (shown: bool, entry: Entry)
    requires |raw| == ENTRY_SIZE && raw[0] != 0
    ensures Decode(raw, start, i) == if shown then Visible(entry) else Hidden
    ensures shown ==>
      0 < |entry.name| && NameShape(entry.name) && entry.name[0] != DOT && SLASH !in entry.name && entry.index == i
  {
    shown, entry := false, NO_ENTRY;
    if !Bit(raw[11], ATTR_DISK) && !Bit(raw[11], ATTR_VOLUME_LABEL) && raw[0] != DELETED {
      var name := BuildName(raw);
      if name != [] && name[0] != DOT && SLASH !in name {
        shown, entry := true, Parse(raw, start, i).(name := name);
      }
    }
  }

  /** Block q of the directory. */
  ghost predicate IsBlock(d: seq<Slot>, start: int, q: nat, block: Block)
    requires |block| == BLOCK_SIZE
  {
    forall k: nat :: k < |d| && k / ENTRIES_PER_BLOCK == q ==> d[k] == Decode(RawOf(block, k % ENTRIES_PER_BLOCK), start, k)
  }

  lemma SlotIn(d: seq<Slot>, start: int, q: nat, block: Block, i: nat, n: nat)
    requires |block| == BLOCK_SIZE && IsBlock(d, start, q, block)
    requires i < |d| && n < ENTRIES_PER_BLOCK && i == ENTRIES_PER_BLOCK * q + n
    ensures d[i] == Decode(RawOf(block, n), start, i)
  {
    assert i / ENTRIES_PER_BLOCK == q && i % ENTRIES_PER_BLOCK == n;
  }

  /** One entry of a block, which is entry i of the directory. */
  method ScanEntry(start: int, ghost d: seq<Slot>, ghost q: nat, block: Block, n: nat, i: nat) returns (slot: Slot)
    requires |block| == BLOCK_SIZE && IsBlock(d, start, q, block)
    requires i < |d| && n < ENTRIES_PER_BLOCK && i == ENTRIES_PER_BLOCK * q + n
    ensures slot == d[i] && (slot.Stop? ==> slot.r == 0)
  {
    SlotIn(d, start, q, block, i, n);
    var raw := RawOf(block, n);
    if raw[0] == 0 { return Stop(0); }
    var shown, entry := Examine(raw, start, i);
    return if shown then Visible(entry) else Hidden;
  }

  lemma StopHere(d: seq<Slot>, i0: nat, i: nat, entry: Entry)
    requires i0 <= i < |d| && d[i] == Stop(0) && forall k: nat :: i0 <= k < i ==> Skipped(d, k)
    ensures ReadDirIs(d, i0, i, 0, entry)
  {}

  lemma FoundHere(d: seq<Slot>, i0: nat, i: nat, found: Entry)
    requires i0 <= i < |d| && d[i] == Visible(found) && forall k: nat :: i0 <= k < i ==> Skipped(d, k)
    ensures ReadDirIs(d, i0, i + 1, 1, found)
  {}

  lemma SkipHere(d: seq<Slot>, i0: nat, i: nat)
    requires i0 <= i < |d| && d[i].Hidden? && d[|d| - 1].Stop? && forall k: nat :: i0 <= k < i ==> Skipped(d, k)
    ensures i + 1 < |d| && forall k: nat :: i0 <= k < i + 1 ==> Skipped(d, k)
  {}

  /** The inner loop of `read_dir`: the entries of one block, from entry i1 of the directory on. */
  method ScanBlock(start: int, ghost d: seq<Slot>, ghost q: nat, block: Block, ghost i0: nat, i1: nat)
    returns (stop: bool, r: int, i: nat, entry: Entry)
    requires |block| == BLOCK_SIZE && i0 <= i1 < |d| && i1 / ENTRIES_PER_BLOCK == q && d[|d| - 1].Stop?
    requires IsBlock(d, start, q, block)
    requires forall k: nat :: i0 <= k < i1 ==> Skipped(d, k)
    ensures stop ==> ReadDirIs(d, i0, i, r, entry)
    ensures !stop ==> i1 < i == ENTRIES_PER_BLOCK * (q + 1) && forall k: nat :: i0 <= k < i ==> Skipped(d, k)
  {
    i := i1;
    entry := NO_ENTRY;
    stop, r := false, 0;
    var n := i % ENTRIES_PER_BLOCK;
    while n < ENTRIES_PER_BLOCK
      invariant i1 <= i < |d| && 0 <= n <= ENTRIES_PER_BLOCK && i == ENTRIES_PER_BLOCK * q + n
      invariant forall k: nat :: i0 <= k < i ==> Skipped(d, k)
    {
      var slot := ScanEntry(start, d, q, block, n, i);
      match slot
      case Stop(_) =>
        StopHere(d, i0, i, entry);
        return true, 0, i, entry;
      case Visible(found) =>
        FoundHere(d, i0, i, found);
        return true, 1, i + 1, found;
      case Hidden =>
        SkipHere(d, i0, i);
        i := i + 1;
        n := n + 1;
    }
  }

  /** One round of the middle loop of `read_dir`: block q of the directory, which is block b of the cluster. */
  method ScanNext(fs: F.Fat32, start: int, ghost d: seq<Slot>, ghost q: nat, cluster: int, b: nat, ghost i0: nat, i1: nat)
    returns (stop: bool, r: int, i: nat, entry: Entry)
    requires fs.Valid() && IsDirectory(fs.v, start, d) && i0 <= i1 < |d| && i1 / ENTRIES_PER_BLOCK == q
    requires Reached(fs.v, start, q / fs.v.clusterSize)
    requires DataBlock(fs.v, cluster, b) == FileBlock(fs.v, start, q) < INVALID
    requires forall j: nat :: i0 <= j < i1 ==> Skipped(d, j)
    modifies fs.data, fs.data.entries
    ensures fs.Valid()
    ensures stop ==> ReadDirIs(d, i0, i, r, entry)
    ensures !stop ==> i1 < i == ENTRIES_PER_BLOCK * (q + 1) && forall j: nat :: i0 <= j < i ==> Skipped(d, j)
  {
    var ok, block := fs.FetchBlock(start, q, cluster, b);
    if !ok {
      BlockMissing(fs.v, start, d, q, i1);
      return true, Errno.IO, i1, NO_ENTRY;
    }
    BlockSlots(fs.v, start, d, q);
    stop, r, i, entry := ScanBlock(start, d, q, block, i0, i1);
  }

  lemma BlockSlots(v: Volume, start: int, d: seq<Slot>, q: nat)
    requires v.Valid() && IsDirectory(v, start, d) && BlockOk(v, start, q)
    ensures IsBlock(d, start, q, v.dev[FileBlock(v, start, q)])
  {}

  lemma BlockMissing(v: Volume, start: int, d: seq<Slot>, q: nat, i: nat)
    requires v.Valid() && IsDirectory(v, start, d) && i < |d| && i / ENTRIES_PER_BLOCK == q
    requires Reached(v, start, q / v.clusterSize) && FileBlock(v, start, q) !in v.dev
    ensures d[i] == Stop(Errno.IO)
  {
    assert d[i] == SlotAt(v, start, i);
  }

  /** The blocks of one cluster, as far as `read_dir` has to go, from entry i1 of the directory on. */
  method ScanCluster(fs: F.Fat32, start: int, ghost d: seq<Slot>, ghost k: nat, cluster: int, ghost i0: nat, i1: nat)
    returns (stop: bool, r: int, i: nat, entry: Entry)
    requires fs.Valid() && F.InRange(fs.v, start) && IsDirectory(fs.v, start, d) && i0 <= i1 < |d|
    requires k == i1 / ENTRIES_PER_BLOCK / fs.v.clusterSize && Reached(fs.v, start, k) && cluster == Cluster(fs.v, start, k)
    requires forall j: nat :: i0 <= j < i1 ==> Skipped(d, j)
    modifies fs.data, fs.data.entries
    ensures fs.Valid()
    ensures stop ==> ReadDirIs(d, i0, i, r, entry)
    ensures !stop ==> i1 < i && forall j: nat :: i0 <= j < i ==> Skipped(d, j)
  {
    i, entry, stop, r := i1, NO_ENTRY, false, 0;
    var c := fs.v.clusterSize;
    ghost var q := i1 / ENTRIES_PER_BLOCK;
    var b := i * ENTRY_SIZE / BLOCK_SIZE % c;
    assert q == q / c * c + q % c;
    while b < c
      invariant fs.Valid() && 0 <= b <= c && q == k * c + b && i1 <= i
      invariant b < c ==> i / ENTRIES_PER_BLOCK == q
      invariant b == c ==> i1 < i
      invariant forall j: nat :: i0 <= j < i ==> Skipped(d, j)
    {
      ScanIndex(i, q, k, b, c);
      NotPastEnd(d, i0, i);
      stop, r, i, entry := ScanNext(fs, start, d, q, cluster, b, i0, i);
      if stop { return; }
      q := q + 1;
      b := b + 1;
    }
  }

  /** What has been skipped is before the end of the directory. */
  lemma NotPastEnd(d: seq<Slot>, i0: nat, i: nat)
    requires d != [] && d[|d| - 1].Stop? && i0 < |d| && i0 <= i && forall j: nat :: i0 <= j < i ==> Skipped(d, j)
    ensures i < |d|
  {
    assert i >= |d| ==> Skipped(d, |d| - 1);
  }

  lemma ScanIndex(i: nat, q: nat, k: nat, b: nat, c: nat)
    requires b < c && q == k * c + b && i / ENTRIES_PER_BLOCK == q
    ensures q / c == k && q % c == b
  {
    Alignment.DivUnique(q, k, b, c);
  }

  /** `read_dir`: it needs the directory to have an end, and gets to the next visible entry or to that end. */
  method ReadDir(fs: F.Fat32, start: int, i0: nat, ghost d: seq<Slot>) returns (r: int, i: nat, entry: Entry)
    requires fs.Valid() && F.InRange(fs.v, start) && IsDirectory(fs.v, start, d) && i0 < |d|
    modifies fs.fat, fs.fat.entries, fs.data, fs.data.entries
    ensures fs.Valid() && ReadDirIs(d, i0, i, r, entry)
  {
    i, entry := i0, NO_ENTRY;
    while true
      invariant fs.Valid() && i0 <= i < |d| && forall j: nat :: i0 <= j < i ==> Skipped(d, j)
      decreases |d| - i
    {
      var k := i * ENTRY_SIZE / BLOCK_SIZE / fs.v.clusterSize;
      var stop, cluster;
      stop, r, cluster := fs.EnterCluster(start, k);
      if stop {
        assert d[i] == SlotAt(fs.v, start, i);
        return;
      }
      stop, r, i, entry := ScanCluster(fs, start, d, k, cluster, i0, i);
      if stop { return; }
      NotPastEnd(d, i0, i);
    }
  }

  /** The first entry with the name. */
  ghost predicate FirstNamed(l: seq<Entry>, name: seq<int>, a: int) {
    0 <= a < |l| && l[a].name == name && forall b :: 0 <= b < a ==> l[b].name != name
  }

  /**
    What a lookup does: it succeeds if and only if a visible entry has the name,
    and gives the first one; otherwise it fails, with "not found" at a proper
    end of the directory.
   */
  ghost predicate LookupIs(d: seq<Slot>, l: seq<Entry>, name: seq<int>, err: int, dest: Entry) {
    if err == Errno.SUCCESS then exists a :: FirstNamed(l, name, a) && dest == l[a]
    else
      && (forall a :: 0 <= a < |l| ==> l[a].name != name)
      && exists k: nat :: k < |d| && d[k] == Stop(if err == Errno.NOT_EXISTS then 0 else err)
  }

  /** The entries of the listing that have been seen do not have the name. */
  ghost predicate Seen(l: seq<Entry>, name: seq<int>, seen: nat, rest: seq<Entry>) {
    seen <= |l| && l[seen..] == rest && forall a :: 0 <= a < seen ==> l[a].name != name
  }

  lemma SeenOne(l: seq<Entry>, name: seq<int>, seen: nat, e: Entry, rest: seq<Entry>)
    requires Seen(l, name, seen, [e] + rest)
    ensures e.name == name ==> FirstNamed(l, name, seen) && l[seen] == e
    ensures e.name != name ==> Seen(l, name, seen + 1, rest)
  {
    assert l[seen..][0] == e && l[seen..][1..] == l[seen + 1..] == rest;
  }

  /** The default `lookup` */
  method Lookup(fs: F.Fat32, start: int, name: seq<int>, ghost d: seq<Slot>) returns (err: int, dest: Entry)
    requires fs.Valid() && F.InRange(fs.v, start) && IsDirectory(fs.v, start, d)
    modifies fs.fat, fs.fat.entries, fs.data, fs.data.entries
    ensures fs.Valid()
    ensures LookupIs(d, Listing(d, 0), name, err, dest)
  {
    var i := 0;
    ghost var l, seen := Listing(d, 0), 0;
    dest := NO_ENTRY;
    while true
      invariant fs.Valid() && 0 <= i < |d| && 0 <= seen
      invariant Seen(l, name, seen, Listing(d, i))
      decreases |d| - i
    {
      ghost var was := i;
      var r, entry;
      r, i, entry := ReadDir(fs, start, i, d);
      ReadDirLists(d, was, i, r, entry);
      if r > 0 {
        SeenOne(l, name, seen, entry, Listing(d, i));
        if entry.name == name {
          return Errno.SUCCESS, entry;
        }
        seen := seen + 1;
      } else {
        return if r == 0 then Errno.NOT_EXISTS else r, dest;
      }
    }
  }
}
