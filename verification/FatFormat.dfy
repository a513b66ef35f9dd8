/**
  Directory entries as section 6 of the Microsoft FAT Specification lays them
  out, and that the driver reads from them what was written.
 */
module FatFormat {
  import Alignment
  import opened Basics
  import Errno
  import opened FatDir
  import opened FatGeometry
  import opened FatSpec

  /** The bits of the attribute byte, the least significant first. */
  datatype Attributes = Attributes(readOnly: bool, hidden: bool, system: bool, volume: bool,
                                   directory: bool, archive: bool, disk: bool, reserved: bool)

  function One(b: bool): nat { if b then 1 else 0 }

  function AttributeByte(a: Attributes): nat {
    One(a.readOnly) + 2 * One(a.hidden) + 4 * One(a.system) + 8 * One(a.volume)
    + 16 * One(a.directory) + 32 * One(a.archive) + 64 * One(a.disk) + 128 * One(a.reserved)
  }

  function Spaces(n: nat): (s: seq<int>)
    ensures |s| == n && forall i :: 0 <= i < n ==> s[i] == 0x20
  {
    seq(n, _ => 0x20)
  }

  function Padded(s: seq<int>, n: nat): (r: seq<int>)
    requires |s| <= n
    ensures |r| == n
  {
    s + Spaces(n - |s|)
  }

  /**
    An entry of 32 bytes: the name and the extension, padded with spaces; the
    attributes; bytes that do not matter here; the upper half of the first
    cluster; times; the lower half; the size.
   */
  function Encode(name: seq<int>, ext: seq<int>, a: Attributes, other: seq<int>, cluster: nat, times: seq<int>, size: nat): (raw: seq<int>)
    requires |name| <= 8 && |ext| <= 3 && |other| == 8 && |times| == 4
    ensures |raw| == ENTRY_SIZE
  {
    Padded(name, 8) + Padded(ext, 3) + [AttributeByte(a)] + other
    + Bytes(cluster / 0x1_0000, 2) + times + Bytes(cluster % 0x1_0000, 2) + Bytes(size, 4)
  }

  lemma EncodeAt(name: seq<int>, ext: seq<int>, a: Attributes, other: seq<int>, cluster: nat, times: seq<int>, size: nat)
    requires |name| <= 8 && |ext| <= 3 && |other| == 8 && |times| == 4
    ensures var raw := Encode(name, ext, a, other, cluster, times, size);
      && raw[..8] == Padded(name, 8) && raw[8..11] == Padded(ext, 3) && raw[8] == Padded(ext, 3)[0]
      && raw[0] == Padded(name, 8)[0] && raw[11] == AttributeByte(a)
      && raw[20] == Bytes(cluster / 0x1_0000, 2)[0] && raw[21] == Bytes(cluster / 0x1_0000, 2)[1]
      && raw[26] == Bytes(cluster % 0x1_0000, 2)[0] && raw[27] == Bytes(cluster % 0x1_0000, 2)[1]
      && raw[28] == Bytes(size, 4)[0] && raw[29] == Bytes(size, 4)[1]
      && raw[30] == Bytes(size, 4)[2] && raw[31] == Bytes(size, 4)[3]
  {}

  lemma TwoBytes(x: nat)
    requires x < 0x1_0000
    ensures x == Bytes(x, 2)[0] + 0x100 * Bytes(x, 2)[1]
  {
    var y := x / 256;
    assert Bytes(x, 2) == [x % 256] + Bytes(y, 1);
    assert Bytes(y, 1) == [y % 256] + Bytes(y / 256, 0);
  }

  /** The attribute bits that the driver looks at. */
  lemma AttributeBits(a: Attributes)
    ensures Bit(AttributeByte(a), ATTR_VOLUME_LABEL) == a.volume
    ensures Bit(AttributeByte(a), ATTR_DIRECTORY) == a.directory
    ensures Bit(AttributeByte(a), ATTR_DISK) == a.disk
  {
    VolumeBit(a);
    DirectoryBit(a);
    DiskBit(a);
  }

  lemma VolumeBit(a: Attributes)
    ensures Bit(AttributeByte(a), 8) == a.volume
  {
    BitOf(One(a.readOnly) + 2 * One(a.hidden) + 4 * One(a.system), a.volume, 8,
          One(a.directory) + 2 * One(a.archive) + 4 * One(a.disk) + 8 * One(a.reserved), AttributeByte(a));
  }

  lemma DirectoryBit(a: Attributes)
    ensures Bit(AttributeByte(a), 16) == a.directory
  {
    BitOf(One(a.readOnly) + 2 * One(a.hidden) + 4 * One(a.system) + 8 * One(a.volume), a.directory, 16,
          One(a.archive) + 2 * One(a.disk) + 4 * One(a.reserved), AttributeByte(a));
  }

  lemma DiskBit(a: Attributes)
    ensures Bit(AttributeByte(a), 64) == a.disk
  {
    BitOf(One(a.readOnly) + 2 * One(a.hidden) + 4 * One(a.system) + 8 * One(a.volume) + 16 * One(a.directory)
          + 32 * One(a.archive), a.disk, 64, One(a.reserved), AttributeByte(a));
  }

  lemma BitOf(low: nat, b: bool, weight: nat, rest: nat, x: nat)
    requires low < weight && x == low + weight * (One(b) + 2 * rest)
    ensures Bit(x, weight) == b
  {
    Alignment.DivUnique(x, One(b) + 2 * rest, low, weight);
  }

  // ---------------------------------------------------------------------
  // Names
  // ---------------------------------------------------------------------

  /** Ends in something that is not white space. */
  predicate Trimmed(s: seq<int>) { s == [] || !(s[|s| - 1] == 0x20 || 0x09 <= s[|s| - 1] <= 0x0a || s[|s| - 1] == 0x0d) }

  /** A name and an extension that a directory can list: no slash, and no marker, dot or space in front. */
  predicate ValidName(name: seq<int>, ext: seq<int>) {
    && 0 < |name| <= 8 && |ext| <= 3 && Trimmed(name) && Trimmed(ext)
    && name[0] != 0 && name[0] != 0xe5 && name[0] != '.' as int && (ext != [] ==> ext[0] != 0x20)
    && '/' as int !in name && '/' as int !in ext
  }

  /** "name.ext", or "name" without an extension. */
  function Dotted(name: seq<int>, ext: seq<int>): seq<int> { if ext == [] then name else name + ['.' as int] + ext }

  function LowerLetter(c: int): int { if 'A' as int <= c <= 'Z' as int then c - 'A' as int + 'a' as int else c }

  function LowerLetters(s: seq<int>): (r: seq<int>)
    ensures |r| == |s| && forall i :: 0 <= i < |s| ==> r[i] == LowerLetter(s[i])
  {
    seq(|s|, i requires 0 <= i < |s| => LowerLetter(s[i]))
  }

  lemma {:induction false} TrimPadded(s: seq<int>, n: nat)
    requires Trimmed(s)
    ensures RTrim(s + Spaces(n)) == s
    decreases n
  {
    if n == 0 {
      assert s + Spaces(0) == s;
    } else {
      assert (s + Spaces(n))[..|s| + n - 1] == s + Spaces(n - 1);
      TrimPadded(s, n - 1);
    }
  }

  lemma NameOf(name: seq<int>, ext: seq<int>, raw: seq<int>)
    requires ValidName(name, ext) && |raw| == ENTRY_SIZE && raw[..8] == Padded(name, 8) && raw[8..11] == Padded(ext, 3)
    ensures DirName(raw) == LowerLetters(Dotted(name, ext))
  {
    TrimPadded(name, 8 - |name|);
    DottedOf(name, ext, raw[8..11]);
    DirNameIs(raw, name, raw[8..11], Dotted(name, ext));
    LowerIs(Dotted(name, ext));
  }

  lemma DirNameIs(raw: seq<int>, name: seq<int>, ext: seq<int>, dotted: seq<int>)
    requires |raw| == ENTRY_SIZE && RTrim(raw[..8]) == name && raw[8..11] == ext
    requires RTrim(if ext[0] != SPACE then name + [DOT] + ext else name) == dotted
    ensures DirName(raw) == Lower(dotted)
  {
    assert raw[8] == ext[0];
  }

  lemma DottedOf(name: seq<int>, ext: seq<int>, padded: seq<int>)
    requires ValidName(name, ext) && padded == Padded(ext, 3)
    ensures padded[0] != SPACE <==> ext != []
    ensures RTrim(if padded[0] != SPACE then name + [DOT] + padded else name) == Dotted(name, ext)
  {
    if ext != [] {
      var dotted := name + [DOT] + ext;
      assert name + [DOT] + padded == dotted + Spaces(3 - |ext|);
      TrimPadded(dotted, 3 - |ext|);
    } else {
      TrimPadded(name, 0);
      assert name + Spaces(0) == name;
    }
  }

  lemma LowerIs(s: seq<int>)
    ensures Lower(s) == LowerLetters(s)
  {
    assert Lower(s) == LowerLetters(s);
  }

  lemma GoodNames(name: seq<int>, ext: seq<int>)
    requires ValidName(name, ext)
    ensures GoodName(LowerLetters(Dotted(name, ext)))
  {
    var d := Dotted(name, ext);
    forall i | 0 <= i < |d| ensures LowerLetter(d[i]) != SLASH { assert d[i] in name || d[i] in ext || d[i] == '.' as int; }
  }

  // ---------------------------------------------------------------------
  // Round trip
  // ---------------------------------------------------------------------

  /** An entry with a valid name reads as it was written; disks and volume labels are passed over. */
  lemma EntryRoundTrip(name: seq<int>, ext: seq<int>, a: Attributes, other: seq<int>, cluster: nat, times: seq<int>, size: nat,
                       parent: int, index: nat)
    requires ValidName(name, ext) && |other| == 8 && |times| == 4 && cluster < 0x1_0000_0000 && size < 0x1_0000_0000
    ensures Decode(Encode(name, ext, a, other, cluster, times, size), parent, index)
         == if a.disk || a.volume then Hidden
            else Visible(Entry(LowerLetters(Dotted(name, ext)), cluster, a.directory, size, parent, index))
  {
    var raw := Encode(name, ext, a, other, cluster, times, size);
    EncodeAt(name, ext, a, other, cluster, times, size);
    AttributeBits(a);
    NameOf(name, ext, raw);
    GoodNames(name, ext);
    TwoBytes(cluster / 0x1_0000);
    TwoBytes(cluster % 0x1_0000);
    FourBytes(size);
    assert cluster == cluster / 0x1_0000 * 0x1_0000 + cluster % 0x1_0000;
  }

  /** A first byte of 0 ends the directory; 0xe5 marks a deleted entry. */
  lemma Markers(raw: seq<int>, parent: int, index: nat)
    requires |raw| == ENTRY_SIZE
    ensures raw[0] == 0 <==> Decode(raw, parent, index) == Stop(0)
    ensures raw[0] == 0xe5 ==> Decode(raw, parent, index) == Hidden
  {}

  lemma TrimKeeps(s: seq<int>, i: nat)
    requires i < |s| && !IsSpace(s[i])
    ensures i < |RTrim(s)| && RTrim(s)[i] == s[i]
  {}

  /** Entries whose name begins with a dot, such as "." and "..", or has a slash in its first part, are passed over. */
  lemma BadNamesHidden(raw: seq<int>, parent: int, index: nat, i: nat)
    requires |raw| == ENTRY_SIZE && raw[0] != 0 && i < 8 && (raw[0] == '.' as int || raw[i] == '/' as int)
    ensures Decode(raw, parent, index) == Hidden
  {
    var k := if raw[0] == '.' as int then 0 else i;
    var name := RTrim(raw[..8]);
    assert raw[..8][k] == raw[k];
    TrimKeeps(raw[..8], k);
    var dotted := if raw[8] != SPACE then name + [DOT] + raw[8..11] else name;
    assert dotted[k] == raw[k];
    TrimKeeps(dotted, k);
    assert DirName(raw)[k] == ToLower(raw[k]) == raw[k];
    assert DirName(raw)[k] in DirName(raw);
  }

  lemma SmallEntry(raw: seq<int>)
    requires |raw| == ENTRY_SIZE && raw[0] == 0x41 && (forall i :: 1 <= i < 8 ==> raw[i] == 0x20)
    requires raw[8] == 0x54 && raw[9] == 0x58 && raw[10] == 0x54 && raw[11] == 0x20
    requires raw[20] == 0 && raw[21] == 0 && raw[26] == 3 && raw[27] == 0
    requires raw[28] == 5 && raw[29] == 0 && raw[30] == 0 && raw[31] == 0
    ensures Decode(raw, 2, 7) == Visible(Entry([0x61, 0x2e, 0x74, 0x78, 0x74], 3, false, 5, 2, 7))
  {
    SmallName(raw);
  }

  lemma SmallName(raw: seq<int>)
    requires |raw| == ENTRY_SIZE && raw[0] == 0x41 && (forall i :: 1 <= i < 8 ==> raw[i] == 0x20)
    requires raw[8] == 0x54 && raw[9] == 0x58 && raw[10] == 0x54
    ensures DirName(raw) == [0x61, 0x2e, 0x74, 0x78, 0x74]
  {
    var name, ext := [0x41], [0x54, 0x58, 0x54];
    assert raw[..8] == Padded(name, 8);
    assert raw[8..11] == Padded(ext, 3);
    NameOf(name, ext, raw);
    assert Dotted(name, ext) == [0x41, 0x2e, 0x54, 0x58, 0x54];
  }

  /** The entry of a file "A.TXT" of 5 bytes in cluster 3, byte by byte. */
  lemma LiteralEntry()
    ensures Decode([0x41, 0x20, 0x20, 0x20, 0x20, 0x20, 0x20, 0x20, 0x54, 0x58, 0x54, 0x20, 0, 0, 0, 0,
                    0, 0, 0, 0, 0, 0, 0, 0, 0, 0, 3, 0, 5, 0, 0, 0], 2, 7)
         == Visible(Entry([0x61, 0x2e, 0x74, 0x78, 0x74], 3, false, 5, 2, 7))
  {
    SmallEntry([0x41, 0x20, 0x20, 0x20, 0x20, 0x20, 0x20, 0x20, 0x54, 0x58, 0x54, 0x20, 0, 0, 0, 0,
                0, 0, 0, 0, 0, 0, 0, 0, 0, 0, 3, 0, 5, 0, 0, 0]);
  }

  /** Entry i of a directory is in the bytes from 32 * i on of its contents. */
  lemma SlotBytes(v: Volume, start: int, n: nat, i: nat)
    requires v.Valid() && Linked(v, start, n) && 32 * (i + 1) <= 512 * (n * v.clusterSize)
    ensures SlotAt(v, start, i) == Decode(Content(v, start, n, 512 * (n * v.clusterSize))[32 * i..32 * (i + 1)], start, i)
  {
    var q, k, all := i / ENTRIES_PER_BLOCK, i % ENTRIES_PER_BLOCK, 512 * (n * v.clusterSize);
    LinkedBlockOk(v, start, n, q);
    var raw, part := RawOf(v.dev[FileBlock(v, start, q)], k), Content(v, start, n, all)[32 * i..32 * (i + 1)];
    forall j | 0 <= j < ENTRY_SIZE ensures raw[j] == part[j] {
      var p := 32 * i + j;
      ContentAt(v, start, n, all, p);
      assert p == BLOCK_SIZE * q + (ENTRY_SIZE * k + j);
      assert p / BLOCK_SIZE == q && p % BLOCK_SIZE == ENTRY_SIZE * k + j;
    }
    assert raw == part;
  }
}
