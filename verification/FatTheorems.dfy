/** What reads of a file through the driver return, in terms of the contents of the file. */
module FatTheorems {
  import opened Basics
  import Errno
  import D = FatDir
  import opened Fat32
  import opened FatSpec
  import opened LruSpec

  /** The first n clusters of the chain hold the whole file. */
  predicate Holds(v: Volume, start: int, n: nat, size: nat)
    requires v.Valid()
  {
    Linked(v, start, n) && size <= BLOCK_SIZE * (n * v.clusterSize)
  }

  /** What a read of n bytes at `offset` of a file with these contents should return. */
  function Piece(content: seq<int>, offset: nat, n: nat): (p: seq<int>) {
    if offset >= |content| then [] else content[offset..Min(offset + n, |content|)]
  }

  lemma FetchedWithin(v: Volume, start: int, n: nat, size: nat, offset: nat, end: nat, q: nat)
    requires v.Valid() && Holds(v, start, n, size) && offset < end <= size && Fetches(v, offset, end, q)
    ensures q < n * v.clusterSize
  {
    var c, k := v.clusterSize, (end - 1) / BLOCK_SIZE / v.clusterSize;
    QuotientBelow((end - 1) / BLOCK_SIZE, n, c);
    ClusterMonotonicMul(k + 1, n, c);
  }

  lemma ClusterMonotonicMul(k: nat, n: nat, c: nat)
    requires k <= n
    ensures k * c <= n * c
  {
    assert (n - k) * c == n * c - k * c;
  }

  /**
    Reads are exact: from a file whose clusters are all there, a read of any
    length at any offset returns precisely the bytes offset..min(offset + n, size)
    of the concatenated clusters, and leaves the rest of the buffer alone.
   */
  lemma ReadExact(v: Volume, start: int, n: nat, size: nat, offset: nat, len: nat, was: seq<int>, b: seq<int>, r: int)
    requires v.Valid() && Holds(v, start, n, size) && ReadIs(v, start, size, offset, len, was, b, r) && |b| == |was|
    ensures var piece := Piece(Content(v, start, n, size), offset, len);
      r == |piece| && r <= |b| && b[..r] == piece && b[r..] == was[r..]
  {
    if offset < size && 0 < len {
      var end := End(offset, len, size);
      var content := Content(v, start, n, size);
      forall q: nat | Fetches(v, offset, end, q) ensures BlockOk(v, start, q) {
        FetchedWithin(v, start, n, size, offset, end, q);
        BlocksAt(v, start, n, q);
      }
      forall i | 0 <= i < r ensures b[i] == content[offset + i] {
        ContentAt(v, start, n, size, offset + i);
        assert ByteAt(v, start, offset + i, b[i]);
      }
    }
  }

  /** Beyond the end of a chain there is no cluster. */
  lemma {:induction false} WalkBehindEnd(v: Volume, start: int, n: nat, k: nat)
    requires v.Valid() && n <= k && Walk(v, start, n).err == Errno.SUCCESS && IsEoc(Walk(v, start, n).cluster)
    ensures IsEoc(Walk(v, start, k).cluster) && (n < k ==> Walk(v, start, k).err == Errno.NOT_EXISTS)
    decreases n
  {
    if n > 0 { WalkBehindEnd(v, Next(v, start), n - 1, k - 1); }
  }

  lemma QuotientFrom(q: nat, n: nat, c: nat)
    requires 0 < c && n * c <= q
    ensures n <= q / c
  {
    if q / c < n {
      assert q == q / c * c + q % c;
      ClusterMonotonicMul(q / c + 1, n, c);
      assert false;
    }
  }

  /** Block q can be had exactly if it is before the end of a chain of n clusters. */
  lemma BlockInChain(v: Volume, start: int, n: nat, q: nat)
    requires v.Valid() && 0 < n && Linked(v, start, n)
    requires Walk(v, start, n).err == Errno.SUCCESS && IsEoc(Walk(v, start, n).cluster)
    ensures BlockOk(v, start, q) <==> q < n * v.clusterSize
    ensures n * v.clusterSize <= q ==> Failure(v, start, q) == 0
  {
    var k := q / v.clusterSize;
    if q < n * v.clusterSize {
      LinkedBlockOk(v, start, n, q);
    } else {
      QuotientFrom(q, n, v.clusterSize);
      WalkBehindEnd(v, start, n, k);
    }
  }

  /** The last byte of a read that goes behind byte BLOCK_SIZE * bad needs a cluster that is not there. */
  lemma FetchesBehind(v: Volume, offset: nat, end: nat, n: nat)
    requires v.Valid() && offset < end && BLOCK_SIZE * (n * v.clusterSize) < end
    ensures exists q: nat :: Fetches(v, offset, end, q) && n * v.clusterSize <= q
  {
    ClusterSpan(end - 1, v.clusterSize);
    var q := (end - 1) / BLOCK_SIZE;
    assert Fetches(v, offset, end, q);
  }

  /**
    A file may be longer than its chain. Then a read is exact if and only if it
    ends within the chain; otherwise it returns 0, even for bytes that are there.
   */
  lemma ShortChain(v: Volume, start: int, n: nat, size: nat, offset: nat, len: nat, was: seq<int>, b: seq<int>, r: int)
    requires v.Valid() && 0 < n && Linked(v, start, n)
    requires Walk(v, start, n).err == Errno.SUCCESS && IsEoc(Walk(v, start, n).cluster)
    requires offset < size && 0 < len && |b| == |was|
    requires ReadIs(v, start, size, offset, len, was, b, r)
    ensures var end, there := End(offset, len, size), BLOCK_SIZE * (n * v.clusterSize);
      && (r == end - offset && Filled(v, start, offset, b, was, r) <==> end <= there)
      && (end <= there ==> 0 < r <= |b| && b[..r] == Content(v, start, n, there)[offset..end] && b[r..] == was[r..])
      && (there < end ==> r == 0)
  {
    var end, there := End(offset, len, size), BLOCK_SIZE * (n * v.clusterSize);
    if end <= there {
      forall q: nat | Fetches(v, offset, end, q) ensures BlockOk(v, start, q) {
        FetchedWithin(v, start, n, end, offset, end, q);
        BlockInChain(v, start, n, q);
      }
      assert ReadIs(v, start, end, offset, len, was, b, r);
      ReadExact(v, start, n, end, offset, len, was, b, r);
      WithinChain(v, start, n, end, there);
    } else {
      FetchesBehind(v, offset, end, n);
      var far: nat :| Fetches(v, offset, end, far) && n * v.clusterSize <= far;
      BlockInChain(v, start, n, far);
      var q: nat :| FailsAt(v, start, offset, end, q, r);
      BlockInChain(v, start, n, q);
    }
  }

  lemma WithinChain(v: Volume, start: int, n: nat, size: nat, there: nat)
    requires v.Valid() && Linked(v, start, n) && size <= there == BLOCK_SIZE * (n * v.clusterSize)
    ensures Content(v, start, n, size) == Content(v, start, n, there)[..size]
  {}

  /** A block of equal bytes. */
  function Repeat(x: int): (s: Block)
    ensures |s| == BLOCK_SIZE && forall i :: 0 <= i < |s| ==> s[i] == x
  {
    seq(BLOCK_SIZE, _ => x)
  }

  /** A volume with one cluster, which is the end of its chain. */
  function OneCluster(): Volume { Volume(map[0 := Repeat(0xff), 1 := Repeat(0)], 0, 1, 1) }

  lemma OneClusterChain(v: Volume, table: Block, data: Block)
    requires v.dev == map[0 := table, 1 := data] && v.fatLba == 0 && v.dataLba == 1 && v.clusterSize == 1
    requires |table| == |data| == BLOCK_SIZE
    requires (forall i :: 0 <= i < BLOCK_SIZE ==> table[i] == 0xff) && forall i :: 0 <= i < BLOCK_SIZE ==> data[i] == 0
    ensures v.Valid() && Linked(v, 2, 1) && Walk(v, 2, 1) == Walked(Errno.SUCCESS, 0xffff_ffff)
  {
    assert v.dev[0] == table && v.dev[1] == data;
    assert FatBlock(v, 2) == 0 && Next(v, 2) == Word(table, 2) == 0xffff_ffff;
    assert Walk(v, Next(v, 2), 0) == Walked(Errno.SUCCESS, 0xffff_ffff);
    assert DataBlock(v, 2, 0) == 1;
  }

  /** What it takes to read a file of 1024 bytes in a chain of 512 bytes. */
  lemma EarlyEndOf(v: Volume, was: seq<int>, b: seq<int>, r: int)
    requires v.Valid() && v.clusterSize == 1 && Linked(v, 2, 1) && Walk(v, 2, 1) == Walked(Errno.SUCCESS, 0xffff_ffff)
    requires |b| == |was|
    ensures ReadIs(v, 2, 1024, 0, 512, was, b, r) ==> r == 512
    ensures ReadIs(v, 2, 1024, 0, 1024, was, b, r) <==> r == 0
  {
    if ReadIs(v, 2, 1024, 0, 512, was, b, r) { ShortChain(v, 2, 1, 1024, 0, 512, was, b, r); }
    if ReadIs(v, 2, 1024, 0, 1024, was, b, r) { ShortChain(v, 2, 1, 1024, 0, 1024, was, b, r); }
    BlockInChain(v, 2, 1, 0);
    BlockInChain(v, 2, 1, 1);
    if r == 0 { assert FailsAt(v, 2, 0, 1024, 1, r); }
  }

  /**
    A file of 1024 bytes whose chain has the one cluster of 512 bytes: reading
    512 bytes returns all of them, reading 1024 bytes returns nothing.
   */
  lemma EarlyEnd(was: seq<int>, b: seq<int>, r: int)
    requires |b| == |was|
    ensures OneCluster().Valid()
    ensures ReadIs(OneCluster(), 2, 1024, 0, 512, was, b, r) ==> r == 512
    ensures ReadIs(OneCluster(), 2, 1024, 0, 1024, was, b, r) <==> r == 0
  {
    OneClusterChain(OneCluster(), Repeat(0xff), Repeat(0));
    EarlyEndOf(OneCluster(), was, b, r);
  }

  // ---------------------------------------------------------------------
  // Reading a file piece by piece
  // ---------------------------------------------------------------------

  function Sum(sizes: seq<nat>): nat { if sizes == [] then 0 else sizes[0] + Sum(sizes[1..]) }

  /** What a run of reads through one handle returns, one after the other. */
  function Pieces(content: seq<int>, pos: nat, sizes: seq<nat>): seq<int>
    decreases |sizes|
  {
    if sizes == [] then []
    else
      var piece := Piece(content, pos, sizes[0]);
      piece + Pieces(content, pos + |piece|, sizes[1..])
  }

  /** After the first i pieces, of which there are `all`, the reader is at `pos`. */
  ghost predicate ReadSoFar(content: seq<int>, start: nat, sizes: seq<nat>, i: nat, all: seq<int>, pos: nat)
    requires i <= |sizes|
  {
    pos == start + |all| && all + Pieces(content, pos, sizes[i..]) == Pieces(content, start, sizes)
  }

  lemma NextPiece(content: seq<int>, start: nat, sizes: seq<nat>, i: nat, all: seq<int>, pos: nat, piece: seq<int>,
                  all': seq<int>, pos': nat)
    requires i < |sizes| && ReadSoFar(content, start, sizes, i, all, pos) && piece == Piece(content, pos, sizes[i])
    requires all' == all + piece && pos' == pos + |piece|
    ensures ReadSoFar(content, start, sizes, i + 1, all', pos')
  {
    FirstPiece(content, pos, sizes, i, pos');
    Regroup(all, piece, Pieces(content, pos', sizes[i + 1..]), all');
  }

  lemma FirstPiece(content: seq<int>, pos: nat, sizes: seq<nat>, i: nat, pos': nat)
    requires i < |sizes| && pos' == pos + |Piece(content, pos, sizes[i])|
    ensures Pieces(content, pos, sizes[i..]) == Piece(content, pos, sizes[i]) + Pieces(content, pos', sizes[i + 1..])
  {
    assert sizes[i..][0] == sizes[i] && sizes[i..][1..] == sizes[i + 1..];
  }

  lemma Regroup(a: seq<int>, b: seq<int>, c: seq<int>, ab: seq<int>)
    requires ab == a + b
    ensures a + (b + c) == ab + c
  {}

  lemma NothingRead(content: seq<int>, start: nat, sizes: seq<nat>)
    ensures ReadSoFar(content, start, sizes, 0, [], start)
  {
    assert sizes[0..] == sizes;
  }

  lemma AllPieces(content: seq<int>, start: nat, sizes: seq<nat>, all: seq<int>, pos: nat)
    requires ReadSoFar(content, start, sizes, |sizes|, all, pos)
    ensures all == Pieces(content, start, sizes) && pos == start + |all|
  {
    assert sizes[|sizes|..] == [];
  }

  lemma Slices(s: seq<int>, a: nat, b: nat, c: nat)
    requires a <= b <= c <= |s|
    ensures s[a..b] + s[b..c] == s[a..c]
  {}

  /** The pieces join up without gaps and without overlaps. */
  lemma {:induction false} PiecesJoin(content: seq<int>, pos: nat, sizes: seq<nat>)
    requires pos <= |content|
    ensures Pieces(content, pos, sizes) == content[pos..Min(pos + Sum(sizes), |content|)]
    decreases |sizes|
  {
    if sizes != [] {
      var rest := sizes[1..];
      var mid := pos + |Piece(content, pos, sizes[0])|;
      PieceIs(content, pos, sizes[0]);
      PiecesJoin(content, mid, rest);
      Slices(content, pos, mid, Min(mid + Sum(rest), |content|));
      assert Min(mid + Sum(rest), |content|) == Min(pos + Sum(sizes), |content|);
    }
  }

  lemma PieceIs(content: seq<int>, pos: nat, n: nat)
    requires pos <= |content|
    ensures pos + |Piece(content, pos, n)| == Min(pos + n, |content|)
    ensures Piece(content, pos, n) == content[pos..Min(pos + n, |content|)]
  {}

  lemma {:induction false} EnoughReads(sizes: seq<nat>)
    requires forall i :: 0 <= i < |sizes| ==> 0 < sizes[i]
    ensures |sizes| <= Sum(sizes)
  {
    if sizes != [] { EnoughReads(sizes[1..]); }
  }

  /** Reads return the whole file, and after it nothing, if and only if their sizes add up to the file. */
  lemma WholeFile(content: seq<int>, sizes: seq<nat>)
    ensures Pieces(content, 0, sizes) == content <==> |content| <= Sum(sizes)
    ensures |content| <= Sum(sizes) ==> forall n: nat :: Piece(content, |Pieces(content, 0, sizes)|, n) == []
  {
    PiecesJoin(content, 0, sizes);
  }

  /** Any positive sizes add up to the file in time. */
  lemma WholeFileInTime(content: seq<int>, sizes: seq<nat>)
    requires |content| <= |sizes| && forall i :: 0 <= i < |sizes| ==> 0 < sizes[i]
    ensures Pieces(content, 0, sizes) == content
  {
    EnoughReads(sizes);
    WholeFile(content, sizes);
  }

  // ---------------------------------------------------------------------
  // Chains end
  // ---------------------------------------------------------------------

  ghost predicate Same(v: Volume, start: int, i: nat, j: nat)
    requires v.Valid()
  {
    Cluster(v, start, i) == Cluster(v, start, j)
  }

  /** No cluster is linked to twice. */
  ghost predicate Acyclic(v: Volume, start: int)
    requires v.Valid()
  {
    forall i: nat, j: nat :: i < j && Reached(v, start, j) ==> !Same(v, start, i, j)
  }

  function Range(n: nat): (s: set<int>)
    ensures |s| == n && forall x :: x in s <==> 0 <= x < n
  {
    if n == 0 then {} else Range(n - 1) + {n - 1}
  }

  /** The first n clusters as a set. */
  ghost function Visited(v: Volume, start: int, n: nat): (s: set<int>)
    requires v.Valid()
    ensures forall x :: x in s ==> exists i: nat :: i < n && Cluster(v, start, i) == x
  {
    if n == 0 then {} else Visited(v, start, n - 1) + {Cluster(v, start, n - 1)}
  }

  /** Before cluster n was reached, all earlier ones were. */
  lemma {:induction false} ReachedBefore(v: Volume, start: int, n: nat)
    requires v.Valid() && Reached(v, start, n + 1) && !IsEoc(start)
    ensures Reached(v, start, n)
    decreases n
  {
    if n > 0 { ReachedBefore(v, Next(v, start), n - 1); }
  }

  lemma NotVisited(v: Volume, start: int, n: nat)
    requires v.Valid() && Acyclic(v, start) && Reached(v, start, n)
    ensures Cluster(v, start, n) !in Visited(v, start, n)
  {
    forall i: nat | i < n ensures Cluster(v, start, i) != Cluster(v, start, n) { assert !Same(v, start, i, n); }
  }

  ghost predicate Below(s: set<int>, n: int) { forall x :: x in s ==> 0 <= x < n }

  lemma {:induction false} VisitedSize(v: Volume, start: int, n: nat)
    requires v.Valid() && Acyclic(v, start) && !IsEoc(start) && Reached(v, start, n)
    ensures |Visited(v, start, n + 1)| == n + 1
    ensures Below(Visited(v, start, n + 1), MAX_CLUSTER)
    decreases n
  {
    if n > 0 {
      ReachedBefore(v, start, n - 1);
      VisitedSize(v, start, n - 1);
      NotVisited(v, start, n);
    }
    assert Visited(v, start, n + 1) == Visited(v, start, n) + {Cluster(v, start, n)};
  }

  lemma SubsetSize(a: set<int>, b: set<int>)
    requires a <= b
    ensures |a| <= |b|
  {
    assert b == a + (b - a);
  }

  lemma ReachesFewer(v: Volume, start: int, n: nat)
    requires v.Valid() && Acyclic(v, start) && !IsEoc(start) && MAX_CLUSTER <= n
    ensures !Reached(v, start, n)
  {
    if Reached(v, start, n) {
      VisitedSize(v, start, n);
      SubsetSize(Visited(v, start, n + 1), Range(n));
      assert false;
    }
  }

  /** A chain without a cycle ends, or breaks off. */
  lemma AcyclicEnds(v: Volume, start: int)
    requires v.Valid() && Acyclic(v, start) && !IsEoc(start)
    ensures exists n: nat :: n <= MAX_CLUSTER && !Reached(v, start, n)
  {
    var n: nat :| n == MAX_CLUSTER;
    ReachesFewer(v, start, n);
  }

  /** Every directory whose chain has no cycle has an end, so that its enumeration terminates. */
  lemma AcyclicDirectory(v: Volume, start: int) returns (d: seq<D.Slot>)
    requires v.Valid() && Acyclic(v, start) && !IsEoc(start)
    ensures D.IsDirectory(v, start, d)
  {
    AcyclicEnds(v, start);
    var n: nat :| n <= MAX_CLUSTER && !Reached(v, start, n);
    var last := D.ENTRIES_PER_BLOCK * (v.clusterSize * n);
    ClusterBegin(n, v.clusterSize);
    assert last / D.ENTRIES_PER_BLOCK == v.clusterSize * n;
    assert D.SlotAt(v, start, last).Stop?;
    d := seq(last + 1, i requires 0 <= i <= last => D.SlotAt(v, start, i));
  }
}
