/**
  Where things are on a FAT32 volume, said without the arithmetic of the driver:
  the clusters lie one behind the other, no two files share a block, and the
  table is a list of 32-bit numbers with their least significant byte first.
 */
module FatGeometry {
  import opened Alignment
  import opened Basics
  import Errno
  import opened Fat32
  import opened FatSpec
  import opened FatTheorems
  import opened LruSpec

  // ---------------------------------------------------------------------
  // Clusters
  // ---------------------------------------------------------------------

  /** The data begin with cluster 2; the blocks of a cluster, and the clusters, follow each other without gaps. */
  lemma ClustersInRow(v: Volume, cluster: int, j: nat)
    requires v.Valid()
    ensures DataBlock(v, 2, 0) == v.dataLba
    ensures DataBlock(v, cluster, j + 1) == DataBlock(v, cluster, j) + 1
    ensures DataBlock(v, cluster + 1, 0) == DataBlock(v, cluster, v.clusterSize - 1) + 1
  {
    assert (cluster + 1 - 2) * v.clusterSize == (cluster - 2) * v.clusterSize + v.clusterSize;
  }

  lemma {:induction false} BlockInCluster(v: Volume, cluster: int, j: nat)
    requires v.Valid()
    ensures DataBlock(v, cluster, j) == DataBlock(v, cluster, 0) + j
    decreases j
  {
    if j > 0 {
      BlockInCluster(v, cluster, j - 1);
      ClustersInRow(v, cluster, j - 1);
    }
  }

  /** Later clusters lie behind earlier ones. */
  lemma {:induction false} LaterCluster(v: Volume, c: int, d: int, j: nat)
    requires v.Valid() && c < d && j < v.clusterSize
    ensures DataBlock(v, c, j) < DataBlock(v, d, 0)
    decreases d - c
  {
    BlockInCluster(v, c, j);
    if c + 1 < d {
      LaterCluster(v, c, d - 1, j);
      BlockInCluster(v, d - 1, v.clusterSize - 1);
      ClustersInRow(v, d - 1, 0);
    } else {
      BlockInCluster(v, c, v.clusterSize - 1);
      ClustersInRow(v, c, 0);
    }
  }

  /** Different blocks of clusters are different blocks of the volume. */
  lemma BlocksDiffer(v: Volume, c: int, i: nat, d: int, j: nat)
    requires v.Valid() && i < v.clusterSize && j < v.clusterSize && (c != d || i != j)
    ensures DataBlock(v, c, i) != DataBlock(v, d, j)
  {
    BlockInCluster(v, c, i);
    BlockInCluster(v, d, j);
    if c < d { LaterCluster(v, c, d, i); }
    if d < c { LaterCluster(v, d, c, j); }
  }

  /** Cluster number i of one chain is not cluster number j of the other. */
  ghost predicate Elsewhere(v: Volume, a: int, i: nat, b: int, j: nat)
    requires v.Valid()
  {
    Cluster(v, a, i) != Cluster(v, b, j)
  }

  /** Files without a common cluster have no block in common. */
  lemma FilesApart(v: Volume, a: int, m: nat, b: int, n: nat, p: nat, q: nat)
    requires v.Valid() && p < m * v.clusterSize && q < n * v.clusterSize
    requires forall i: nat, j: nat :: i < m && j < n ==> Elsewhere(v, a, i, b, j)
    ensures FileBlock(v, a, p) != FileBlock(v, b, q)
  {
    var c := v.clusterSize;
    QuotientBelow(p, m, c);
    QuotientBelow(q, n, c);
    assert Elsewhere(v, a, p / c, b, q / c);
    BlocksDiffer(v, Cluster(v, a, p / c), p % c, Cluster(v, b, q / c), q % c);
  }

  lemma Quotients(p: nat, q: nat, c: nat)
    requires 0 < c && p < q
    ensures p / c < q / c || (p / c == q / c && p % c < q % c)
  {
    var i, j := p / c, q / c;
    assert p == i * c + p % c && q == j * c + q % c;
    if j < i { MulMonotonic(j + 1, i, c); assert false; }
  }

  /** A file whose chain has no cycle has every block once. */
  lemma FileBlocksOnce(v: Volume, start: int, p: nat, q: nat)
    requires v.Valid() && Acyclic(v, start) && p < q && Reached(v, start, q / v.clusterSize)
    ensures FileBlock(v, start, p) != FileBlock(v, start, q)
  {
    var c := v.clusterSize;
    var i, j := p / c, q / c;
    Quotients(p, q, c);
    if i < j { assert !Same(v, start, i, j); }
    BlocksDiffer(v, Cluster(v, start, i), p % c, Cluster(v, start, j), q % c);
  }

  // ---------------------------------------------------------------------
  // The table
  // ---------------------------------------------------------------------

  /** Byte p of the table, which begins at block `fatLba`. */
  function TableByte(v: Volume, p: nat): int
    requires v.Valid() && v.fatLba + p / BLOCK_SIZE in v.dev
  {
    v.dev[v.fatLba + p / BLOCK_SIZE][p % BLOCK_SIZE]
  }

  /** The n bytes of a number, the least significant first. */
  function Bytes(x: nat, n: nat): (b: seq<int>)
    ensures |b| == n && forall i :: 0 <= i < n ==> 0 <= b[i] < 256
  {
    if n == 0 then [] else [x % 256] + Bytes(x / 256, n - 1)
  }

  /** The table holds the number x for a cluster, in the four bytes from 4 * cluster on. */
  ghost predicate Holds32(v: Volume, cluster: nat, x: nat)
    requires v.Valid()
  {
    && v.fatLba + 4 * cluster / BLOCK_SIZE in v.dev && v.fatLba + (4 * cluster + 3) / BLOCK_SIZE in v.dev
    && TableByte(v, 4 * cluster) == Bytes(x, 4)[0]
    && v.fatLba + (4 * cluster + 1) / BLOCK_SIZE in v.dev && TableByte(v, 4 * cluster + 1) == Bytes(x, 4)[1]
    && v.fatLba + (4 * cluster + 2) / BLOCK_SIZE in v.dev && TableByte(v, 4 * cluster + 2) == Bytes(x, 4)[2]
    && TableByte(v, 4 * cluster + 3) == Bytes(x, 4)[3]
  }

  lemma FourBytes(x: nat)
    requires x < 0x1_0000_0000
    ensures var b := Bytes(x, 4); x == b[0] + 0x100 * b[1] + 0x1_0000 * b[2] + 0x100_0000 * b[3]
  {
    var y, z := x / 256, x / 256 / 256;
    var w := z / 256;
    assert Bytes(x, 4) == [x % 256] + Bytes(y, 3);
    assert Bytes(y, 3) == [y % 256] + Bytes(z, 2);
    assert Bytes(z, 2) == [z % 256] + Bytes(w, 1);
    assert Bytes(w, 1) == [w % 256] + Bytes(w / 256, 0);
    assert x == x % 256 + 256 * y && y == y % 256 + 256 * z && z == z % 256 + 256 * w;
    assert w < 256;
  }

  /** The driver reads what the table holds. */
  lemma NextIs(v: Volume, cluster: nat, x: nat)
    requires v.Valid() && x < 0x1_0000_0000 && Holds32(v, cluster, x)
    ensures FatBlock(v, cluster) in v.dev && Next(v, cluster) == x
  {
    FourBytes(x);
    var q, r := cluster / WORDS_PER_BLOCK, cluster % WORDS_PER_BLOCK;
    assert 4 * cluster == BLOCK_SIZE * q + 4 * r;
    assert 4 * cluster / BLOCK_SIZE == q && 4 * cluster % BLOCK_SIZE == 4 * r;
    assert (4 * cluster + 1) / BLOCK_SIZE == q && (4 * cluster + 1) % BLOCK_SIZE == 4 * r + 1;
    assert (4 * cluster + 2) / BLOCK_SIZE == q && (4 * cluster + 2) % BLOCK_SIZE == 4 * r + 2;
    assert (4 * cluster + 3) / BLOCK_SIZE == q && (4 * cluster + 3) % BLOCK_SIZE == 4 * r + 3;
  }

  /** Which numbers end a chain: those before the first cluster, and those from 0x0ffffff0 on, upper bits included. */
  lemma EndsOfChains(x: int)
    ensures IsEoc(x) <==> x == 0 || x == 1 || x < 0 || x > 0x0fff_ffef
    ensures IsEoc(0x0fff_ffff) && IsEoc(0x1000_0002) && !IsEoc(2) && !IsEoc(0x0fff_ffef)
  {}

  // ---------------------------------------------------------------------
  // A volume with a file of two clusters
  // ---------------------------------------------------------------------

  /** The four blocks of the file, by the first block of the data: clusters 3 and 5 of two blocks each. */
  ghost predicate TwoClusters(v: Volume, table: Block, a: Block, b: Block, c: Block, d: Block) {
    && v.Valid() && v.clusterSize == 2 && v.fatLba == 0 && v.dataLba == 10
    && v.dev == map[0 := table, 12 := a, 13 := b, 16 := c, 17 := d] && |table| == BLOCK_SIZE
    && table[12] == 5 && table[13] == 0 && table[14] == 0 && table[15] == 0
    && table[20] == 0xf8 && table[21] == 0xff && table[22] == 0xff && table[23] == 0x0f
  }

  /**
    A file in clusters 3 and 5, where the entry of cluster 3 is 5 and that of
    cluster 5 is 0x0ffffff8: reading it gives blocks 12, 13, 16 and 17.
   */
  lemma TwoClusterFile(v: Volume, table: Block, a: Block, b: Block, c: Block, d: Block, was: seq<int>, buf: seq<int>, r: int)
    requires TwoClusters(v, table, a, b, c, d) && |buf| == |was|
    requires ReadIs(v, 3, 2048, 0, 2048, was, buf, r)
    ensures r == 2048 <= |buf| && buf[..2048] == a + b + c + d && buf[2048..] == was[2048..]
  {
    TwoClusterChain(v, table, a, b, c, d);
    ReadExact(v, 3, 2, 2048, 0, 2048, was, buf, r);
    TwoClusterContent(v, table, a, b, c, d);
  }

  lemma TwoClusterChain(v: Volume, table: Block, a: Block, b: Block, c: Block, d: Block)
    requires TwoClusters(v, table, a, b, c, d)
    ensures Next(v, 3) == 5 && Linked(v, 3, 2) && Linked(v, 5, 1)
    ensures DataBlock(v, 3, 0) == 12 && DataBlock(v, 3, 1) == 13 && DataBlock(v, 5, 0) == 16 && DataBlock(v, 5, 1) == 17
  {
    assert v.dev[0] == table;
    assert FatBlock(v, 3) == 0 && Next(v, 3) == Word(table, 3) == 5;
    assert Linked(v, 5, 1);
  }

  lemma TwoClusterContent(v: Volume, table: Block, a: Block, b: Block, c: Block, d: Block)
    requires TwoClusters(v, table, a, b, c, d) && Linked(v, 3, 2)
    ensures Content(v, 3, 2, 2048) == a + b + c + d
  {
    TwoClusterChain(v, table, a, b, c, d);
    assert Blocks(v, 5, 1) == [c, d];
    assert Blocks(v, 3, 2) == [a, b] + Blocks(v, 5, 1);
    assert Blocks(v, 3, 2) == [a, b, c, d];
    assert [a, b, c, d][1..] == [b, c, d] && [b, c, d][1..] == [c, d] && [c, d][1..] == [d] && [d][1..] == [];
    assert Flat([d]) == d && Flat([c, d]) == c + d && Flat([b, c, d]) == b + (c + d);
    assert Flat([a, b, c, d]) == a + (b + (c + d));
  }

  /** Such a volume exists, with blocks full of 1, 2, 3 and 4. */
  lemma TwoClustersExist() returns (v: Volume, table: Block)
    ensures TwoClusters(v, table, Repeat(1), Repeat(2), Repeat(3), Repeat(4))
  {
    table := Repeat(0)[12 := 5][20 := 0xf8][21 := 0xff][22 := 0xff][23 := 0x0f];
    v := Volume(map[0 := table, 12 := Repeat(1), 13 := Repeat(2), 16 := Repeat(3), 17 := Repeat(4)], 0, 10, 2);
    ValidBlocks(v, table, Repeat(1), Repeat(2), Repeat(3), Repeat(4));
  }

  lemma ValidBlocks(v: Volume, table: Block, a: Block, b: Block, c: Block, d: Block)
    requires v.dev == map[0 := table, 12 := a, 13 := b, 16 := c, 17 := d] && v.clusterSize == 2 && v.fatLba == 0
    requires |table| == |a| == |b| == |c| == |d| == BLOCK_SIZE
    requires forall i :: 0 <= i < BLOCK_SIZE ==> 0 <= table[i] < 256
    requires forall i :: 0 <= i < BLOCK_SIZE ==> 0 <= a[i] < 256 && 0 <= b[i] < 256 && 0 <= c[i] < 256 && 0 <= d[i] < 256
    ensures v.Valid()
  {}

  /** The end of that chain is where its last entry says so. */
  lemma TwoClusterEnd(v: Volume, table: Block, a: Block, b: Block, c: Block, d: Block)
    requires TwoClusters(v, table, a, b, c, d)
    ensures Next(v, 5) == 0x0fff_fff8 && Walk(v, 3, 2) == Walked(Errno.SUCCESS, 0x0fff_fff8)
  {
    assert v.dev[0] == table;
    assert FatBlock(v, 3) == 0 && Next(v, 3) == Word(table, 3) == 5;
    assert FatBlock(v, 5) == 0 && Next(v, 5) == Word(table, 5) == 0x0fff_fff8;
    assert Walk(v, 5, 1) == Walk(v, Next(v, 5), 0);
    assert Walk(v, 3, 2) == Walk(v, Next(v, 3), 1);
  }

  // ---------------------------------------------------------------------
  // Device errors
  // ---------------------------------------------------------------------

  /** A read that needs a block of the chain that the device does not give fails with an I/O error. */
  lemma DeviceError(v: Volume, start: int, size: nat, offset: nat, end: nat, len: nat, was: seq<int>, b: seq<int>, r: int, q: nat)
    requires v.Valid() && !IsEoc(start) && offset < size && 0 < len && end == End(offset, len, size)
    requires ReadIs(v, start, size, offset, len, was, b, r)
    requires Fetches(v, offset, end, q) && MissingBlock(v, start, q)
    requires forall p: nat :: Fetches(v, offset, end, p) && p < q ==> BlockOk(v, start, p)
    ensures r == -7
  {
    assert !BlockOk(v, start, q);
    var x: nat :| FailsAt(v, start, offset, end, x, r);
    assert x == q;
  }

  /** The cluster of block q is there, but the device does not give the block. */
  ghost predicate MissingBlock(v: Volume, start: int, q: nat)
    requires v.Valid()
  {
    Reached(v, start, q / v.clusterSize) && FileBlock(v, start, q) !in v.dev
  }
}
