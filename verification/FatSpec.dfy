/**
  A FAT32 volume as the driver sees it: the allocation table, cluster chains
  (section 4 of the Microsoft FAT Specification) and the bytes of a file.
 */
module FatSpec {
  import opened Alignment
  import Errno
  import opened LruSpec

  const BLOCK_SIZE := 512
  const WORDS_PER_BLOCK := 128

  /** The block numbers where the table and the data begin, and the blocks in a cluster. */
  datatype Volume = Volume(dev: Device, fatLba: nat, dataLba: nat, clusterSize: nat) {
    ghost predicate Valid() {
      && 0 < clusterSize && INVALID !in dev
      && (forall lba :: lba in dev ==> |dev[lba]| == BLOCK_SIZE)
      && (forall lba, i :: lba in dev && 0 <= i < |dev[lba]| ==> 0 <= dev[lba][i] < 256)
      && fatLba + MAX_CLUSTER / WORDS_PER_BLOCK < INVALID
    }
  }

  const MAX_CLUSTER := 0x0fff_fff0

  /** `is_eoc`: the upper four bits of an entry are not masked off. */
  predicate IsEoc(cluster: int) { cluster < 2 || cluster >= MAX_CLUSTER }

  /** Word i of a block of the table, least significant byte first. */
  function Word(b: Block, i: nat): (w: int)
    requires |b| == BLOCK_SIZE && i < WORDS_PER_BLOCK
  {
    b[4 * i] + 0x100 * b[4 * i + 1] + 0x1_0000 * b[4 * i + 2] + 0x100_0000 * b[4 * i + 3]
  }

  function FatBlock(v: Volume, cluster: nat): int { v.fatLba + cluster / WORDS_PER_BLOCK }

  /** The entry of a cluster in the table. */
  function Next(v: Volume, cluster: nat): int
    requires FatBlock(v, cluster) in v.dev && |v.dev[FatBlock(v, cluster)]| == BLOCK_SIZE
  {
    Word(v.dev[FatBlock(v, cluster)], cluster % WORDS_PER_BLOCK)
  }

  /** Where `get_next_cluster_n` ends up, with its error number. */
  datatype Walked = Walked(err: int, cluster: int)

  /** Following n links from a cluster. */
  function Walk(v: Volume, cluster: int, n: nat): (w: Walked)
    requires v.Valid()
    ensures w.err == Errno.SUCCESS || (w.err == Errno.NOT_EXISTS && IsEoc(w.cluster))
         || (w.err == Errno.IO && !IsEoc(w.cluster))
    decreases n
  {
    if n == 0 then Walked(Errno.SUCCESS, cluster)
    else if IsEoc(cluster) then Walked(Errno.NOT_EXISTS, cluster)
    else if FatBlock(v, cluster) !in v.dev then Walked(Errno.IO, cluster)
    else Walk(v, Next(v, cluster), n - 1)
  }

  /** The block number of block j of a cluster. */
  function DataBlock(v: Volume, cluster: int, j: nat): int { v.dataLba + (cluster - 2) * v.clusterSize + j }

  // ---------------------------------------------------------------------
  // Files
  // ---------------------------------------------------------------------

  /** Cluster k of the file is there. The first one is not looked up. */
  predicate Reached(v: Volume, start: int, k: nat)
    requires v.Valid()
  {
    k == 0 || (Walk(v, start, k).err == Errno.SUCCESS && !IsEoc(Walk(v, start, k).cluster))
  }

  function Cluster(v: Volume, start: int, k: nat): int
    requires v.Valid()
  {
    Walk(v, start, k).cluster
  }

  /** The block number of block q of the file. */
  function FileBlock(v: Volume, start: int, q: nat): int
    requires v.Valid()
  {
    DataBlock(v, Cluster(v, start, q / v.clusterSize), q % v.clusterSize)
  }

  /** Block q of the file can be read. */
  predicate BlockOk(v: Volume, start: int, q: nat)
    requires v.Valid()
  {
    Reached(v, start, q / v.clusterSize) && FileBlock(v, start, q) in v.dev
  }

  /** Byte p of the file. */
  function FileByte(v: Volume, start: int, p: nat): int
    requires v.Valid() && FileBlock(v, start, p / BLOCK_SIZE) in v.dev
  {
    v.dev[FileBlock(v, start, p / BLOCK_SIZE)][p % BLOCK_SIZE]
  }

  /** What a read returns when block q cannot be had: nothing at the end of the chain, an error otherwise. */
  function Failure(v: Volume, start: int, q: nat): int
    requires v.Valid()
  {
    var k := q / v.clusterSize;
    if k != 0 && IsEoc(Cluster(v, start, k)) then 0 else Errno.IO
  }

  // ---------------------------------------------------------------------
  // The file as the concatenation of its clusters
  // ---------------------------------------------------------------------

  /** The first n clusters of the chain are linked to each other, and all their blocks can be read. */
  predicate Linked(v: Volume, cluster: int, n: nat)
    requires v.Valid()
    decreases n
  {
    n == 0 ||
    (&& !IsEoc(cluster)
     && (forall j :: 0 <= j < v.clusterSize ==> DataBlock(v, cluster, j) in v.dev)
     && (n > 1 ==> FatBlock(v, cluster) in v.dev && Linked(v, Next(v, cluster), n - 1)))
  }

  /** The blocks of the first n clusters of a chain. */
  function Blocks(v: Volume, cluster: int, n: nat): (bs: seq<Block>)
    requires v.Valid() && Linked(v, cluster, n)
    ensures |bs| == n * v.clusterSize && forall i :: 0 <= i < |bs| ==> |bs[i]| == BLOCK_SIZE
    decreases n
  {
    if n == 0 then []
    else
      var first := seq(v.clusterSize, j requires 0 <= j < v.clusterSize => v.dev[DataBlock(v, cluster, j)]);
      var rest := if n == 1 then [] else Blocks(v, Next(v, cluster), n - 1);
      assert n * v.clusterSize == v.clusterSize + (n - 1) * v.clusterSize;
      first + rest
  }

  /** The bytes of a list of blocks. */
  function Flat(bs: seq<Block>): (s: seq<int>)
    requires forall i :: 0 <= i < |bs| ==> |bs[i]| == BLOCK_SIZE
    ensures |s| == BLOCK_SIZE * |bs|
  {
    if bs == [] then [] else bs[0] + Flat(bs[1..])
  }

  lemma {:induction false} FlatAt(bs: seq<Block>, p: nat)
    requires forall i :: 0 <= i < |bs| ==> |bs[i]| == BLOCK_SIZE
    requires p < BLOCK_SIZE * |bs|
    ensures Flat(bs)[p] == bs[p / BLOCK_SIZE][p % BLOCK_SIZE]
    decreases |bs|
  {
    if p >= BLOCK_SIZE {
      FlatAt(bs[1..], p - BLOCK_SIZE);
    }
  }

  /** The clusters of a linked chain are reached one after the other. */
  lemma {:induction false} LinkedWalk(v: Volume, start: int, n: nat, k: nat)
    requires v.Valid() && Linked(v, start, n) && k < n
    ensures Walk(v, start, k).err == Errno.SUCCESS && !IsEoc(Walk(v, start, k).cluster)
    ensures forall j :: 0 <= j < v.clusterSize ==> DataBlock(v, Walk(v, start, k).cluster, j) in v.dev
    decreases k
  {
    if k > 0 { LinkedWalk(v, Next(v, start), n - 1, k - 1); }
  }

  /** Quotient and remainder of a position in the chain, one cluster further. */
  lemma NextCluster(q: int, c: nat)
    requires 0 < c && c <= q
    ensures (q - c) / c == q / c - 1 && (q - c) % c == q % c && 1 <= q / c
  {
    DivUnique(q - c, q / c - 1, q % c, c);
    assert 0 <= (q - c) / c;
  }

  /** Every block of a linked chain can be read. */
  lemma LinkedBlockOk(v: Volume, start: int, n: nat, q: nat)
    requires v.Valid() && Linked(v, start, n) && q < n * v.clusterSize
    ensures BlockOk(v, start, q)
  {
    QuotientBelow(q, n, v.clusterSize);
    LinkedWalk(v, start, n, q / v.clusterSize);
  }

  /** Block q of a chain is block q - c of the rest of the chain. */
  lemma RestBlock(v: Volume, start: int, n: nat, q: nat)
    requires v.Valid() && Linked(v, start, n) && 1 < n && v.clusterSize <= q < n * v.clusterSize
    ensures FileBlock(v, start, q) == FileBlock(v, Next(v, start), q - v.clusterSize)
  {
    NextCluster(q, v.clusterSize);
  }

  /** Every block of a linked chain is where the file has it. */
  lemma {:induction false} BlocksAt(v: Volume, start: int, n: nat, q: nat)
    requires v.Valid() && Linked(v, start, n) && q < n * v.clusterSize
    ensures BlockOk(v, start, q) && Blocks(v, start, n)[q] == v.dev[FileBlock(v, start, q)]
    decreases n
  {
    var c := v.clusterSize;
    LinkedBlockOk(v, start, n, q);
    if q < c {
      DivUnique(q, 0, q, c);
    } else {
      assert (n - 1) * c == n * c - c;
      RestBlock(v, start, n, q);
      BlocksAt(v, Next(v, start), n - 1, q - c);
    }
  }

  lemma QuotientBelow(q: int, n: nat, c: nat)
    requires 0 < c && 0 <= q < n * c
    ensures 0 <= q / c < n
  {
    assert q == q / c * c + q % c;
    if n <= q / c { MulMonotonic(n, q / c, c); assert false; }
  }

  /** The contents of a file: the first `size` bytes of its concatenated clusters. */
  function Content(v: Volume, start: int, n: nat, size: nat): (s: seq<int>)
    requires v.Valid() && Linked(v, start, n) && size <= BLOCK_SIZE * (n * v.clusterSize)
    ensures |s| == size
  {
    Flat(Blocks(v, start, n))[..size]
  }

  /** Each byte of the contents is where the file has it. */
  lemma ContentAt(v: Volume, start: int, n: nat, size: nat, p: nat)
    requires v.Valid() && Linked(v, start, n) && p < size <= BLOCK_SIZE * (n * v.clusterSize)
    ensures BlockOk(v, start, p / BLOCK_SIZE) && Content(v, start, n, size)[p] == FileByte(v, start, p)
  {
    BlocksAt(v, start, n, p / BLOCK_SIZE);
    FlatAt(Blocks(v, start, n), p);
  }
}
