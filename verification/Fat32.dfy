/** The read path of src/kernel/src/filesystem/fat32.cc over its two block caches. */
module Fat32 {
  import opened Alignment
  import opened Basics
  import BlockCache
  import Errno
  import opened FatSpec
  import opened LruSpec

  /** The end of what a read of n bytes at `offset` gets. */
  function End(offset: nat, n: nat, size: nat): int { Min(offset + n, size) }

  /** One past the last block of the cluster that holds byte p. */
  function Beyond(v: Volume, p: nat): nat
    requires 0 < v.clusterSize
  {
    (p / BLOCK_SIZE / v.clusterSize + 1) * v.clusterSize
  }

  /**
    The blocks that a read fetches: from the block of its first byte to the end
    of the cluster of its last byte.
   */
  ghost predicate Fetches(v: Volume, offset: nat, end: nat, q: nat)
    requires 0 < v.clusterSize && 0 < end
  {
    offset / BLOCK_SIZE <= q < Beyond(v, end - 1)
  }

  /** Block numbers within the chain fit in 32 bits and are not the mark of an empty entry. */
  ghost predicate InRange(v: Volume, start: int) {
    v.Valid() && forall q: nat :: Reached(v, start, q / v.clusterSize) ==> 0 <= FileBlock(v, start, q) < INVALID
  }

  /** The result of a read that fails: what happens at the first block that cannot be had. */
  ghost predicate FailsAt(v: Volume, start: int, offset: nat, end: nat, q: nat, r: int)
    requires v.Valid() && 0 < end
  {
    && Fetches(v, offset, end, q) && !BlockOk(v, start, q) && r == Failure(v, start, q)
    && forall p: nat :: Fetches(v, offset, end, p) && p < q ==> BlockOk(v, start, p)
  }

  ghost predicate ByteAt(v: Volume, start: int, p: nat, x: int)
    requires v.Valid()
  {
    FileBlock(v, start, p / BLOCK_SIZE) in v.dev && FileByte(v, start, p) == x
  }

  /** The first n elements of the buffer are the bytes of the file from `offset` on; the others are as before. */
  ghost predicate Filled(v: Volume, start: int, offset: nat, b: seq<int>, was: seq<int>, n: int)
    requires v.Valid()
  {
    && |b| == |was| && 0 <= n <= |b|
    && (forall i :: 0 <= i < n ==> ByteAt(v, start, offset + i, b[i]))
    && (forall i :: n <= i < |b| ==> b[i] == was[i])
  }

  /** Appending a piece of block q to what has been read. */
  lemma FilledMore(v: Volume, start: int, offset: nat, b: seq<int>, was: seq<int>, n: int, q: nat, b': seq<int>, count: nat)
    requires v.Valid() && Filled(v, start, offset, b, was, n) && FileBlock(v, start, q) in v.dev
    requires |b'| == |b| && n + count <= |b| && (0 < count ==> (offset + n) / BLOCK_SIZE == q)
    requires (offset + n) % BLOCK_SIZE + count <= BLOCK_SIZE
    requires forall i :: 0 <= i < |b| ==>
      b'[i] == if n <= i < n + count then v.dev[FileBlock(v, start, q)][(offset + n) % BLOCK_SIZE + (i - n)] else b[i]
    ensures Filled(v, start, offset, b', was, n + count)
  {
    forall i | 0 <= i < n + count ensures ByteAt(v, start, offset + i, b'[i]) {
      if i < n {
        assert ByteAt(v, start, offset + i, b[i]);
      } else {
        assert (offset + i) / BLOCK_SIZE == q && (offset + i) % BLOCK_SIZE == (offset + n) % BLOCK_SIZE + (i - n);
      }
    }
  }

  /** Byte p is in cluster m of the file. */
  lemma InCluster(p: nat, m: nat, c: nat)
    requires 0 < c && BLOCK_SIZE * (c * m) <= p < BLOCK_SIZE * (c * m + c)
    ensures p / BLOCK_SIZE / c == m
  {
    DivUnique(p / BLOCK_SIZE, m, p / BLOCK_SIZE - c * m, c);
  }

  /** The cluster of byte p begins at or before p, and ends behind it. */
  lemma ClusterSpan(p: nat, c: nat)
    requires 0 < c
    ensures var k := p / BLOCK_SIZE / c;
      BLOCK_SIZE * (c * k) <= p < BLOCK_SIZE * (c * k + c) && p / BLOCK_SIZE == c * k + p / BLOCK_SIZE % c
  {
    var q := p / BLOCK_SIZE;
    assert q == q / c * c + q % c;
  }

  lemma ClusterFrom(p: nat, c: nat)
    requires 0 < c
    ensures BLOCK_SIZE * (c * (p / BLOCK_SIZE / c)) <= p
  {
    ClusterSpan(p, c);
  }

  /** The clusters of later bytes are later. */
  lemma ClusterMonotonic(p: nat, q: nat, c: nat)
    requires 0 < c && p <= q
    ensures p / BLOCK_SIZE / c <= q / BLOCK_SIZE / c
    ensures c * (p / BLOCK_SIZE / c) + c <= (q / BLOCK_SIZE / c + 1) * c
  {
    var k, l := p / BLOCK_SIZE / c, q / BLOCK_SIZE / c;
    ClusterSpan(p, c);
    ClusterSpan(q, c);
    if l < k {
      MulMonotonic(l + 1, k, c);
      assert false;
    }
    MulMonotonic(k, l, c);
  }

  /** After n bytes, m is the cluster to go on with, and `next` the block. */
  predicate Position(c: nat, offset: nat, end: nat, n: nat, m: nat, next: nat)
    requires 0 < c && 0 < end
  {
    && offset + n <= end
    && next == (if n == 0 then offset / BLOCK_SIZE else c * m)
    && (n == 0 || offset + n == Min(end, BLOCK_SIZE * (c * m)))
    && (if offset + n < end then m == (offset + n) / BLOCK_SIZE / c else m == (end - 1) / BLOCK_SIZE / c + 1)
  }

  /** The outer loop of `read` after n bytes: all blocks before `next` have been fetched. */
  ghost predicate Progress(v: Volume, start: int, offset: nat, end: nat, n: nat, m: nat, next: nat)
    requires v.Valid() && 0 < end
  {
    && Position(v.clusterSize, offset, end, n, m, next)
    && (forall q: nat :: offset / BLOCK_SIZE <= q < next ==> BlockOk(v, start, q))
  }

  lemma ProgressStart(v: Volume, start: int, offset: nat, end: nat)
    requires v.Valid() && offset < end
    ensures Progress(v, start, offset, end, 0, offset / BLOCK_SIZE / v.clusterSize, offset / BLOCK_SIZE)
  {
    ClusterMonotonic(offset, end - 1, v.clusterSize);
  }

  /** The block to go on with is in cluster m. */
  lemma ProgressNext(v: Volume, start: int, offset: nat, end: nat, n: nat, m: nat, next: nat)
    requires v.Valid() && 0 < end && Progress(v, start, offset, end, n, m, next) && offset + n < end
    ensures next == (offset + n) / BLOCK_SIZE && next / v.clusterSize == m
    ensures next < v.clusterSize * m + v.clusterSize <= Beyond(v, end - 1)
    ensures m <= (end - 1) / BLOCK_SIZE / v.clusterSize
    ensures Fetches(v, offset, end, next)
  {
    ClusterSpan(offset + n, v.clusterSize);
    ClusterMonotonic(offset + n, end - 1, v.clusterSize);
    if n != 0 { assert (offset + n) / BLOCK_SIZE == v.clusterSize * m; }
    assert offset / BLOCK_SIZE <= (offset + n) / BLOCK_SIZE;
  }

  lemma NextStart(c: nat, m: nat)
    ensures c * (m + 1) == c * m + c
  {}

  lemma LastCluster(c: nat, p: nat, end: nat, m: nat)
    requires 0 < c && p < end && m == p / BLOCK_SIZE / c && end <= BLOCK_SIZE * (c * m + c)
    ensures m == (end - 1) / BLOCK_SIZE / c
  {
    ClusterFrom(p, c);
    InCluster(end - 1, m, c);
  }

  lemma PositionStep(c: nat, offset: nat, end: nat, n: nat, m: nat, next: nat, n': nat)
    requires 0 < c && 0 < end && Position(c, offset, end, n, m, next) && offset + n < end && n < n'
    requires offset + n' == Min(end, BLOCK_SIZE * (c * m + c))
    ensures c * (m + 1) == c * m + c && Position(c, offset, end, n', m + 1, c * (m + 1))
  {
    NextStart(c, m);
    if offset + n' < end {
      ClusterBegin(m + 1, c);
    } else {
      LastCluster(c, offset + n, end, m);
    }
  }

  /** The first byte of a cluster is in it. */
  lemma ClusterBegin(m: nat, c: nat)
    requires 0 < c
    ensures BLOCK_SIZE * (c * m) / BLOCK_SIZE / c == m
  {
    assert BLOCK_SIZE * (c * m) / BLOCK_SIZE == m * c;
    DivUnique(m * c, m, 0, c);
  }

  /** All of cluster m has been fetched. */
  lemma ProgressStep(v: Volume, start: int, offset: nat, end: nat, n: nat, m: nat, next: nat, n': nat)
    requires v.Valid() && 0 < end && Progress(v, start, offset, end, n, m, next) && offset + n < end && n < n'
    requires forall q: nat :: next <= q < v.clusterSize * m + v.clusterSize ==> BlockOk(v, start, q)
    requires offset + n' == Min(end, BLOCK_SIZE * (v.clusterSize * m + v.clusterSize))
    ensures v.clusterSize * (m + 1) == v.clusterSize * m + v.clusterSize
    ensures Progress(v, start, offset, end, n', m + 1, v.clusterSize * (m + 1))
  {
    PositionStep(v.clusterSize, offset, end, n, m, next, n');
  }

  /** Everything that the read fetches has been fetched. */
  lemma ProgressDone(v: Volume, start: int, offset: nat, end: nat, n: nat, m: nat, next: nat)
    requires v.Valid() && offset < end && Progress(v, start, offset, end, n, m, next) && offset + n == end
    ensures forall q: nat :: Fetches(v, offset, end, q) ==> BlockOk(v, start, q)
  {}

  /** The read fails at block `bad` of cluster m. */
  lemma ProgressFails(v: Volume, start: int, offset: nat, end: nat, n: nat, m: nat, next: nat, bad: nat)
    requires v.Valid() && 0 < end && Progress(v, start, offset, end, n, m, next) && offset + n < end
    requires next <= bad < v.clusterSize * m + v.clusterSize && !BlockOk(v, start, bad)
    requires forall q: nat :: next <= q < bad ==> BlockOk(v, start, q)
    ensures FailsAt(v, start, offset, end, bad, Failure(v, start, bad))
  {
    ProgressNext(v, start, offset, end, n, m, next);
  }

  /**
    What a read of n bytes at `offset` of a file must do: return the bytes of
    the file, as far as the request and the file go; or, when a block on the way
    cannot be had, fail as a whole.
   */
  ghost predicate ReadIs(v: Volume, start: int, size: nat, offset: nat, n: nat, was: seq<int>, b: seq<int>, r: int)
    requires v.Valid()
  {
    if offset >= size || n == 0 then r == 0 && b == was
    else
      var end := End(offset, n, size);
      if forall q: nat :: Fetches(v, offset, end, q) ==> BlockOk(v, start, q)
      then r == end - offset && Filled(v, start, offset, b, was, r)
      else exists q: nat :: FailsAt(v, start, offset, end, q, r)
  }

  lemma ReadFails(v: Volume, start: int, size: nat, offset: nat, n: nat, was: seq<int>, b: seq<int>, r: int, q: nat)
    requires v.Valid() && offset < size && 0 < n && FailsAt(v, start, offset, End(offset, n, size), q, r)
    ensures ReadIs(v, start, size, offset, n, was, b, r)
  {}

  class Fat32 {
    const v: Volume
    const fat: BlockCache.Cache
    const data: BlockCache.Cache

    ghost predicate Valid()
      reads this, fat, data, fat.entries, data.entries
    {
      && v.Valid() && fat.Valid() && data.Valid() && fat.dev == v.dev && data.dev == v.dev
      && fat != data && fat.entries != data.entries
    }

    constructor (v: Volume, cacheSize: nat)
      requires v.Valid() && 0 < cacheSize
      ensures Valid() && this.v == v
    {
      this.v := v;
      fat := new BlockCache.Cache(cacheSize, v.dev);
      data := new BlockCache.Cache(cacheSize, v.dev);
    }

    /** One link of a chain, through the cache of the table. */
    method Follow(cluster: int) returns (ok: bool, next: int)
      requires Valid() && !IsEoc(cluster)
      modifies fat, fat.entries
      ensures Valid()
      ensures ok == (FatBlock(v, cluster) in v.dev) && (ok ==> next == Next(v, cluster))
    {
      var k;
      next := cluster;
      ok, k := fat.GetBlock(v.fatLba + cluster / WORDS_PER_BLOCK);
      if ok { next := Word(fat.entries[k].data, cluster % WORDS_PER_BLOCK); }
    }

    /** `get_next_cluster_n` */
    method GetNextCluster(cluster: int, inc: nat) returns (err: int, next: int)
      requires Valid()
      modifies fat, fat.entries
      ensures Valid()
      ensures Walked(err, next) == Walk(v, cluster, inc)
    {
      next := cluster;
      var i := 0;
      while i < inc
        invariant 0 <= i <= inc && Valid()
        invariant Walk(v, next, inc - i) == Walk(v, cluster, inc)
      {
        if IsEoc(next) { return Errno.NOT_EXISTS, next; }
        var ok, word := Follow(next);
        if !ok { return Errno.IO, next; }
        next := word;
        i := i + 1;
      }
      err := Errno.SUCCESS;
    }

    /** `memcpy` of a piece of a block into the buffer. */
    method Copy(buffer: array<int>, at: nat, block: Block, from: nat, count: nat)
      requires Valid() && at + count <= buffer.Length && from + count <= |block|
      modifies buffer
      ensures Valid()
      ensures forall i :: 0 <= i < buffer.Length ==>
        buffer[i] == if at <= i < at + count then block[from + (i - at)] else old(buffer[i])
    {
      var i := 0;
      while i < count
        invariant 0 <= i <= count
        invariant forall j :: 0 <= j < buffer.Length ==>
          buffer[j] == if at <= j < at + i then block[from + (j - at)] else old(buffer[j])
      {
        buffer[at + i] := block[from + i];
        i := i + 1;
      }
    }

    /** A block of the file, through the cache of the data. */
    method FetchBlock(ghost start: int, ghost q: nat, cluster: int, j: nat) returns (ok: bool, block: Block)
      requires Valid()
      requires DataBlock(v, cluster, j) == FileBlock(v, start, q) < INVALID
      modifies data, data.entries
      ensures Valid()
      ensures ok == (FileBlock(v, start, q) in v.dev) && (ok ==> block == v.dev[FileBlock(v, start, q)])
    {
      var k;
      ok, k := data.GetBlock(v.dataLba + (cluster - 2) * v.clusterSize + j);
      block := data.entries[k].data;
    }

    /**
      One round of the inner loop of `read`: block q of the file, which is block
      j of the given cluster. When everything has been read already, the block
      is fetched and nothing is copied.
     */
    method ReadBlock(ghost start: int, ghost q: nat, cluster: int, j: nat, size: nat, offset: nat,
                     buffer: array<int>, ghost was: seq<int>, nbytes: nat, bytesRead0: nat)
      returns (ok: bool, bytesRead: nat)
      requires Valid()
      requires DataBlock(v, cluster, j) == FileBlock(v, start, q) < INVALID
      requires nbytes <= buffer.Length && bytesRead0 <= nbytes && offset + bytesRead0 <= size
      requires offset + bytesRead0 == End(offset, nbytes, size) || (offset + bytesRead0) / BLOCK_SIZE == q
      requires Filled(v, start, offset, buffer[..], was, bytesRead0)
      modifies data, data.entries, buffer
      ensures Valid()
      ensures ok == (FileBlock(v, start, q) in v.dev)
      ensures bytesRead0 <= bytesRead <= nbytes && offset + bytesRead <= size
      ensures Filled(v, start, offset, buffer[..], was, bytesRead)
      ensures ok ==> offset + bytesRead == Min(End(offset, nbytes, size), BLOCK_SIZE * (q + 1))
                     || offset + bytesRead0 == offset + bytesRead == End(offset, nbytes, size)
      ensures ok && offset + bytesRead0 < End(offset, nbytes, size) ==> (offset + bytesRead - 1) / BLOCK_SIZE == q
    {
      bytesRead := bytesRead0;
      var block;
      ok, block := FetchBlock(start, q, cluster, j);
      if ok {
        var toCopy := Min(Min(nbytes - bytesRead, size - (offset + bytesRead)), BLOCK_SIZE - (offset + bytesRead) % BLOCK_SIZE);
        ghost var b := buffer[..];
        Copy(buffer, bytesRead, block, (offset + bytesRead) % BLOCK_SIZE, toCopy);
        FilledMore(v, start, offset, b, was, bytesRead, q, buffer[..], toCopy);
        bytesRead := bytesRead + toCopy;
      }
    }

    /** The rounds of the inner loop of `read` in cluster k of the file. */
    method ReadCluster(ghost start: int, ghost k: nat, cluster: int, size: nat, offset: nat,
                       buffer: array<int>, ghost was: seq<int>, nbytes: nat, bytesRead0: nat)
      returns (ok: bool, bytesRead: nat, ghost bad: nat)
      requires Valid() && InRange(v, start)
      requires nbytes <= buffer.Length && bytesRead0 <= nbytes && offset + bytesRead0 < End(offset, nbytes, size)
      requires k == (offset + bytesRead0) / BLOCK_SIZE / v.clusterSize
      requires Reached(v, start, k) && cluster == Cluster(v, start, k)
      requires Filled(v, start, offset, buffer[..], was, bytesRead0)
      modifies data, data.entries, buffer
      ensures Valid()
      ensures bytesRead0 <= bytesRead <= nbytes && Filled(v, start, offset, buffer[..], was, bytesRead)
      ensures ok ==> offset + bytesRead == Min(End(offset, nbytes, size), BLOCK_SIZE * (v.clusterSize * k + v.clusterSize))
      ensures bad <= v.clusterSize * k + v.clusterSize
      ensures forall p: nat :: (offset + bytesRead0) / BLOCK_SIZE <= p < bad ==> BlockOk(v, start, p)
      ensures if ok then bad == v.clusterSize * k + v.clusterSize
              else (offset + bytesRead0) / BLOCK_SIZE <= bad < v.clusterSize * k + v.clusterSize
                   && !BlockOk(v, start, bad) && Failure(v, start, bad) == Errno.IO
    {
      ghost var end, q0 := End(offset, nbytes, size), (offset + bytesRead0) / BLOCK_SIZE;
      ClusterSpan(offset + bytesRead0, v.clusterSize);
      var j := (offset + bytesRead0) / BLOCK_SIZE % v.clusterSize;
      bytesRead, ok, bad := bytesRead0, true, q0;
      while j < v.clusterSize
        invariant Valid() && ok && 0 <= j <= v.clusterSize && bad == v.clusterSize * k + j && q0 <= bad
        invariant bytesRead0 <= bytesRead <= nbytes && Filled(v, start, offset, buffer[..], was, bytesRead)
        invariant if bad == q0 then bytesRead == bytesRead0 else offset + bytesRead == Min(end, BLOCK_SIZE * bad)
        invariant forall p: nat :: q0 <= p < bad ==> BlockOk(v, start, p)
      {
        DivUnique(bad, k, j, v.clusterSize);
        ok, bytesRead := ReadBlock(start, bad, cluster, j, size, offset, buffer, was, nbytes, bytesRead);
        if !ok { return; }
        bad := bad + 1;
        j := j + 1;
      }
    }

    /** The step from cluster to cluster in `read`; `stop` with the result of the read when there is none. */
    method EnterCluster(start: int, k: nat) returns (stop: bool, r: int, cluster: int)
      requires Valid()
      modifies fat, fat.entries
      ensures Valid()
      ensures stop == !Reached(v, start, k)
      ensures stop ==> r == if IsEoc(Cluster(v, start, k)) then 0 else Errno.IO
      ensures !stop ==> cluster == Cluster(v, start, k)
    {
      stop, r, cluster := false, 0, start;
      if k != 0 {
        var err;
        err, cluster := GetNextCluster(start, k);
        if IsEoc(cluster) {
          stop := true;
        } else if err != Errno.SUCCESS {
          stop, r := true, err;
        }
      }
    }

    /** One round of the outer loop of `read`: cluster m of the file. */
    method Round(start: int, ghost m: nat, ghost next: nat, size: nat, offset: nat,
                 buffer: array<int>, ghost was: seq<int>, nbytes: nat, bytesRead0: nat)
      returns (stop: bool, r: int, bytesRead: nat)
      requires Valid() && InRange(v, start)
      requires nbytes <= buffer.Length && bytesRead0 <= nbytes && offset + bytesRead0 < End(offset, nbytes, size)
      requires Filled(v, start, offset, buffer[..], was, bytesRead0)
      requires Progress(v, start, offset, End(offset, nbytes, size), bytesRead0, m, next)
      modifies fat, fat.entries, data, data.entries, buffer
      ensures Valid()
      ensures stop ==> ReadIs(v, start, size, offset, nbytes, was, buffer[..], r)
      ensures !stop ==>
        && bytesRead0 < bytesRead <= nbytes && Filled(v, start, offset, buffer[..], was, bytesRead)
        && Progress(v, start, offset, End(offset, nbytes, size), bytesRead, m + 1, v.clusterSize * (m + 1))
    {
      ghost var end := End(offset, nbytes, size);
      ProgressNext(v, start, offset, end, bytesRead0, m, next);
      bytesRead := bytesRead0;
      var fileCluster := (offset + bytesRead) / BLOCK_SIZE / v.clusterSize;
      var cluster;
      stop, r, cluster := EnterCluster(start, fileCluster);
      if stop {
        ProgressFails(v, start, offset, end, bytesRead, m, next, next);
        ReadFails(v, start, size, offset, nbytes, was, buffer[..], r, next);
        return;
      }
      var ok;
      ghost var bad;
      ok, bytesRead, bad := ReadCluster(start, m, cluster, size, offset, buffer, was, nbytes, bytesRead);
      if !ok {
        ProgressFails(v, start, offset, end, bytesRead0, m, next, bad);
        ReadFails(v, start, size, offset, nbytes, was, buffer[..], Errno.IO, bad);
        return true, Errno.IO, bytesRead;
      }
      ProgressStep(v, start, offset, end, bytesRead0, m, next, bytesRead);
    }

    /** A read that fetches something. */
    method ReadSome(start: int, size: nat, offset: nat, buffer: array<int>, nbytes: nat) returns (r: int)
      requires Valid() && InRange(v, start) && nbytes <= buffer.Length && offset < size && 0 < nbytes
      modifies fat, fat.entries, data, data.entries, buffer
      ensures Valid()
      ensures ReadIs(v, start, size, offset, nbytes, old(buffer[..]), buffer[..], r)
    {
      ghost var end, was := End(offset, nbytes, size), buffer[..];
      ghost var next: nat, m: nat := offset / BLOCK_SIZE, offset / BLOCK_SIZE / v.clusterSize;
      ProgressStart(v, start, offset, end);
      var bytesRead := 0;
      while bytesRead < nbytes
        invariant Valid() && 0 <= bytesRead <= nbytes && offset + bytesRead <= end
        invariant Filled(v, start, offset, buffer[..], was, bytesRead)
        invariant Progress(v, start, offset, end, bytesRead, m, next)
        decreases nbytes - bytesRead
      {
        if offset + bytesRead >= size { break; }
        var stop, res, bytes := Round(start, m, next, size, offset, buffer, was, nbytes, bytesRead);
        if stop { return res; }
        bytesRead := bytes;
        m := m + 1;
        next := v.clusterSize * m;
      }
      ProgressDone(v, start, offset, end, bytesRead, m, next);
      return bytesRead;
    }

    /** `read` */
    method Read(start: int, size: nat, offset: nat, buffer: array<int>, nbytes: nat) returns (r: int)
      requires Valid() && InRange(v, start) && nbytes <= buffer.Length
      modifies fat, fat.entries, data, data.entries, buffer
      ensures Valid()
      ensures ReadIs(v, start, size, offset, nbytes, old(buffer[..]), buffer[..], r)
    {
      if offset >= size { return 0; }
      if nbytes == 0 { return 0; }
      r := ReadSome(start, size, offset, buffer, nbytes);
    }
  }
}
