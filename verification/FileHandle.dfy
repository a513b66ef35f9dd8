/** Reading through a file handle: src/kernel/src/filesystem/vfs.cc. */
module FileHandle {
  import Errno
  import F = Fat32
  import FatSpec
  import FatTheorems

  class Handle {
    /** The first cluster and the size of the file. */
    const start: int
    const size: nat
    /** The open flags that matter: o_dir and o_read. */
    const isDir: bool
    const canRead: bool
    var pos: nat

    constructor (start: int, size: nat, isDir: bool, canRead: bool)
      ensures this.start == start && this.size == size && this.isDir == isDir && this.canRead == canRead && pos == 0
    {
      this.start, this.size, this.isDir, this.canRead, pos := start, size, isDir, canRead, 0;
    }

    /** `read`: the position moves on by what was read. */
    method Read(fs: F.Fat32, buffer: array<int>, nbytes: nat) returns (res: int)
      requires fs.Valid() && F.InRange(fs.v, start) && nbytes <= buffer.Length
      modifies this`pos, fs.fat, fs.fat.entries, fs.data, fs.data.entries, buffer
      ensures fs.Valid() && pos == old(pos) + if res < 0 then 0 else res
      ensures isDir || !canRead ==> res == Errno.TYPE && buffer[..] == old(buffer[..])
      ensures !isDir && canRead ==> F.ReadIs(fs.v, start, size, old(pos), nbytes, old(buffer[..]), buffer[..], res)
    {
      if isDir { return Errno.TYPE; }
      if !canRead { return Errno.TYPE; }
      if nbytes == 0 { return 0; }
      res := fs.Read(start, size, pos, buffer, nbytes);
      if res < 0 { return; }
      pos := pos + res;
    }

    /** A read from a file whose clusters are all there. */
    method ReadPiece(fs: F.Fat32, buffer: array<int>, n: nat, ghost clusters: nat) returns (piece: seq<int>)
      requires fs.Valid() && F.InRange(fs.v, start) && n <= buffer.Length
      requires FatTheorems.Holds(fs.v, start, clusters, size) && !isDir && canRead
      modifies this`pos, fs.fat, fs.fat.entries, fs.data, fs.data.entries, buffer
      ensures fs.Valid() && pos == old(pos) + |piece|
      ensures piece == FatTheorems.Piece(FatSpec.Content(fs.v, start, clusters, size), old(pos), n)
    {
      ghost var was, offset := buffer[..], pos;
      var r := Read(fs, buffer, n);
      FatTheorems.ReadExact(fs.v, start, clusters, size, offset, n, was, buffer[..], r);
      piece := buffer[..r];
    }

    /**
      The loop of src/user/cat/main.cc, which reads a file piece by piece until
      a read returns 0: together the pieces are exactly the contents of the file.
     */
    method Cat(fs: F.Fat32, buffer: array<int>, n: nat, ghost clusters: nat) returns (all: seq<int>)
      requires fs.Valid() && F.InRange(fs.v, start) && 0 < n <= buffer.Length
      requires FatTheorems.Holds(fs.v, start, clusters, size) && !isDir && canRead && pos == 0
      modifies this`pos, fs.fat, fs.fat.entries, fs.data, fs.data.entries, buffer
      ensures fs.Valid() && all == FatSpec.Content(fs.v, start, clusters, size) && pos == size
    {
      ghost var content := FatSpec.Content(fs.v, start, clusters, size);
      all := [];
      while true
        invariant fs.Valid() && pos == |all| <= size && all == content[..pos]
        decreases size - pos
      {
        var piece := ReadPiece(fs, buffer, n, clusters);
        if piece == [] { return; }
        all := all + piece;
      }
    }

    /** One read of a run. */
    method NextRead(fs: F.Fat32, buffer: array<int>, sizes: seq<nat>, i: nat, all0: seq<int>,
                    ghost clusters: nat, ghost content: seq<int>, ghost offset: nat) returns (all: seq<int>)
      requires fs.Valid() && F.InRange(fs.v, start) && i < |sizes| && sizes[i] <= buffer.Length
      requires FatTheorems.Holds(fs.v, start, clusters, size) && !isDir && canRead
      requires content == FatSpec.Content(fs.v, start, clusters, size)
      requires FatTheorems.ReadSoFar(content, offset, sizes, i, all0, pos)
      modifies this`pos, fs.fat, fs.fat.entries, fs.data, fs.data.entries, buffer
      ensures fs.Valid() && FatTheorems.ReadSoFar(content, offset, sizes, i + 1, all, pos)
    {
      var piece := ReadPiece(fs, buffer, sizes[i], clusters);
      all := all0 + piece;
      FatTheorems.NextPiece(content, offset, sizes, i, all0, old(pos), piece, all, pos);
    }

    /**
      A run of reads of the given sizes through the handle returns the pieces of
      the contents, one after the other, from the position of the handle on.
     */
    method ReadPieces(fs: F.Fat32, buffer: array<int>, sizes: seq<nat>, ghost clusters: nat) returns (all: seq<int>)
      requires fs.Valid() && F.InRange(fs.v, start) && forall i :: 0 <= i < |sizes| ==> sizes[i] <= buffer.Length
      requires FatTheorems.Holds(fs.v, start, clusters, size) && !isDir && canRead
      modifies this`pos, fs.fat, fs.fat.entries, fs.data, fs.data.entries, buffer
      ensures fs.Valid() && pos == old(pos) + |all|
      ensures all == FatTheorems.Pieces(FatSpec.Content(fs.v, start, clusters, size), old(pos), sizes)
    {
      ghost var content := FatSpec.Content(fs.v, start, clusters, size);
      all := [];
      FatTheorems.NothingRead(content, pos, sizes);
      var i := 0;
      while i < |sizes|
        invariant fs.Valid() && 0 <= i <= |sizes| && FatTheorems.ReadSoFar(content, old(pos), sizes, i, all, pos)
      {
        all := NextRead(fs, buffer, sizes, i, all, clusters, content, old(pos));
        i := i + 1;
      }
      FatTheorems.AllPieces(content, old(pos), sizes, all, pos);
    }

    /** Reads whose sizes add up to the file return the whole of it, and then a read returns 0. */
    method ReadWhole(fs: F.Fat32, buffer: array<int>, sizes: seq<nat>, n: nat, ghost clusters: nat)
      returns (all: seq<int>, r: int)
      requires fs.Valid() && F.InRange(fs.v, start) && n <= buffer.Length
      requires forall i :: 0 <= i < |sizes| ==> sizes[i] <= buffer.Length
      requires FatTheorems.Holds(fs.v, start, clusters, size) && !isDir && canRead && pos == 0
      requires size <= FatTheorems.Sum(sizes)
      modifies this`pos, fs.fat, fs.fat.entries, fs.data, fs.data.entries, buffer
      ensures fs.Valid() && all == FatSpec.Content(fs.v, start, clusters, size) && r == 0 && pos == size
    {
      FatTheorems.WholeFile(FatSpec.Content(fs.v, start, clusters, size), sizes);
      all := ReadPieces(fs, buffer, sizes, clusters);
      r := Read(fs, buffer, n);
    }
  }
}
