/** Reading and writing a file's bytes through whole 512-byte sectors. */
module InodeBytes {
  import opened Common
  import opened Bytes

  /** A file's data: `start` is its first sector, `length` its size in bytes. */
  datatype Extent = Extent(start: nat, length: nat)

  type Sectors = seq<seq<Byte>>

  predicate WholeSectors(d: Sectors) {
    forall i :: 0 <= i < |d| ==> |d[i]| == SECTOR_SIZE
  }

  function SectorCount(length: nat): nat {
    (length + SECTOR_SIZE - 1) / SECTOR_SIZE
  }

  predicate OnDevice(d: Sectors, e: Extent) {
    WholeSectors(d) && e.start + SectorCount(e.length) <= |d|
  }

  lemma SectorInExtent(e: Extent, i: nat)
    requires i < e.length
    ensures i / SECTOR_SIZE < SectorCount(e.length)
  {
  }

  /** The byte sequence a file is. */
  function Content(d: Sectors, e: Extent): (c: seq<Byte>)
    requires OnDevice(d, e)
    ensures |c| == e.length
  {
    seq(e.length, i requires 0 <= i < e.length => SectorInExtent(e, i); d[e.start + i / SECTOR_SIZE][i % SECTOR_SIZE])
  }

  /** As Patch, except that writing nothing is possible at any offset. */
  function Written(s: seq<Byte>, at: nat, b: seq<Byte>): seq<Byte>
    requires b == [] || at + |b| <= |s|
  {
    if b == [] then s else Patch(s, at, b)
  }

  /** `n` bytes from `at` on; taking none is possible at any offset. */
  function Taken(s: seq<Byte>, at: nat, n: nat): seq<Byte>
    requires n == 0 || at + n <= |s|
  {
    if n == 0 then [] else s[at..at + n]
  }

  /** That many bytes from that offset lie inside the file. */
  predicate Fits(e: Extent, offset: nat, n: nat) {
    n == 0 || offset + n <= e.length
  }

  /** Bytes a transfer of `size` bytes at `offset` can move before the end of the file. */
  function Reach(e: Extent, size: int, offset: nat): nat {
    if size <= 0 || offset >= e.length then 0 else Min(size, e.length - offset)
  }

  /** Bytes moved: without a bounce buffer only whole sectors from an aligned offset. */
  function Moved(e: Extent, size: int, offset: nat, bounce: bool): nat {
    var n := Reach(e, size, offset);
    if bounce then n else if offset % SECTOR_SIZE != 0 then 0 else n / SECTOR_SIZE * SECTOR_SIZE
  }

  // ----- one chunk -----

  /** Bytes of the file that lie in one sector. */
  lemma InSector(i: nat, offset: nat, chunk: nat)
    requires offset % SECTOR_SIZE + chunk <= SECTOR_SIZE
    ensures offset <= i < offset + chunk <==>
            i / SECTOR_SIZE == offset / SECTOR_SIZE && offset % SECTOR_SIZE <= i % SECTOR_SIZE < offset % SECTOR_SIZE + chunk
    ensures offset <= i < offset + chunk ==> i % SECTOR_SIZE == offset % SECTOR_SIZE + (i - offset)
  {
  }

  lemma ReadChunk(d: Sectors, e: Extent, offset: nat, chunk: nat)
    requires OnDevice(d, e) && offset < e.length && offset + chunk <= e.length && offset % SECTOR_SIZE + chunk <= SECTOR_SIZE
    ensures e.start + offset / SECTOR_SIZE < |d|
    ensures Content(d, e)[offset..offset + chunk] == d[e.start + offset / SECTOR_SIZE][offset % SECTOR_SIZE..offset % SECTOR_SIZE + chunk]
  {
    SectorInExtent(e, offset);
    var part := d[e.start + offset / SECTOR_SIZE][offset % SECTOR_SIZE..offset % SECTOR_SIZE + chunk];
    forall k | 0 <= k < chunk
      ensures Content(d, e)[offset..offset + chunk][k] == part[k]
    {
      InSector(offset + k, offset, chunk);
    }
  }

  /** Patching one sector patches the file, and only there. */
  lemma WriteChunk(d: Sectors, e: Extent, offset: nat, b: seq<Byte>)
    requires OnDevice(d, e) && offset < e.length && offset + |b| <= e.length && offset % SECTOR_SIZE + |b| <= SECTOR_SIZE
    ensures var s := e.start + offset / SECTOR_SIZE;
            && s < |d| && OnDevice(d[s := Patch(d[s], offset % SECTOR_SIZE, b)], e)
            && Content(d[s := Patch(d[s], offset % SECTOR_SIZE, b)], e) == Patch(Content(d, e), offset, b)
  {
    SectorInExtent(e, offset);
    var s := e.start + offset / SECTOR_SIZE;
    var d' := d[s := Patch(d[s], offset % SECTOR_SIZE, b)];
    forall i | 0 <= i < e.length
      ensures Content(d', e)[i] == Patch(Content(d, e), offset, b)[i]
    {
      SectorInExtent(e, i);
      InSector(i, offset, |b|);
    }
  }

  /** A file whose sectors a write leaves alone keeps its bytes. */
  lemma OtherFilesKeep(d: Sectors, d': Sectors, e: Extent, f: Extent)
    requires OnDevice(d, f) && OnDevice(d', f)
    requires forall s :: 0 <= s < |d| && s < |d'| && !(e.start <= s < e.start + SectorCount(e.length)) ==> d'[s] == d[s]
    requires f.start + SectorCount(f.length) <= e.start || e.start + SectorCount(e.length) <= f.start
    ensures Content(d', f) == Content(d, f)
  {
    forall i | 0 <= i < f.length
      ensures Content(d', f)[i] == Content(d, f)[i]
    {
      SectorInExtent(f, i);
    }
  }

  // ----- the transfer loops -----

  lemma WholeSectorsOnly(n: nat, done: nat)
    requires done % SECTOR_SIZE == 0 && done <= n < done + SECTOR_SIZE
    ensures done == n / SECTOR_SIZE * SECTOR_SIZE
  {
  }

  /** Size of the next chunk: what is left of the request, the file and the sector. */
  function Chunk(e: Extent, size: int, offset: nat): int {
    Min(size, Min(e.length - offset, SECTOR_SIZE - offset % SECTOR_SIZE))
  }

  /** How far a transfer can be: anywhere, or without a bounce buffer only at sector boundaries. */
  predicate Progress(e: Extent, size: int, offset: nat, bounce: bool, done: nat) {
    && done <= Reach(e, size, offset)
    && (!bounce ==> done % SECTOR_SIZE == 0 && (offset % SECTOR_SIZE != 0 ==> done == 0))
  }

  /** The next block_read or block_write moves a whole sector. */
  predicate Direct(e: Extent, size: int, at: nat) {
    at % SECTOR_SIZE == 0 && Chunk(e, size, at) == SECTOR_SIZE
  }

  /** A chunk stays inside the request, the file and one sector. */
  lemma NextChunk(e: Extent, size: int, offset: nat, bounce: bool, done: nat)
    requires Progress(e, size, offset, bounce, done) && done < size
    ensures var at, chunk := offset + done, Chunk(e, size - done, offset + done);
            && (chunk <= 0 ==> done == Reach(e, size, offset))
            && (chunk > 0 ==> at + chunk <= e.length && at % SECTOR_SIZE + chunk <= SECTOR_SIZE)
            && (chunk > 0 && (bounce || Direct(e, size - done, at)) ==> Progress(e, size, offset, bounce, done + chunk))
  {
  }

  lemma Finished(e: Extent, size: int, offset: nat, bounce: bool, done: nat)
    requires Progress(e, size, offset, bounce, done) && done == Reach(e, size, offset)
    ensures done == Moved(e, size, offset, bounce)
  {
    if !bounce && offset % SECTOR_SIZE == 0 {
      WholeSectorsOnly(done, done);
    }
  }

  /** Without a bounce buffer the transfer ends at the first part of a sector. */
  lemma Stuck(e: Extent, size: int, offset: nat, done: nat)
    requires Progress(e, size, offset, false, done) && done < size
    requires Chunk(e, size - done, offset + done) > 0 && !Direct(e, size - done, offset + done)
    ensures done == Moved(e, size, offset, false)
  {
    if offset % SECTOR_SIZE == 0 {
      assert (offset + done) % SECTOR_SIZE == 0;
      WholeSectorsOnly(Reach(e, size, offset), done);
    }
  }

  /** Bytes the next pass of a transfer loop moves, or 0 where the loop stops. */
  method ChunkToMove(e: Extent, size: int, offset: nat, bounce: bool, done: nat) returns (chunk: nat)
    requires Progress(e, size, offset, bounce, done) && done < size
    ensures chunk == 0 ==> done == Moved(e, size, offset, bounce)
    ensures done + chunk <= size && Progress(e, size, offset, bounce, done + chunk)
    ensures chunk > 0 ==> offset + done + chunk <= e.length && (offset + done) % SECTOR_SIZE + chunk <= SECTOR_SIZE
  {
    NextChunk(e, size, offset, bounce, done);
    var c := Chunk(e, size - done, offset + done);
    if c <= 0 {
      Finished(e, size, offset, bounce, done);
      return 0;
    }
    if !Direct(e, size - done, offset + done) && !bounce {
      Stuck(e, size, offset, done);
      return 0;
    }
    chunk := c;
  }

  class Device {
    var sectors: Sectors

    constructor (count: nat)
      ensures WholeSectors(sectors) && |sectors| == count
    {
      sectors := seq(count, _ => seq(SECTOR_SIZE, _ => 0));
    }

    /** inode_read_at: the file's bytes from `offset`, as many as there are. */
    method ReadAt(e: Extent, size: int, offset: nat, bounce: bool) returns (buffer: seq<Byte>)
      requires OnDevice(sectors, e)
      ensures |buffer| == Moved(e, size, offset, bounce) <= Reach(e, size, offset)
      ensures Fits(e, offset, |buffer|) && buffer == Taken(Content(sectors, e), offset, |buffer|)
    {
      buffer := [];
      ghost var c := Content(sectors, e);
      while |buffer| < size
        invariant Progress(e, size, offset, bounce, |buffer|) && Fits(e, offset, |buffer|)
        invariant buffer == Taken(c, offset, |buffer|)
        decreases size - |buffer|
      {
        var chunk := ChunkToMove(e, size, offset, bounce, |buffer|);
        if chunk == 0 {
          return;
        }
        var part := ReadSector(e, offset + |buffer|, chunk);
        JoinTaken(c, offset, buffer, chunk);
        buffer := buffer + part;
      }
      Finished(e, size, offset, bounce, |buffer|);
    }

    /** One block_read, and the part of the sector that is wanted. */
    method ReadSector(e: Extent, at: nat, chunk: nat) returns (b: seq<Byte>)
      requires OnDevice(sectors, e) && at < e.length && at + chunk <= e.length && at % SECTOR_SIZE + chunk <= SECTOR_SIZE
      ensures b == Content(sectors, e)[at..at + chunk]
    {
      ReadChunk(sectors, e, at, chunk);
      b := sectors[e.start + at / SECTOR_SIZE][at % SECTOR_SIZE..at % SECTOR_SIZE + chunk];
    }

    /** inode_write_at: replaces exactly the bytes it reports, in this file only; a denied write moves none. */
    method WriteAt(e: Extent, denyWriteCnt: nat, buffer: seq<Byte>, size: int, offset: nat, bounce: bool) returns (written: nat)
      requires OnDevice(sectors, e) && size <= |buffer|
      modifies this
      ensures written == if denyWriteCnt > 0 then 0 else Moved(e, size, offset, bounce)
      ensures written <= Reach(e, size, offset) <= |buffer| && Fits(e, offset, written)
      ensures OnDevice(sectors, e) && |sectors| == |old(sectors)|
      ensures Content(sectors, e) == Written(Content(old(sectors), e), offset, buffer[..written])
      ensures forall s :: 0 <= s < |sectors| && !(e.start <= s < e.start + SectorCount(e.length)) ==> sectors[s] == old(sectors)[s]
    {
      written := 0;
      if denyWriteCnt > 0 {
        return;
      }
      while written < size
        invariant Progress(e, size, offset, bounce, written)
        invariant OnDevice(sectors, e) && |sectors| == |old(sectors)|
        invariant Content(sectors, e) == Written(Content(old(sectors), e), offset, buffer[..written])
        invariant forall s :: 0 <= s < |sectors| && !(e.start <= s < e.start + SectorCount(e.length)) ==> sectors[s] == old(sectors)[s]
        decreases size - written
      {
        var chunk := ChunkToMove(e, size, offset, bounce, written);
        if chunk == 0 {
          return;
        }
        WriteSector(e, offset + written, buffer[written..written + chunk]);
        JoinPatches(Content(old(sectors), e), offset, buffer, written, chunk);
        written := written + chunk;
      }
      Finished(e, size, offset, bounce, written);
    }

    /** One block_write: a whole sector directly, part of one through the bounce buffer. */
    method WriteSector(e: Extent, at: nat, b: seq<Byte>)
      requires OnDevice(sectors, e) && at < e.length && at + |b| <= e.length && at % SECTOR_SIZE + |b| <= SECTOR_SIZE
      modifies this
      ensures OnDevice(sectors, e) && |sectors| == |old(sectors)|
      ensures Content(sectors, e) == Patch(Content(old(sectors), e), at, b)
      ensures forall s :: 0 <= s < |sectors| && !(e.start <= s < e.start + SectorCount(e.length)) ==> sectors[s] == old(sectors)[s]
    {
      WriteChunk(sectors, e, at, b);
      SectorInExtent(e, at);
      var s, ofs := e.start + at / SECTOR_SIZE, at % SECTOR_SIZE;
      if ofs == 0 && |b| == SECTOR_SIZE {
        assert b == Patch(sectors[s], 0, b);
        sectors := sectors[s := b];
      } else {
        var bounce := sectors[s];
        bounce := bounce[..ofs] + b + bounce[ofs + |b|..];
        sectors := sectors[s := bounce];
      }
    }

    /** What has been written is what a read of the same range then returns. */
    method WriteThenRead(e: Extent, buffer: seq<Byte>, offset: nat) returns (written: nat, r: seq<Byte>)
      requires OnDevice(sectors, e)
      modifies this
      ensures written == Reach(e, |buffer|, offset) && r == buffer[..written]
    {
      written := WriteAt(e, 0, buffer, |buffer|, offset, true);
      r := ReadAt(e, written, offset, true);
    }

    /** inode_create fills the data sectors with zeros. */
    method ZeroFill(e: Extent)
      requires OnDevice(sectors, e)
      modifies this
      ensures OnDevice(sectors, e) && |sectors| == |old(sectors)| && Content(sectors, e) == seq(e.length, _ => 0)
      ensures forall s :: 0 <= s < |sectors| && !(e.start <= s < e.start + SectorCount(e.length)) ==> sectors[s] == old(sectors)[s]
    {
      var zeros: seq<Byte> := seq(SECTOR_SIZE, _ => 0);
      var i := 0;
      while i < SectorCount(e.length)
        invariant i <= SectorCount(e.length) && OnDevice(sectors, e) && |sectors| == |old(sectors)|
        invariant forall s :: e.start <= s < e.start + i ==> sectors[s] == zeros
        invariant forall s :: 0 <= s < |sectors| && !(e.start <= s < e.start + i) ==> sectors[s] == old(sectors)[s]
      {
        sectors := sectors[e.start + i := zeros];
        i := i + 1;
      }
      forall k | 0 <= k < e.length
        ensures Content(sectors, e)[k] == 0
      {
        SectorInExtent(e, k);
      }
    }
  }

  lemma JoinTaken(c: seq<Byte>, offset: nat, buffer: seq<Byte>, chunk: nat)
    requires 0 < chunk && offset + |buffer| + chunk <= |c| && buffer == Taken(c, offset, |buffer|)
    ensures var at := offset + |buffer|; buffer + c[at..at + chunk] == Taken(c, offset, |buffer| + chunk)
  {
  }

  lemma JoinPatches(c: seq<Byte>, offset: nat, buffer: seq<Byte>, written: nat, chunk: nat)
    requires 0 < chunk && written + chunk <= |buffer| && offset + written + chunk <= |c|
    ensures Patch(Written(c, offset, buffer[..written]), offset + written, buffer[written..written + chunk]) ==
            Written(c, offset, buffer[..written + chunk])
  {
    assert buffer[..written] + buffer[written..written + chunk] == buffer[..written + chunk];
    PatchMore(c, offset, buffer[..written], buffer[written..written + chunk]);
    assert Patch(c, offset, buffer[..0]) == c;
  }

  /** How many bytes a transfer with a bounce buffer moves, case by case: all of them inside the file, what is left at
      its end, and none past it. */
  lemma MovedCases(e: Extent, size: nat, offset: nat)
    ensures offset + size <= e.length ==> Moved(e, size, offset, true) == size
    ensures offset < e.length < offset + size ==> Moved(e, size, offset, true) == e.length - offset
    ensures e.length <= offset ==> Moved(e, size, offset, true) == 0
  {
  }

  /** A file has as many sectors as its bytes need and not one more. */
  lemma SectorCountIs(length: nat)
    ensures length <= SectorCount(length) * SECTOR_SIZE < length + SECTOR_SIZE
  {
  }
}
