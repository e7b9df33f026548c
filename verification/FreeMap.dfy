/** The free map and its file: what the file reads back as after each allocation and release. A write of the map
    that gets no bounce buffer moves whole sectors only. */
module FreeMap {
  import opened Common
  import opened BitmapSpec
  import opened Bitmap
  import FsState
  import InodeBytes

  function FileSize(n: nat): nat {
    4 * ElemCnt(n)
  }

  /** Bytes that a write of the whole map moves. */
  function MovedBytes(n: nat, bounce: bool): nat {
    InodeBytes.Moved(InodeBytes.Extent(0, FileSize(n)), FileSize(n), 0, bounce)
  }

  /** The write moves everything. */
  predicate Complete(n: nat, bounce: bool) {
    bounce || FileSize(n) % SECTOR_SIZE == 0
  }

  lemma MovedIs(n: nat, bounce: bool)
    ensures MovedBytes(n, bounce) == if bounce then FileSize(n) else FileSize(n) / SECTOR_SIZE * SECTOR_SIZE
    ensures MovedBytes(n, bounce) <= FileSize(n) && MovedBytes(n, bounce) % 4 == 0
    ensures MovedBytes(n, bounce) == FileSize(n) <==> Complete(n, bounce)
  {
    MovedOf(FileSize(n), ElemCnt(n), bounce);
  }

  lemma MovedOf(size: nat, words: nat, bounce: bool)
    requires size == 4 * words
    ensures var moved := InodeBytes.Moved(InodeBytes.Extent(0, size), size, 0, bounce);
            && moved == (if bounce then size else size / SECTOR_SIZE * SECTOR_SIZE)
            && moved <= size && moved % 4 == 0 && (moved == size <==> bounce || size % SECTOR_SIZE == 0)
  {
    WholeSectors(size);
    assert InodeBytes.Reach(InodeBytes.Extent(0, size), size, 0) == size;
  }

  lemma WholeSectors(x: nat)
    ensures x / SECTOR_SIZE * SECTOR_SIZE <= x && x / SECTOR_SIZE * SECTOR_SIZE % 4 == 0
    ensures x / SECTOR_SIZE * SECTOR_SIZE == x <==> x % SECTOR_SIZE == 0
  {
    assert x == x / SECTOR_SIZE * SECTOR_SIZE + x % SECTOR_SIZE;
  }

  /** The bits that reading the file gives. */
  function ReadsAs(file: seq<Byte>, n: nat): (b: seq<bool>)
    requires |file| == FileSize(n)
    ensures |b| == n
  {
    Bits(Words(file), n)
  }

  /** Reading the file gives the map in memory. */
  predicate InSync(file: seq<Byte>, b: seq<bool>) {
    |file| == FileSize(|b|) && ReadsAs(file, |b|) == b
  }

  /** bitmap_read into any bitmap of that size gives those bits. */
  lemma ReadGives(ws: seq<Word>, file: seq<Byte>, n: nat)
    requires |ws| == ElemCnt(n) && |file| == FileSize(n)
    ensures Bits(ReadBack(ws, file, n), n) == ReadsAs(file, n)
  {
    assert Overlay(Bytes(ws), file) == file;
    MaskLastKeepsBits(Words(file), n);
  }

  /** The front of the file replaced by the first `moved` bytes of the words. */
  function AfterWrite(file: seq<Byte>, ws: seq<Word>, moved: nat): (r: seq<Byte>)
    requires |file| == 4 * |ws| && moved <= |file|
    ensures |r| == |file|
  {
    Bytes(ws)[..moved] + file[moved..]
  }

  /** Bits of `a` below `m` and of `b` from there on. */
  function Merged(a: seq<bool>, b: seq<bool>, m: nat): (r: seq<bool>)
    requires |a| == |b|
    ensures |r| == |a| && forall k :: 0 <= k < |a| ==> r[k] == if k < m then a[k] else b[k]
  {
    seq(|a|, k requires 0 <= k < |a| => if k < m then a[k] else b[k])
  }

  lemma WordAfterWrite(file: seq<Byte>, ws: seq<Word>, moved: nat, i: nat)
    requires |file| == 4 * |ws| && moved <= |file| && moved % 4 == 0 && i < |ws|
    ensures Words(AfterWrite(file, ws, moved))[i] == if 4 * i < moved then ws[i] else Words(file)[i]
  {
    var r := AfterWrite(file, ws, moved);
    assert WordAt(r, i) == if 4 * i < moved then WordAt(Bytes(ws), i) else WordAt(file, i);
    WordsBytes(ws);
    assert Words(Bytes(ws))[i] == ws[i];
  }

  lemma WordOfBit(k: nat, moved: nat)
    requires moved % 4 == 0
    ensures k < 8 * moved <==> 4 * (k / 32) < moved
  {
  }

  /** A write that moves whole words replaces the bits of those words and no others. */
  lemma WriteMerges(file: seq<Byte>, ws: seq<Word>, moved: nat, n: nat)
    requires |ws| == ElemCnt(n) && |file| == FileSize(n) && moved <= |file| && moved % 4 == 0
    ensures ReadsAs(AfterWrite(file, ws, moved), n) == Merged(Bits(ws, n), ReadsAs(file, n), 8 * moved)
  {
    forall k | 0 <= k < n
      ensures ReadsAs(AfterWrite(file, ws, moved), n)[k] == Merged(Bits(ws, n), ReadsAs(file, n), 8 * moved)[k]
    {
      WordAfterWrite(file, ws, moved, k / 32);
      WordOfBit(k, moved);
    }
  }

  /** After an allocation that had to be undone because the map could not be written, the file agrees with memory
      exactly when the run lies behind the part that was written. */
  lemma UndoneSyncIff(b: seq<bool>, i: nat, cnt: nat, m: nat)
    requires RunAt(b, i, cnt, false)
    ensures Merged(Fill(b, i, cnt, true), b, m) == b <==> cnt == 0 || m <= i
  {
    var r := Merged(Fill(b, i, cnt, true), b, m);
    if cnt > 0 && i < m {
      assert r[i] && !b[i];
    } else {
      assert forall k :: 0 <= k < |b| ==> r[k] == b[k];
    }
  }

  /** After a release the file agrees with memory exactly when the run lies in the part that was written. */
  lemma ReleasedSyncIff(b: seq<bool>, i: nat, cnt: nat, m: nat)
    requires RunAt(b, i, cnt, true)
    ensures Merged(Fill(b, i, cnt, false), b, m) == Fill(b, i, cnt, false) <==> cnt == 0 || i + cnt <= m
  {
    var r, f := Merged(Fill(b, i, cnt, false), b, m), Fill(b, i, cnt, false);
    if cnt > 0 && m < i + cnt {
      assert r[i + cnt - 1] && !f[i + cnt - 1];
    } else {
      assert forall k :: 0 <= k < |b| ==> r[k] == f[k];
    }
  }

  /** An allocation in a map of 4128 sectors that gets no bounce buffer: 512 of the file's 516 bytes are written, so
      the file shows a sector as used that is free in memory. */
  lemma FileCanDiffer(b: seq<bool>, i: nat)
    requires |b| == 4128 && i < 4096 && RunAt(b, i, 1, false)
    ensures !Complete(|b|, false) && 8 * MovedBytes(|b|, false) == 4096
    ensures Merged(Fill(b, i, 1, true), b, 8 * MovedBytes(|b|, false)) != b
  {
    UndoneSyncIff(b, i, 1, 4096);
  }

  lemma FullMerge(a: seq<bool>, b: seq<bool>, m: nat)
    requires |a| == |b| <= m
    ensures Merged(a, b, m) == a
  {
  }

  /** The whole file holds every bit. */
  lemma FileHoldsAll(n: nat)
    ensures n <= 8 * FileSize(n)
  {
  }

  class FreeMap {
    const bitmap: Bitmap
    var file: seq<Byte>

    ghost predicate Valid()
      reads this
    {
      bitmap.Valid() && |file| == FileSize(bitmap.bitCnt)
    }

    constructor (bitmap: Bitmap, file: seq<Byte>)
      requires bitmap.Valid() && |file| == FileSize(bitmap.bitCnt)
      ensures this.bitmap == bitmap && this.file == file && Valid()
    {
      this.bitmap, this.file := bitmap, file;
    }

    /** bitmap_write */
    method Write(bounce: bool) returns (success: bool)
      requires Valid()
      modifies `file
      ensures Valid() && (success <==> Complete(bitmap.bitCnt, bounce))
      ensures ReadsAs(file, bitmap.bitCnt) ==
              Merged(bitmap.View(), ReadsAs(old(file), bitmap.bitCnt), 8 * MovedBytes(bitmap.bitCnt, bounce))
    {
      MovedIs(bitmap.bitCnt, bounce);
      var moved := MovedBytes(bitmap.bitCnt, bounce);
      WriteMerges(file, bitmap.bits[..], moved, bitmap.bitCnt);
      file := AfterWrite(file, bitmap.bits[..], moved);
      success := moved == FileSize(bitmap.bitCnt);
    }

    /** free_map_allocate: the map in memory is the specified one. A file that agreed with memory still does
        exactly when there was no run, the write was complete, or the run lies behind what was written. */
    method Allocate(cnt: nat, bounce: bool) returns (sector: Option<nat>)
      requires Valid() && InSync(file, bitmap.View())
      modifies `file, bitmap.bits
      ensures Valid() && (bitmap.View(), sector) == FsState.Allocate(old(bitmap.View()), cnt, Complete(bitmap.bitCnt, bounce))
      ensures var run := FirstRun(old(bitmap.View()), 0, cnt, false);
              InSync(file, bitmap.View()) <==>
              run.None? || Complete(bitmap.bitCnt, bounce) || cnt == 0 || 8 * MovedBytes(bitmap.bitCnt, bounce) <= run.value
    {
      ghost var b := bitmap.View();
      sector := bitmap.ScanFlip(0, cnt, false);
      if sector.Some? {
        ghost var m := 8 * MovedBytes(bitmap.bitCnt, bounce);
        var written := Write(bounce);
        if !written {
          UndoneSyncIff(b, sector.value, cnt, m);
          UndoneIsNothing(b, sector.value, cnt);
          bitmap.SetMultiple(sector.value, cnt, false);
          sector := None;
        } else {
          MovedIs(bitmap.bitCnt, bounce);
          FileHoldsAll(bitmap.bitCnt);
          FullMerge(bitmap.View(), b, m);
        }
      }
    }

    /** free_map_release, which does not look at the outcome of the write. */
    method Release(sector: nat, cnt: nat, bounce: bool)
      requires Valid() && InSync(file, bitmap.View()) && RunAt(bitmap.View(), sector, cnt, true)
      modifies `file, bitmap.bits
      ensures Valid() && bitmap.View() == Fill(old(bitmap.View()), sector, cnt, false)
      ensures InSync(file, bitmap.View()) <==>
              Complete(bitmap.bitCnt, bounce) || cnt == 0 || sector + cnt <= 8 * MovedBytes(bitmap.bitCnt, bounce)
    {
      ghost var b, m := bitmap.View(), 8 * MovedBytes(bitmap.bitCnt, bounce);
      bitmap.SetMultiple(sector, cnt, false);
      var written := Write(bounce);
      ReleasedSyncIff(b, sector, cnt, m);
      MovedIs(bitmap.bitCnt, bounce);
      FileHoldsAll(bitmap.bitCnt);
    }
  }

  lemma UndoneIsNothing(b: seq<bool>, i: nat, cnt: nat)
    requires RunAt(b, i, cnt, false)
    ensures Fill(Fill(b, i, cnt, true), i, cnt, false) == b
  {
  }
}
