/** Lazy loading of an ELF program header: validation, the 32-bit arithmetic of a PT_LOAD segment, and the
    page records that stand for its pages until they are touched. */
module Loader {
  import opened Common
  import opened VmState
  import VmRuns
  import VmRefinement

  type Word32 = x: int | 0 <= x < WORD

  datatype Phdr = Phdr(offset: Word32, vaddr: Word32, filesz: Word32, memsz: Word32, writable: bool)

  function Wrap(x: int): Word32 {
    x % WORD
  }

  function RoundUp(x: int): int {
    (x + PGSIZE - 1) / PGSIZE * PGSIZE
  }

  /** ROUND_UP evaluated in 32-bit unsigned arithmetic. */
  function RoundUp32(x: Word32): Word32 {
    Wrap(Wrap(x + PGSIZE - 1) / PGSIZE * PGSIZE)
  }

  /** validate_segment, with the sum of address and size taken in 32 bits. */
  predicate ValidSegment(h: Phdr, fileLength: nat) {
    && h.offset % PGSIZE == h.vaddr % PGSIZE
    && h.offset <= fileLength
    && h.memsz >= h.filesz
    && h.memsz != 0
    && h.vaddr < PHYS_BASE
    && Wrap(h.vaddr + h.memsz) < PHYS_BASE
    && Wrap(h.vaddr + h.memsz) >= h.vaddr
    && h.vaddr >= PGSIZE
  }

  datatype Segment = Segment(filePage: Word32, memPage: Word32, readBytes: Word32, zeroBytes: Word32)

  /** The arguments load passes to load_segment, computed in 32 bits. */
  function SegmentOf(h: Phdr): Segment {
    var filePage := h.offset - h.offset % PGSIZE;
    var memPage := h.vaddr - h.vaddr % PGSIZE;
    var pageOffset := h.vaddr % PGSIZE;
    if h.filesz > 0 then
      var readBytes := Wrap(pageOffset + h.filesz);
      Segment(filePage, memPage, readBytes, Wrap(RoundUp32(Wrap(pageOffset + h.memsz)) - readBytes))
    else
      Segment(filePage, memPage, 0, RoundUp32(Wrap(pageOffset + h.memsz)))
  }

  function Total(g: Segment): nat {
    g.readBytes + g.zeroBytes
  }

  /** No step of that arithmetic wraps for a segment that passed validation, and the pages it will occupy are
      whole, below PHYS_BASE, and cover every byte of the segment. */
  lemma SegmentExact(h: Phdr, fileLength: nat)
    requires ValidSegment(h, fileLength)
    ensures var g := SegmentOf(h);
            && g.readBytes == (if h.filesz > 0 then h.vaddr % PGSIZE + h.filesz else 0)
            && Total(g) == RoundUp(h.vaddr % PGSIZE + h.memsz)
            && Total(g) % PGSIZE == 0 && Total(g) > 0
            && 0 < g.memPage <= h.vaddr && h.vaddr + h.memsz <= g.memPage + Total(g) <= PHYS_BASE
            && g.memPage % PGSIZE == 0 && g.filePage % PGSIZE == 0
            && g.readBytes <= h.vaddr % PGSIZE + h.memsz
  {
    assert h.vaddr + h.memsz < PHYS_BASE by { WrapSum(h.vaddr, h.memsz); }
    PageFloor(h.vaddr);
    PageFloor(h.offset);
    SizesExact(h.vaddr % PGSIZE, h.filesz, h.memsz, PHYS_BASE - (h.vaddr - h.vaddr % PGSIZE));
  }

  lemma PageFloor(x: nat)
    ensures var page := x - x % PGSIZE;
            0 <= page <= x && page % PGSIZE == 0 && (PHYS_BASE - page) % PGSIZE == 0 && (x >= PGSIZE ==> page > 0)
  {
    var q := x / PGSIZE;
    assert x - x % PGSIZE == q * PGSIZE;
    assert (PHYS_BASE - q * PGSIZE) % PGSIZE == 0;
  }

  lemma SizesExact(pageOffset: nat, filesz: nat, memsz: nat, limit: nat)
    requires pageOffset < PGSIZE && filesz <= memsz && 0 < memsz && pageOffset + memsz <= limit <= PHYS_BASE && limit % PGSIZE == 0
    ensures Wrap(pageOffset + filesz) == pageOffset + filesz && Wrap(pageOffset + memsz) == pageOffset + memsz
    ensures var total := RoundUp(pageOffset + memsz);
            && RoundUp32(pageOffset + memsz) == total && Wrap(total - pageOffset - filesz) == total - pageOffset - filesz
            && pageOffset + memsz <= total <= limit && total % PGSIZE == 0
  {
    WrapSmall(pageOffset + memsz);
    WrapSmall(pageOffset + filesz);
    RoundUpBounds(pageOffset + memsz, limit);
    WrapSmall(RoundUp(pageOffset + memsz) - pageOffset - filesz);
  }

  /** A 32-bit sum that is not below its first operand did not wrap. */
  lemma WrapSum(a: Word32, b: Word32)
    ensures Wrap(a + b) >= a <==> a + b < WORD
    ensures a + b < WORD ==> Wrap(a + b) == a + b
  {
  }

  lemma WrapSmall(x: int)
    ensures 0 <= x < WORD ==> Wrap(x) == x
  {
  }

  lemma RoundUpBounds(x: nat, limit: nat)
    requires x <= limit <= PHYS_BASE && limit % PGSIZE == 0
    ensures x <= RoundUp(x) <= limit && RoundUp(x) % PGSIZE == 0
    ensures RoundUp32(x) == RoundUp(x)
  {
    assert limit == limit / PGSIZE * PGSIZE;
    assert x == x / PGSIZE * PGSIZE + x % PGSIZE;
    WrapSmall(x + PGSIZE - 1);
    WrapSmall(RoundUp(x));
  }

  /** Which segments are accepted, in numbers: file and memory agree on the offset in the page, the file reaches the
      start, the memory holds the file part, is not empty, and lies between page 1 and PHYS_BASE. */
  lemma AcceptedIff(h: Phdr, fileLength: nat)
    ensures ValidSegment(h, fileLength) <==>
            && h.offset % PGSIZE == h.vaddr % PGSIZE && h.offset <= fileLength
            && h.filesz <= h.memsz && h.memsz > 0
            && PGSIZE <= h.vaddr && h.vaddr + h.memsz < PHYS_BASE
  {
    WrapSum(h.vaddr, h.memsz);
  }

  // ----- load_segment -----

  /** The record of the `k`-th page.  Offsets are kept in 32 bits. */
  function Record(file: seq<Byte>, writable: bool, g: Segment, k: nat): PageRec {
    var left := g.readBytes - k * PGSIZE;
    var read := if left <= 0 then 0 else Min(left, PGSIZE);
    PageRec(file, writable, read, PGSIZE - read, Wrap(g.filePage + k * PGSIZE), InFilesys, 0, -1)
  }

  function PageNo(pd: nat, g: Segment, k: nat): PageId {
    PageId(pd, g.memPage + k * PGSIZE)
  }

  function Pages(pd: nat, g: Segment, n: nat): set<PageId> {
    set k | 0 <= k < n :: PageNo(pd, g, k)
  }

  /** The pages tile the region: they are exactly the page-aligned addresses inside it. */
  lemma PagesTile(pd: nat, g: Segment, n: nat, id: PageId)
    requires g.memPage % PGSIZE == 0
    ensures id in Pages(pd, g, n) <==>
            id.pd == pd && g.memPage <= id.upage < g.memPage + n * PGSIZE && id.upage % PGSIZE == 0
  {
    if id.pd == pd && g.memPage <= id.upage < g.memPage + n * PGSIZE && id.upage % PGSIZE == 0 {
      ModShift(id.upage, g.memPage);
      var k := (id.upage - g.memPage) / PGSIZE;
      assert id == PageNo(pd, g, k);
    }
    if id in Pages(pd, g, n) {
      var k :| 0 <= k < n && id == PageNo(pd, g, k);
      ModShift(id.upage, k * PGSIZE);
    }
  }

  lemma ModShift(x: int, m: int)
    requires m % PGSIZE == 0
    ensures (x - m) % PGSIZE == x % PGSIZE
  {
    assert m == m / PGSIZE * PGSIZE;
    assert x == x / PGSIZE * PGSIZE + x % PGSIZE;
    assert x - m == (x / PGSIZE - m / PGSIZE) * PGSIZE + x % PGSIZE;
  }

  /** Adds a record for every page; a page that already has one keeps it, as hash_insert does. */
  method LoadSegment(spt: map<PageId, PageRec>, pd: nat, file: seq<Byte>, writable: bool, g: Segment)
    returns (out: map<PageId, PageRec>)
    requires Total(g) % PGSIZE == 0 && g.memPage + Total(g) <= WORD
    ensures out.Keys == spt.Keys + Pages(pd, g, Total(g) / PGSIZE)
    ensures forall id :: id in spt ==> out[id] == spt[id]
    ensures forall k :: 0 <= k < Total(g) / PGSIZE && PageNo(pd, g, k) !in spt ==>
              out[PageNo(pd, g, k)] == Record(file, writable, g, k)
  {
    out := spt;
    var readBytes, zeroBytes, ofs, upage := g.readBytes, g.zeroBytes, g.filePage, g.memPage as nat;
    ghost var n := Total(g) / PGSIZE;
    ghost var k := 0;
    while readBytes > 0 || zeroBytes > 0
      invariant AtPage(g, n, k, readBytes, zeroBytes, ofs, upage)
      invariant out == Added(spt, pd, file, writable, g, k)
      decreases readBytes + zeroBytes
    {
      NextPage(g, n, k, readBytes, zeroBytes, ofs, upage);
      var pageReadBytes := if readBytes < PGSIZE then readBytes else PGSIZE;
      var pageZeroBytes := PGSIZE - pageReadBytes;
      var entry := PageRec(file, writable, pageReadBytes, pageZeroBytes, ofs, InFilesys, 0, -1);
      var id := PageId(pd, upage);
      assert id == PageNo(pd, g, k) && entry == Record(file, writable, g, k);
      if id !in out {
        out := out[id := entry];
      }
      readBytes := readBytes - pageReadBytes;
      zeroBytes := zeroBytes - pageZeroBytes;
      ofs := Wrap(ofs + PGSIZE);
      upage := upage + PGSIZE;
      k := k + 1;
    }
    AddedRecords(spt, pd, file, writable, g, k);
  }

  /** The table with the records of the first `k` pages inserted. */
  ghost function Added(spt: map<PageId, PageRec>, pd: nat, file: seq<Byte>, writable: bool, g: Segment, k: nat): map<PageId, PageRec> {
    if k == 0 then spt else
    var before := Added(spt, pd, file, writable, g, k - 1);
    var id := PageNo(pd, g, k - 1);
    if id in before then before else before[id := Record(file, writable, g, k - 1)]
  }

  lemma PagesSnoc(pd: nat, g: Segment, k: nat)
    requires k > 0
    ensures Pages(pd, g, k) == Pages(pd, g, k - 1) + {PageNo(pd, g, k - 1)}
  {
  }

  lemma {:induction false} AddedKeys(spt: map<PageId, PageRec>, pd: nat, file: seq<Byte>, writable: bool, g: Segment, k: nat)
    ensures Added(spt, pd, file, writable, g, k).Keys == spt.Keys + Pages(pd, g, k)
  {
    if k > 0 {
      AddedKeys(spt, pd, file, writable, g, k - 1);
      PagesSnoc(pd, g, k);
    }
  }

  lemma {:induction false} AddedOld(spt: map<PageId, PageRec>, pd: nat, file: seq<Byte>, writable: bool, g: Segment, k: nat)
    ensures forall id :: id in spt ==>
              id in Added(spt, pd, file, writable, g, k) && Added(spt, pd, file, writable, g, k)[id] == spt[id]
  {
    if k > 0 {
      AddedOld(spt, pd, file, writable, g, k - 1);
    }
  }

  lemma {:induction false} AddedNew(spt: map<PageId, PageRec>, pd: nat, file: seq<Byte>, writable: bool, g: Segment,
                                    k: nat, j: nat)
    requires j < k && PageNo(pd, g, j) !in spt
    ensures PageNo(pd, g, j) in Added(spt, pd, file, writable, g, k)
    ensures Added(spt, pd, file, writable, g, k)[PageNo(pd, g, j)] == Record(file, writable, g, j)
  {
    if j < k - 1 {
      AddedNew(spt, pd, file, writable, g, k - 1, j);
    } else {
      AddedKeys(spt, pd, file, writable, g, j);
      assert PageNo(pd, g, j) !in Pages(pd, g, j);
    }
  }

  lemma AddedRecords(spt: map<PageId, PageRec>, pd: nat, file: seq<Byte>, writable: bool, g: Segment, n: nat)
    ensures var out := Added(spt, pd, file, writable, g, n);
            && out.Keys == spt.Keys + Pages(pd, g, n)
            && (forall id :: id in spt ==> out[id] == spt[id])
            && (forall k :: 0 <= k < n && PageNo(pd, g, k) !in spt ==> out[PageNo(pd, g, k)] == Record(file, writable, g, k))
  {
    AddedKeys(spt, pd, file, writable, g, n);
    AddedOld(spt, pd, file, writable, g, n);
    forall k | 0 <= k < n && PageNo(pd, g, k) !in spt
      ensures Added(spt, pd, file, writable, g, n)[PageNo(pd, g, k)] == Record(file, writable, g, k)
    {
      AddedNew(spt, pd, file, writable, g, n, k);
    }
  }

  /** The loop's variables at its `k`-th page of `n`. */
  predicate AtPage(g: Segment, n: int, k: int, readBytes: int, zeroBytes: int, ofs: int, upage: int) {
    && 0 <= k <= n
    && readBytes == (if g.readBytes <= k * PGSIZE then 0 else g.readBytes - k * PGSIZE)
    && zeroBytes >= 0 && readBytes + zeroBytes == (n - k) * PGSIZE
    && ofs == Wrap(g.filePage + k * PGSIZE) && upage == g.memPage + k * PGSIZE
  }

  lemma NextPage(g: Segment, n: int, k: int, readBytes: int, zeroBytes: int, ofs: int, upage: int)
    requires AtPage(g, n, k, readBytes, zeroBytes, ofs, upage) && (readBytes > 0 || zeroBytes > 0)
    ensures var r := if readBytes < PGSIZE then readBytes else PGSIZE;
            AtPage(g, n, k + 1, readBytes - r, zeroBytes - (PGSIZE - r), Wrap(ofs + PGSIZE), upage + PGSIZE)
  {
    WrapStep(g.filePage + k * PGSIZE);
  }

  lemma WrapStep(x: nat)
    ensures Wrap(Wrap(x) + PGSIZE) == Wrap(x + PGSIZE)
  {
  }

  // ----- lazy equals eager -----

  /** The memory image the ELF specification asks for: the file's bytes, then zeros. */
  function ImageByte(h: Phdr, file: seq<Byte>, i: nat): Byte
    requires i < h.memsz && h.offset + h.filesz <= |file|
  {
    if i < h.filesz then file[h.offset + i] else 0
  }

  /** Byte `a` of the loaded region, wherever the page boundaries fall.  The offset of a page that reads nothing
      does not matter to its bytes. */
  lemma RegionByte(file: seq<Byte>, writable: bool, g: Segment, a: nat)
    requires a < g.readBytes ==> g.filePage + a < WORD
    ensures FileContent(Record(file, writable, g, a / PGSIZE))[a % PGSIZE] ==
            if a < g.readBytes && g.filePage + a < |file| then file[g.filePage + a] else 0
  {
    assert a == a / PGSIZE * PGSIZE + a % PGSIZE;
  }

  lemma PageReadable(file: seq<Byte>, writable: bool, g: Segment, k: nat)
    requires g.readBytes > 0 ==> g.filePage + g.readBytes <= |file| < WORD
    ensures ReadSucceeds(Record(file, writable, g, k))
  {
    if g.readBytes > k * PGSIZE {
      WrapSmall(g.filePage + k * PGSIZE);
    }
  }

  /** A file's length is an off_t. */
  predicate IsFile(file: seq<Byte>) {
    |file| < INT_LIMIT
  }

  /** The segment's file bytes end where the header says. */
  lemma FileEnd(h: Phdr, fileLength: nat)
    requires ValidSegment(h, fileLength) && h.filesz > 0
    ensures SegmentOf(h).filePage + SegmentOf(h).readBytes == h.offset + h.filesz
  {
    SegmentExact(h, fileLength);
  }

  /** Where byte `i` of a segment falls: which page, at which offset, from which file position. */
  lemma AddressPlace(h: Phdr, fileLength: nat, i: nat)
    requires ValidSegment(h, fileLength) && i < h.memsz
    ensures var g := SegmentOf(h); var a := h.vaddr + i - g.memPage;
            && 0 <= a < Total(g) && a / PGSIZE < Total(g) / PGSIZE && g.filePage + a == h.offset + i
            && PageNo(0, g, a / PGSIZE).upage == RoundDown(h.vaddr + i) && a % PGSIZE == (h.vaddr + i) % PGSIZE
  {
    var g := SegmentOf(h);
    SegmentExact(h, fileLength);
    ModShift(h.vaddr + i, g.memPage);
  }

  /** A page faulted in from its record holds, at every address of the segment, the byte that loading the whole
      segment at once would have put there, and every page can be read. */
  lemma LazyEqualsEager(h: Phdr, file: seq<Byte>, i: nat)
    requires IsFile(file) && ValidSegment(h, |file|) && h.offset + h.filesz <= |file| && i < h.memsz
    ensures var g := SegmentOf(h);
            var k := (h.vaddr + i - g.memPage) / PGSIZE;
            && k < Total(g) / PGSIZE
            && PageNo(0, g, k).upage == RoundDown(h.vaddr + i)
            && ReadSucceeds(Record(file, h.writable, g, k))
            && FileContent(Record(file, h.writable, g, k))[(h.vaddr + i) % PGSIZE] == ImageByte(h, file, i)
  {
    var g := SegmentOf(h);
    var a := h.vaddr + i - g.memPage;
    AddressPlace(h, |file|, i);
    SegmentExact(h, |file|);
    RegionByte(file, h.writable, g, a);
    PageReadable(file, h.writable, g, a / PGSIZE);
  }

  /** Bytes of the last page past the end of the segment are zero. */
  lemma PaddingBytes(h: Phdr, file: seq<Byte>, a: nat)
    requires ValidSegment(h, |file|) && h.vaddr % PGSIZE + h.memsz <= a < Total(SegmentOf(h))
    ensures FileContent(Record(file, h.writable, SegmentOf(h), a / PGSIZE))[a % PGSIZE] == 0
  {
    SegmentExact(h, |file|);
    RegionByte(file, h.writable, SegmentOf(h), a);
  }

  /** The records are ones the paging layer accepts, for user pages other than page 0. */
  lemma RecordsAccepted(h: Phdr, file: seq<Byte>, pd: nat, k: nat)
    requires ValidSegment(h, |file|) && k < Total(SegmentOf(h)) / PGSIZE
    ensures VmRuns.FreshRecord(Record(file, h.writable, SegmentOf(h), k))
    ensures var id := PageNo(pd, SegmentOf(h), k); id.upage != 0 && id.upage + PGSIZE <= PHYS_BASE
  {
    SegmentExact(h, |file|);
  }

  // ----- what can be faulted in -----

  /** A file that ends inside the segment has a page that cannot be read: the one its end falls in. */
  lemma ShortPage(file: seq<Byte>, writable: bool, g: Segment)
    requires IsFile(file) && g.filePage <= |file| < g.filePage + g.readBytes
    ensures !ReadSucceeds(Record(file, writable, g, (|file| - g.filePage) / PGSIZE))
  {
    var k := (|file| - g.filePage) / PGSIZE;
    assert k * PGSIZE <= |file| - g.filePage < k * PGSIZE + PGSIZE;
    WrapSmall(g.filePage + k * PGSIZE);
  }

  /** Every page of the segment can be read exactly when the file holds all of its file bytes. */
  lemma AllReadableIff(h: Phdr, file: seq<Byte>)
    requires IsFile(file) && ValidSegment(h, |file|)
    ensures (forall k :: 0 <= k < Total(SegmentOf(h)) / PGSIZE ==> ReadSucceeds(Record(file, h.writable, SegmentOf(h), k)))
            <==> h.filesz == 0 || h.offset + h.filesz <= |file|
  {
    SegmentExact(h, |file|);
    var g := SegmentOf(h);
    if h.filesz == 0 || h.offset + h.filesz <= |file| {
      forall k | 0 <= k < Total(g) / PGSIZE
        ensures ReadSucceeds(Record(file, h.writable, g, k))
      {
        PageReadable(file, h.writable, g, k);
      }
    } else {
      FileEnd(h, |file|);
      ShortPage(file, h.writable, g);
      assert (|file| - g.filePage) / PGSIZE < Total(g) / PGSIZE;
    }
  }

  /** The page at which the running file offset reaches 2 GB. */
  lemma UnseekablePage(file: seq<Byte>, writable: bool, g: Segment)
    requires g.filePage % PGSIZE == 0 && g.filePage < INT_LIMIT
    ensures !SeekOk(Record(file, writable, g, (INT_LIMIT - g.filePage) / PGSIZE))
  {
    var k := (INT_LIMIT - g.filePage) / PGSIZE;
    assert g.filePage + k * PGSIZE == INT_LIMIT by {
      assert (INT_LIMIT - g.filePage) % PGSIZE == 0 by { ModShift(INT_LIMIT, g.filePage); }
    }
    WrapSmall(INT_LIMIT);
  }

  /** file_seek accepts the offset of every page exactly when the segment's pages end within 2 GB in the file. */
  lemma AllSeekableIff(h: Phdr, file: seq<Byte>)
    requires IsFile(file) && ValidSegment(h, |file|)
    ensures (forall k :: 0 <= k < Total(SegmentOf(h)) / PGSIZE ==> SeekOk(Record(file, h.writable, SegmentOf(h), k)))
            <==> SegmentOf(h).filePage + Total(SegmentOf(h)) <= INT_LIMIT
  {
    SegmentExact(h, |file|);
    var g := SegmentOf(h);
    if g.filePage + Total(g) <= INT_LIMIT {
      forall k | 0 <= k < Total(g) / PGSIZE
        ensures SeekOk(Record(file, h.writable, g, k))
      {
        assert k * PGSIZE + PGSIZE <= Total(g);
        WrapSmall(g.filePage + k * PGSIZE);
      }
    } else {
      UnseekablePage(file, h.writable, g);
      assert (INT_LIMIT - g.filePage) / PGSIZE < Total(g) / PGSIZE;
    }
  }

  /** A page that reads bytes of the file has an offset that file_seek accepts: only zero pages can fail. */
  lemma ReadersSeek(h: Phdr, file: seq<Byte>, k: nat)
    requires IsFile(file) && ValidSegment(h, |file|) && h.offset + h.filesz <= |file|
    requires Record(file, h.writable, SegmentOf(h), k).readBytes > 0
    ensures SeekOk(Record(file, h.writable, SegmentOf(h), k))
    ensures Record(file, h.writable, SegmentOf(h), k).ofs == SegmentOf(h).filePage + k * PGSIZE
  {
    SegmentExact(h, |file|);
    FileEnd(h, |file|);
    WrapSmall(SegmentOf(h).filePage + k * PGSIZE);
  }

  /** Bytes of an ELF header and one program header; load gives up on a file that is shorter. */
  const HEADERS_SIZE: nat := 84

  /** Validation does not ask for that: of an accepted 2.25 GB segment of zeros, the page 2 GB in cannot be
      faulted in, because its offset is negative as an off_t. */
  lemma SeekCanFail(file: seq<Byte>)
    requires HEADERS_SIZE <= |file| && IsFile(file)
    ensures var h := Phdr(0, 0x1000, 0, 0x9000_0000, true);
            && ValidSegment(h, |file|) && 0x8_0000 < Total(SegmentOf(h)) / PGSIZE
            && !SeekOk(Record(file, true, SegmentOf(h), 0x8_0000))
  {
    var h := Phdr(0, 0x1000, 0, 0x9000_0000, true);
    SegmentExact(h, |file|);
    UnseekablePage(file, true, SegmentOf(h));
  }

  // ----- a file shorter than its header says -----

  /** The initial machine after one process has mapped one page. */
  function OnePage(kpages: seq<nat>, ram: map<nat, PageData>, swapSlots: seq<PageData>, rec: PageRec): Vm {
    VmRuns.AddRecord(VmRuns.InitialVm(kpages, ram, swapSlots).(live := {1}), PageId(1, 0x1000), rec)
  }

  lemma OnePageReady(kpages: seq<nat>, ram: map<nat, PageData>, swapSlots: seq<PageData>, rec: PageRec)
    requires |kpages| == TOTAL_PAGES
    requires forall i :: 0 <= i < |kpages| ==> kpages[i] != 0 && kpages[i] in ram
    requires forall i, j :: 0 <= i < j < |kpages| ==> kpages[i] != kpages[j]
    requires VmRuns.FreshRecord(rec) && SeekOk(rec)
    ensures var s := OnePage(kpages, ram, swapSlots, rec);
            && VmRefinement.Inv(s) && VmRefinement.FaultReady(s, 1, 0x1000)
            && PageId(1, RoundDown(0x1000)) in s.spt && s.spt[PageId(1, RoundDown(0x1000))] == rec
  {
    var s0 := VmRuns.InitialVm(kpages, ram, swapSlots);
    VmRuns.InitialInv(kpages, ram, swapSlots);
    VmRuns.SameTables(s0, s0.(live := {1}));
    VmRuns.AddRecordRefines(s0.(live := {1}), PageId(1, 0x1000), rec);
  }

  /** A segment that promises one byte more than the file has. */
  function ShortHeader(file: seq<Byte>): Phdr
    requires |file| < PGSIZE
  {
    Phdr(0, 0x1000, |file| + 1, |file| + 1, true)
  }

  lemma ShortAccepted(file: seq<Byte>)
    requires |file| < PGSIZE
    ensures ValidSegment(ShortHeader(file), |file|) && PageNo(1, SegmentOf(ShortHeader(file)), 0) == PageId(1, 0x1000)
    ensures var rec := Record(file, true, SegmentOf(ShortHeader(file)), 0);
            VmRuns.FreshRecord(rec) && SeekOk(rec) && !ReadSucceeds(rec)
  {
    var n, rec := |file| + 1, Record(file, true, SegmentOf(ShortHeader(file)), 0);
    assert rec.readBytes == n && rec.ofs == 0 && rec.zeroBytes == PGSIZE - n;
  }

  /** Such a segment is accepted, its page is added, and the fault on it leaves `occupancy` one below the number
      of taken frames. */
  lemma ShortFileUndercounts(file: seq<Byte>, kpages: seq<nat>, ram: map<nat, PageData>, swapSlots: seq<PageData>, esp: nat)
    requires HEADERS_SIZE <= |file| < PGSIZE && |kpages| == TOTAL_PAGES
    requires forall i :: 0 <= i < |kpages| ==> kpages[i] != 0 && kpages[i] in ram
    requires forall i, j :: 0 <= i < j < |kpages| ==> kpages[i] != kpages[j]
    ensures ValidSegment(ShortHeader(file), |file|) && PageNo(1, SegmentOf(ShortHeader(file)), 0) == PageId(1, 0x1000)
    ensures var s := OnePage(kpages, ram, swapSlots, Record(file, true, SegmentOf(ShortHeader(file)), 0));
            && CanFault(s, PageId(1, RoundDown(0x1000)))
            && Fault(s, 1, 0x1000, esp).1 == Killed(-35)
            && Fault(s, 1, 0x1000, esp).0.occupancy == Occupied(Fault(s, 1, 0x1000, esp).0.frames) - 1
  {
    ShortAccepted(file);
    var rec := Record(file, true, SegmentOf(ShortHeader(file)), 0);
    OnePageReady(kpages, ram, swapSlots, rec);
    VmRuns.LoadCountIffReadSucceeds(OnePage(kpages, ram, swapSlots, rec), 1, 0x1000, esp);
  }

  // ----- permissions -----

  /** Every page of a segment has the segment's permission, and a fault that loads it maps it with that permission. */
  lemma SegmentPermission(h: Phdr, file: seq<Byte>, k: nat, s: Vm, pd: nat, addr: nat, esp: nat)
    requires ValidSegment(h, |file|) && k < Total(SegmentOf(h)) / PGSIZE
    requires VmRefinement.Inv(s) && VmRefinement.FaultReady(s, pd, addr)
    requires var id := PageNo(pd, SegmentOf(h), k);
             id == PageId(pd, RoundDown(addr)) && id in s.spt && s.spt[id] == Record(file, h.writable, SegmentOf(h), k)
    ensures CanFault(s, PageId(pd, RoundDown(addr)))
    ensures var (s', outcome) := Fault(s, pd, addr, esp);
            outcome == Resumed ==>
              PageId(pd, RoundDown(addr)) in s'.ptes && s'.ptes[PageId(pd, RoundDown(addr))].writable == h.writable
  {
    VmRuns.FaultPermission(s, pd, addr, esp);
  }
}
