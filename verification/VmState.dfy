/** State of the demand-paging layer and what each of its operations computes.
    A process is identified by its page directory, a page by (directory, user page address).
    Address 0 plays the part of the null pointer, as it does in the frame table. */
module VmState {
  import opened Common

  const TOTAL_PAGES: nat := 367
  const FIRST_EVICTABLE: nat := 25
  const EVICTABLE: nat := TOTAL_PAGES - FIRST_EVICTABLE
  const SECTORS_PER_PAGE: nat := 8

  type PageData = s: seq<Byte> | |s| == PGSIZE witness seq(PGSIZE, _ => 0)

  datatype PageId = PageId(pd: nat, upage: nat)

  datatype Location = InFrame | InSwap | InFilesys

  /** A supplemental page table record. */
  datatype PageRec = PageRec(file: seq<Byte>, writable: bool, readBytes: nat, zeroBytes: nat, ofs: nat,
                             location: Location, kpage: nat, swapLocation: int)

  /** A hardware page table entry. */
  datatype Pte = Pte(kpage: nat, writable: bool, present: bool, accessed: bool, dirty: bool)

  datatype FrameElem = FrameElem(kpage: nat, upage: nat, pagedir: nat, page: Option<PageId>)

  datatype Vm = Vm(
    frames: seq<FrameElem>, occupancy: int, clock: int,
    spt: map<PageId, PageRec>, ptes: map<PageId, Pte>, ram: map<nat, PageData>,
    swapUsed: seq<bool>, slots: seq<PageData>, live: set<nat>)

  function RoundDown(addr: nat): nat {
    addr - addr % PGSIZE
  }

  /** The bytes a file-backed page starts with: `readBytes` bytes of the file, then zeros. */
  function FileContent(rec: PageRec): (d: PageData) {
    seq(PGSIZE, i requires 0 <= i =>
      if i < rec.readBytes && rec.ofs + i < |rec.file| then rec.file[rec.ofs + i] else 0)
  }

  predicate ReadSucceeds(rec: PageRec) {
    rec.readBytes == 0 || rec.ofs + rec.readBytes <= |rec.file|
  }

  /** file_seek asserts that the offset, a signed 32-bit off_t, is not negative. */
  predicate SeekOk(rec: PageRec) {
    rec.ofs < INT_LIMIT
  }

  // ----- frame table -----

  function FrameKey(f: FrameElem): PageId {
    PageId(f.pagedir, f.upage)
  }

  function FreeElem(f: FrameElem): FrameElem {
    FrameElem(f.kpage, 0, 0, None)
  }

  function Occupied(fs: seq<FrameElem>): nat {
    if fs == [] then 0 else Occupied(fs[..|fs| - 1]) + if fs[|fs| - 1].upage != 0 then 1 else 0
  }

  /** Least index at or after `i` of a frame that looks free, or the length. */
  function FirstFree(fs: seq<FrameElem>, i: nat): (r: nat)
    requires i <= |fs|
    ensures i <= r <= |fs|
    ensures r < |fs| ==> fs[r].upage == 0
    ensures forall j :: i <= j < r ==> fs[j].upage != 0
    decreases |fs| - i
  {
    if i == |fs| || fs[i].upage == 0 then i else FirstFree(fs, i + 1)
  }

  function FirstUnused(used: seq<bool>, i: nat): (r: nat)
    requires i <= |used|
    ensures i <= r <= |used|
    ensures r < |used| ==> !used[r]
    ensures forall j :: i <= j < r ==> used[j]
    decreases |used| - i
  {
    if i == |used| || !used[i] then i else FirstUnused(used, i + 1)
  }

  /** Where the clock hand stands after `k` advances from `clock`. */
  function Pos(clock: int, k: nat): (p: nat)
    requires FIRST_EVICTABLE <= clock < TOTAL_PAGES
    ensures FIRST_EVICTABLE <= p < TOTAL_PAGES
  {
    FIRST_EVICTABLE + (clock - FIRST_EVICTABLE + k) % EVICTABLE
  }

  predicate Shape(s: Vm) {
    && |s.frames| == TOTAL_PAGES
    && FIRST_EVICTABLE <= s.clock < TOTAL_PAGES
    && (forall i :: 0 <= i < TOTAL_PAGES ==> s.frames[i].kpage != 0 && s.frames[i].kpage in s.ram)
    && (forall i, j :: 0 <= i < j < TOTAL_PAGES ==> s.frames[i].kpage != s.frames[j].kpage)
    && |s.swapUsed| == |s.slots|
  }

  predicate Accessed(ptes: map<PageId, Pte>, id: PageId) {
    id in ptes && ptes[id].accessed
  }

  function ClearAccessed(ptes: map<PageId, Pte>, id: PageId): map<PageId, Pte> {
    if id in ptes then ptes[id := ptes[id].(accessed := false)] else ptes
  }

  function ClearPresent(ptes: map<PageId, Pte>, id: PageId): map<PageId, Pte> {
    if id in ptes && ptes[id].present then ptes[id := ptes[id].(present := false)] else ptes
  }

  /** Page tables after the accessed bits of the first `k` frames in clock order are cleared. */
  function Sweep(s: Vm, k: nat): map<PageId, Pte>
    requires Shape(s)
  {
    if k == 0 then s.ptes else ClearAccessed(Sweep(s, k - 1), FrameKey(s.frames[Pos(s.clock, k - 1)]))
  }

  /** The hand meets a set accessed bit at its `k`-th stop, having cleared those of the earlier stops. */
  predicate PassesOver(s: Vm, k: nat)
    requires Shape(s)
  {
    Accessed(Sweep(s, k), FrameKey(s.frames[Pos(s.clock, k)]))
  }

  /** Number of frames the hand passes over, counted on from `k`, before it finds a clear accessed bit. */
  function Skipped(s: Vm, k: nat): (r: nat)
    requires Shape(s) && k <= EVICTABLE
    ensures k <= r <= EVICTABLE
    ensures forall j :: k <= j < r ==> PassesOver(s, j)
    ensures r < EVICTABLE ==> !PassesOver(s, r)
    decreases |s.frames| - k
  {
    if k == EVICTABLE || !PassesOver(s, k) then k else Skipped(s, k + 1)
  }

  function Victim(s: Vm): (v: nat)
    requires Shape(s)
    ensures FIRST_EVICTABLE <= v < TOTAL_PAGES
  {
    Pos(s.clock, Skipped(s, 0))
  }

  /** A swap slot is available and the victim has a page record: what eviction relies on. */
  predicate CanEvict(s: Vm) {
    && Shape(s)
    && FirstUnused(s.swapUsed, 0) < |s.swapUsed|
    && s.frames[Victim(s)].page.Some?
    && s.frames[Victim(s)].page.value in s.spt
  }

  function Evict(s: Vm): (r: Vm)
    requires CanEvict(s)
  {
    var v := Victim(s);
    var f := s.frames[v];
    var slot := FirstUnused(s.swapUsed, 0);
    var id := f.page.value;
    s.(ptes := ClearPresent(Sweep(s, Skipped(s, 0)), FrameKey(f)),
       swapUsed := s.swapUsed[slot := true],
       slots := s.slots[slot := s.ram[f.kpage]],
       spt := s.spt[id := s.spt[id].(location := InSwap, kpage := 0, swapLocation := slot * SECTORS_PER_PAGE)],
       frames := s.frames[v := FreeElem(f)],
       occupancy := s.occupancy - 1,
       clock := Pos(s.clock, Skipped(s, 0) + 1))
  }

  predicate CanFindEmpty(s: Vm) {
    Shape(s) && (s.occupancy >= TOTAL_PAGES ==> CanEvict(s))
  }

  /** Index of the frame handed out, or TOTAL_PAGES when none looks free although occupancy says one is. */
  function FoundFrame(s: Vm): (i: nat)
    requires CanFindEmpty(s)
    ensures i <= TOTAL_PAGES
  {
    if s.occupancy < TOTAL_PAGES then FirstFree(s.frames, 0) else Victim(s)
  }

  function AfterFind(s: Vm): Vm
    requires CanFindEmpty(s)
  {
    if s.occupancy < TOTAL_PAGES then s else Evict(s)
  }

  /** Maps page `id` to frame `i` and records it in the frame table and in the page's record. */
  function Install(s: Vm, id: PageId, i: nat): Vm
    requires i < |s.frames| && id in s.spt
  {
    var k := s.frames[i].kpage;
    s.(ptes := s.ptes[id := Pte(k, s.spt[id].writable, true, false, false)],
       frames := s.frames[i := FrameElem(k, id.upage, id.pd, Some(id))],
       occupancy := s.occupancy + 1,
       spt := s.spt[id := s.spt[id].(location := InFrame, kpage := k)])
  }

  // ----- page faults -----

  datatype Outcome = Resumed | Killed(status: int)

  function StackRecord(): PageRec {
    PageRec([], true, 0, 0, 0, InFrame, 0, -1)
  }

  /** `addr >= esp - 32` in 32-bit pointer arithmetic. */
  predicate IsStackAccess(addr: nat, esp: nat) {
    addr >= (esp + WORD - 32) % WORD
  }

  function GrowStack(s: Vm, id: PageId): Vm
    requires CanFindEmpty(s)
  {
    var t := AfterFind(s);
    var i := FoundFrame(s);
    if i == TOTAL_PAGES then t else Install(t.(spt := t.spt[id := StackRecord()]), id, i)
  }

  function SwapIn(s: Vm, id: PageId): Vm
    requires CanFindEmpty(s) && FoundFrame(s) < TOTAL_PAGES
    requires id in AfterFind(s).spt
    requires 0 <= AfterFind(s).spt[id].swapLocation / SECTORS_PER_PAGE < |s.slots|
  {
    var t := AfterFind(s);
    var rec := t.spt[id];
    var slot := rec.swapLocation / SECTORS_PER_PAGE;
    var k := t.frames[FoundFrame(s)].kpage;
    Install(t.(ram := t.ram[k := t.slots[slot]],
               swapUsed := t.swapUsed[slot := false],
               spt := t.spt[id := rec.(swapLocation := -1)]), id, FoundFrame(s))
  }

  function LoadFromFile(s: Vm, id: PageId): Vm
    requires CanFindEmpty(s) && FoundFrame(s) < TOTAL_PAGES
    requires id in AfterFind(s).spt
  {
    var t := AfterFind(s);
    var k := t.frames[FoundFrame(s)].kpage;
    Install(t.(ram := t.ram[k := FileContent(t.spt[id])]), id, FoundFrame(s))
  }

  /** A frame after a read that hit the end of the file. */
  function PartialRead(rec: PageRec, data: PageData): (d: PageData) {
    var n := if rec.ofs >= |rec.file| then 0 else Min(|rec.file| - rec.ofs, Min(rec.readBytes, PGSIZE));
    (if n == 0 then [] else rec.file[rec.ofs..rec.ofs + n]) + data[n..]
  }

  /** The path of a short file read: the frame that was found is freed although nothing was installed in it. */
  function FailLoad(s: Vm, id: PageId): Vm
    requires CanFindEmpty(s) && FoundFrame(s) < TOTAL_PAGES
    requires id in AfterFind(s).spt
  {
    var t := AfterFind(s);
    var i := FoundFrame(s);
    var k := t.frames[i].kpage;
    t.(ram := t.ram[k := PartialRead(t.spt[id], t.ram[k])],
       frames := t.frames[i := FreeElem(t.frames[i])],
       occupancy := t.occupancy - 1)
  }

  /** Everything a fault on page `id` relies on: a frame, a sensible swap location or a file offset that can be
      sought. */
  predicate CanFault(s: Vm, id: PageId) {
    && CanFindEmpty(s)
    && (id in s.spt ==>
          && FoundFrame(s) < TOTAL_PAGES
          && id in AfterFind(s).spt
          && (s.spt[id].location == InSwap ==>
                0 <= AfterFind(s).spt[id].swapLocation / SECTORS_PER_PAGE < |s.slots|)
          && (s.spt[id].location == InFilesys ==> SeekOk(s.spt[id])))
  }

  function Fault(s: Vm, pd: nat, addr: nat, esp: nat): (r: (Vm, Outcome))
    requires CanFault(s, PageId(pd, RoundDown(addr)))
  {
    var id := PageId(pd, RoundDown(addr));
    if id !in s.spt then
      if IsStackAccess(addr, esp) then (GrowStack(s, id), Resumed) else (s, Killed(-1))
    else
      match s.spt[id].location
      case InSwap => (SwapIn(s, id), Resumed)
      case InFilesys =>
        if ReadSucceeds(s.spt[id]) then (LoadFromFile(s, id), Resumed) else (FailLoad(s, id), Killed(-35))
      case InFrame => (s, Resumed)
  }

  // ----- exit -----

  function FreeOwned(fs: seq<FrameElem>, pd: nat): (r: seq<FrameElem>)
    ensures |r| == |fs|
    ensures forall i :: 0 <= i < |fs| ==>
              r[i] == if OwnedBy(fs[i], pd) then FreeElem(fs[i]) else fs[i]
  {
    seq(|fs|, i requires 0 <= i < |fs| =>
      if OwnedBy(fs[i], pd) then FreeElem(fs[i]) else fs[i])
  }

  predicate OwnedBy(f: FrameElem, pd: nat) {
    f.page.Some? && f.page.value.pd == pd
  }

  function CountOwned(fs: seq<FrameElem>, pd: nat): nat {
    if fs == [] then 0 else CountOwned(fs[..|fs| - 1], pd) + if OwnedBy(fs[|fs| - 1], pd) then 1 else 0
  }

  /** page_clear_all: gives back the frames of `pd` and drops its supplemental page table.  Swap bits stay set. */
  function ClearAll(s: Vm, pd: nat): Vm {
    s.(frames := FreeOwned(s.frames, pd),
       occupancy := s.occupancy - CountOwned(s.frames, pd),
       spt := map id | id in s.spt && id.pd != pd :: s.spt[id],
       live := s.live - {pd})
  }

  /** pagedir_destroy. */
  function Destroy(s: Vm, pd: nat): Vm {
    s.(ptes := map id | id in s.ptes && id.pd != pd :: s.ptes[id])
  }

  // ----- user accesses through a present mapping -----

  predicate Mapped(s: Vm, id: PageId) {
    id in s.ptes && s.ptes[id].present && s.ptes[id].kpage in s.ram
  }

  function UserRead(s: Vm, pd: nat, addr: nat): (r: (Vm, Byte))
    requires Mapped(s, PageId(pd, RoundDown(addr)))
  {
    var id := PageId(pd, RoundDown(addr));
    var pte := s.ptes[id];
    (s.(ptes := s.ptes[id := pte.(accessed := true)]), s.ram[pte.kpage][addr % PGSIZE])
  }

  function UserWrite(s: Vm, pd: nat, addr: nat, b: Byte): Vm
    requires Mapped(s, PageId(pd, RoundDown(addr)))
  {
    var id := PageId(pd, RoundDown(addr));
    var pte := s.ptes[id];
    s.(ptes := s.ptes[id := pte.(accessed := true, dirty := true)],
       ram := s.ram[pte.kpage := s.ram[pte.kpage][addr % PGSIZE := b]])
  }
}
