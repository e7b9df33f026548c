/** Whole runs of the demand-paging layer: starting and ending processes, page records from the loader,
    faults, and user reads and writes, in any order. */
module VmRuns {
  import opened Common
  import opened VmState
  import opened FlatMemory
  import opened VmRefinement

  // ----- one step -----

  /** A resumed fault leaves the page mapped, so the access that faulted can be retried. */
  lemma FaultMaps(s: Vm, pd: nat, addr: nat, esp: nat)
    requires Inv(s) && FaultReady(s, pd, addr)
    ensures CanFault(s, PageId(pd, RoundDown(addr)))
    ensures Fault(s, pd, addr, esp).1.Resumed? ==> Mapped(Fault(s, pd, addr, esp).0, PageId(pd, RoundDown(addr)))
  {
    var id := PageId(pd, RoundDown(addr));
    FaultDefined(s, pd, addr);
    FindRefines(s);
    if id in s.spt && s.spt[id].location == InFrame {
      FrameHolds(s, id);
    }
  }

  /** A fault on an existing page changes the bytes of no page. */
  lemma FaultKeepsMemory(s: Vm, pd: nat, addr: nat, esp: nat)
    requires Inv(s) && FaultReady(s, pd, addr)
    requires var id := PageId(pd, RoundDown(addr));
             id in s.spt && (s.spt[id].location == InFilesys ==> ReadSucceeds(s.spt[id]))
    ensures CanFault(s, PageId(pd, RoundDown(addr)))
    ensures var (s', outcome) := Fault(s, pd, addr, esp);
            outcome == Resumed && Inv(s') && Abs(s') == Abs(s)
  {
    var id := PageId(pd, RoundDown(addr));
    FaultDefined(s, pd, addr);
    match s.spt[id].location
    case InFrame =>
    case InSwap => SwapInRefines(s, id);
    case InFilesys => LoadRefines(s, id);
  }

  /** A fault outside every page adds a stack page, or kills the process when it is away from the stack pointer. */
  lemma FaultOutside(s: Vm, pd: nat, addr: nat, esp: nat)
    requires Inv(s) && FaultReady(s, pd, addr) && PageId(pd, RoundDown(addr)) !in s.spt
    ensures CanFault(s, PageId(pd, RoundDown(addr)))
    ensures var (s', outcome) := Fault(s, pd, addr, esp);
            if IsStackAccess(addr, esp)
            then outcome == Resumed && Inv(s') && Gains(Abs(s), Abs(s'), PageId(pd, RoundDown(addr)))
            else outcome == Killed(-1) && s' == s
  {
    FaultDefined(s, pd, addr);
    if IsStackAccess(addr, esp) {
      GrowRefines(s, PageId(pd, RoundDown(addr)));
    }
  }

  /** The test that tells stack growth from a bad access, in numbers: up to 32 bytes below the stack pointer. A stack
      pointer below 32 wraps around, so then no user address passes. */
  lemma StackTest(s: Vm, pd: nat, addr: nat, esp: nat)
    requires Inv(s) && FaultReady(s, pd, addr) && PageId(pd, RoundDown(addr)) !in s.spt && esp < WORD
    ensures CanFault(s, PageId(pd, RoundDown(addr)))
    ensures var (s', outcome) := Fault(s, pd, addr, esp);
            && (outcome == Resumed <==> if esp >= 32 then addr + 32 >= esp else addr + 32 >= esp + WORD)
            && (outcome == Resumed || (outcome == Killed(-1) && s' == s))
            && (outcome == Resumed ==> Inv(s') && Gains(Abs(s), Abs(s'), PageId(pd, RoundDown(addr))))
  {
    FaultOutside(s, pd, addr, esp);
  }

  /** A resumed fault maps the page with the permission of its record; a stack page is writable. */
  lemma FaultPermission(s: Vm, pd: nat, addr: nat, esp: nat)
    requires Inv(s) && FaultReady(s, pd, addr)
    ensures CanFault(s, PageId(pd, RoundDown(addr)))
    ensures var id := PageId(pd, RoundDown(addr));
            var (s', outcome) := Fault(s, pd, addr, esp);
            outcome == Resumed ==> id in s'.ptes && s'.ptes[id].writable == (id in s.spt ==> s.spt[id].writable)
  {
    var id := PageId(pd, RoundDown(addr));
    FaultDefined(s, pd, addr);
    FindRefines(s);
    if id in s.spt && s.spt[id].location == InFrame {
      FrameHolds(s, id);
    }
  }

  /** A page read back from swap gives its slot back and is in a frame; the slots of other pages stay marked. */
  lemma SwapSlotReturned(s: Vm, pd: nat, addr: nat, esp: nat, p: PageId)
    requires Inv(s) && FaultReady(s, pd, addr)
    requires var id := PageId(pd, RoundDown(addr)); id in s.spt && s.spt[id].location == InSwap
    requires p in s.spt && s.spt[p].location == InSwap
    ensures CanFault(s, PageId(pd, RoundDown(addr)))
    ensures var id, s' := PageId(pd, RoundDown(addr)), Fault(s, pd, addr, esp).0;
            var slot := s.spt[p].swapLocation / SECTORS_PER_PAGE;
            && id in s'.spt && s'.spt[id].location == InFrame && 0 <= slot < |s'.swapUsed|
            && s'.swapUsed[slot] == (p != id)
  {
    var id := PageId(pd, RoundDown(addr));
    FaultDefined(s, pd, addr);
    FindRefines(s);
    assert PageOk(s, id) && PageOk(s, p) && PageOk(AfterFind(s), p);
    if p != id {
      NoSharing(s, p, id);
    }
  }

  /** An access marks its page as accessed, a write also as dirty; no other page's entry changes. */
  lemma AccessMarks(s: Vm, pd: nat, addr: nat, b: Byte, p: PageId)
    requires Mapped(s, PageId(pd, RoundDown(addr))) && p in s.ptes
    ensures var r, w := UserRead(s, pd, addr).0.ptes, UserWrite(s, pd, addr, b).ptes;
            && r.Keys == s.ptes.Keys && w.Keys == s.ptes.Keys
            && if p == PageId(pd, RoundDown(addr))
               then r[p] == s.ptes[p].(accessed := true) && w[p] == s.ptes[p].(accessed := true, dirty := true)
               else r[p] == s.ptes[p] && w[p] == s.ptes[p]
  {
    assert s.ptes.Keys == s.ptes.Keys + {PageId(pd, RoundDown(addr))};
  }

  /** Destroying a page directory removes its entries and no others. */
  lemma DestroyRemoves(s: Vm, pd: nat, p: PageId)
    ensures p in Destroy(s, pd).ptes <==> p in s.ptes && p.pd != pd
    ensures p in s.ptes && p.pd != pd ==> Destroy(s, pd).ptes[p] == s.ptes[p]
  {
  }

  /** A user read through a present mapping returns the byte of the flat memory and changes nothing. */
  lemma ReadRefines(s: Vm, pd: nat, addr: nat)
    requires Inv(s) && pd in s.live && Mapped(s, PageId(pd, RoundDown(addr)))
    ensures var id := PageId(pd, RoundDown(addr));
            var (s', b) := UserRead(s, pd, addr);
            id in Abs(s) && b == Abs(s)[id][addr % PGSIZE] && Inv(s') && Abs(s') == Abs(s)
  {
    var id := PageId(pd, RoundDown(addr));
    FrameHolds(s, id);
    var pte := s.ptes[id];
    assert UserRead(s, pd, addr).0 == Touched(s, id, pte.(accessed := true), s.ram[pte.kpage]) by {
      assert s.ram[pte.kpage := s.ram[pte.kpage]] == s.ram;
    }
    TouchRefines(s, id, pte.(accessed := true), s.ram[pte.kpage]);
  }

  /** A user write through a present mapping changes that byte of the flat memory and no other. */
  lemma WriteRefines(s: Vm, pd: nat, addr: nat, b: Byte)
    requires Inv(s) && pd in s.live && Mapped(s, PageId(pd, RoundDown(addr)))
    ensures var id := PageId(pd, RoundDown(addr));
            && id in Abs(s) && Inv(UserWrite(s, pd, addr, b))
            && Abs(UserWrite(s, pd, addr, b)) == Abs(s)[id := Abs(s)[id][addr % PGSIZE := b]]
  {
    var id := PageId(pd, RoundDown(addr));
    FrameHolds(s, id);
    var pte := s.ptes[id];
    TouchRefines(s, id, pte.(accessed := true, dirty := true), s.ram[pte.kpage][addr % PGSIZE := b]);
  }

  function Touched(s: Vm, id: PageId, pte: Pte, d: PageData): Vm {
    s.(ptes := s.ptes[id := pte], ram := s.ram[pte.kpage := d])
  }

  lemma TouchKeepsInv(s: Vm, id: PageId, pte: Pte, d: PageData)
    requires Inv(s) && Holds(s, id, pte.kpage)
    requires pte == s.ptes[id].(accessed := pte.accessed, dirty := pte.dirty)
    ensures Inv(Touched(s, id, pte, d))
  {
    var u := Touched(s, id, pte, d);
    forall i | 0 <= i < TOTAL_PAGES
      ensures FrameOk(u, u.frames[i])
    {
      assert FrameOk(s, s.frames[i]);
    }
    forall p | p in s.spt
      ensures PageOk(u, p)
    {
      assert PageOk(s, p);
    }
  }

  lemma TouchRefines(s: Vm, id: PageId, pte: Pte, d: PageData)
    requires Inv(s) && Holds(s, id, pte.kpage)
    requires pte == s.ptes[id].(accessed := pte.accessed, dirty := pte.dirty)
    ensures Inv(Touched(s, id, pte, d)) && Abs(Touched(s, id, pte, d)) == Abs(s)[id := d]
  {
    TouchKeepsInv(s, id, pte, d);
    forall p | p in s.spt && p != id
      ensures Content(Touched(s, id, pte, d), p) == Content(s, p)
    {
      TouchKeepsContent(s, id, pte, d, p);
    }
    AbsUpdate(s, Touched(s, id, pte, d), id, d);
  }

  lemma TouchKeepsContent(s: Vm, id: PageId, pte: Pte, d: PageData, p: PageId)
    requires Inv(s) && Holds(s, id, pte.kpage) && Inv(Touched(s, id, pte, d)) && p in s.spt && p != id
    ensures Content(Touched(s, id, pte, d), p) == Content(s, p)
  {
    if s.spt[p].location == InFrame {
      NoSharing(s, p, id);
    }
  }

  lemma ClearAllKeepsPage(s: Vm, pd: nat, p: PageId)
    requires Inv(s) && p in s.spt && p.pd != pd
    ensures PageOk(ClearAll(s, pd), p)
  {
    var t := ClearAll(s, pd);
    assert PageOk(s, p);
    if s.spt[p].location == InFrame {
      var i :| 0 <= i < TOTAL_PAGES && s.frames[i].page == Some(p);
      assert t.frames[i].page == Some(p);
    }
  }

  lemma ClearAllKeepsFrames(s: Vm, pd: nat)
    requires Inv(s)
    ensures var t := ClearAll(s, pd);
            Shape(t) && t.occupancy == Occupied(t.frames) && forall i :: 0 <= i < TOTAL_PAGES ==> FrameOk(t, t.frames[i])
  {
    var t := ClearAll(s, pd);
    OccupiedFreed(s, s.frames, pd);
    forall i | 0 <= i < TOTAL_PAGES
      ensures FrameOk(t, t.frames[i])
    {
      assert FrameOk(s, s.frames[i]);
    }
  }

  lemma ClearAllKeepsInv(s: Vm, pd: nat)
    requires Inv(s)
    ensures Inv(ClearAll(s, pd))
  {
    var t := ClearAll(s, pd);
    ClearAllKeepsFrames(s, pd);
    forall p | p in t.spt
      ensures PageOk(t, p)
    {
      ClearAllKeepsPage(s, pd, p);
    }
  }

  /** page_clear_all removes exactly the pages of the process and gives back exactly its frames. */
  lemma ClearAllRefines(s: Vm, pd: nat)
    requires Inv(s)
    ensures Inv(ClearAll(s, pd))
    ensures Abs(ClearAll(s, pd)) == map id | id in Abs(s) && id.pd != pd :: Abs(s)[id]
  {
    ClearAllKeepsInv(s, pd);
  }

  // ----- events -----

  /** What page_build leaves in a record for load_segment. */
  predicate FreshRecord(rec: PageRec) {
    && rec.location == InFilesys && rec.kpage == 0 && rec.swapLocation == -1
    && rec.readBytes + rec.zeroBytes == PGSIZE
  }

  function AddRecord(s: Vm, id: PageId, rec: PageRec): Vm {
    if id in s.spt then s else s.(spt := s.spt[id := rec])
  }

  predicate Step(s: Vm, e: Event, s': Vm) {
    match e
    case Start(pd) =>
      && pd !in s.live && (forall id :: id in s.ptes ==> id.pd != pd)
      && s' == s.(live := s.live + {pd})
    case AddPage(id, rec) =>
      && id.pd in s.live && id.upage != 0 && FreshRecord(rec) && s' == AddRecord(s, id, rec)
    case FaultAt(pd, addr, esp) =>
      var id := PageId(pd, RoundDown(addr));
      && FaultReady(s, pd, addr) && !Mapped(s, id)
      && (id in s.spt && s.spt[id].location == InFilesys ==> ReadSucceeds(s.spt[id]))
      && CanFault(s, id) && s' == Fault(s, pd, addr, esp).0
    case Read(pd, addr, v) =>
      && pd in s.live && Mapped(s, PageId(pd, RoundDown(addr))) && (s', v) == UserRead(s, pd, addr)
    case Write(pd, addr, v) =>
      var id := PageId(pd, RoundDown(addr));
      && pd in s.live && Mapped(s, id) && s.ptes[id].writable && s' == UserWrite(s, pd, addr, v)
    case Clear(pd) => pd in s.live && s' == ClearAll(s, pd)
    case DestroyPd(pd) => pd !in s.live && s' == Destroy(s, pd)
  }

  lemma AddRecordKeepsInv(s: Vm, id: PageId, rec: PageRec)
    requires Inv(s) && id !in s.spt && id.pd in s.live && id.upage != 0 && FreshRecord(rec)
    ensures Inv(AddRecord(s, id, rec))
  {
    var t := AddRecord(s, id, rec);
    forall i | 0 <= i < TOTAL_PAGES
      ensures FrameOk(t, t.frames[i])
    {
      assert FrameOk(s, s.frames[i]);
    }
    forall p | p in t.spt
      ensures PageOk(t, p)
    {
      if p != id {
        assert PageOk(s, p);
      }
    }
  }

  lemma AddRecordRefines(s: Vm, id: PageId, rec: PageRec)
    requires Inv(s) && id !in s.spt && id.pd in s.live && id.upage != 0 && FreshRecord(rec)
    ensures Inv(AddRecord(s, id, rec)) && Abs(AddRecord(s, id, rec)) == Abs(s)[id := FileContent(rec)]
  {
    AddRecordKeepsInv(s, id, rec);
  }

  lemma SameTables(s: Vm, t: Vm)
    requires Inv(s)
    requires t == s.(ptes := t.ptes, live := t.live)
    requires s.live <= t.live
    requires forall id :: id in s.ptes && id.pd in s.live ==> id in t.ptes && t.ptes[id] == s.ptes[id]
    requires forall id :: id in t.ptes && id.pd in t.live ==> id in s.ptes && id.pd in s.live && t.ptes[id] == s.ptes[id]
    ensures Inv(t) && Abs(t) == Abs(s)
  {
    forall p | p in s.spt
      ensures PageOk(t, p)
    {
      assert PageOk(s, p);
    }
    forall i | 0 <= i < TOTAL_PAGES
      ensures FrameOk(t, t.frames[i])
    {
      assert FrameOk(s, s.frames[i]);
      if s.frames[i].upage != 0 {
        assert PageOk(s, FrameKey(s.frames[i]));
      }
    }
    assert Inv(t);
    forall p | p in s.spt
      ensures Content(t, p) == Content(s, p)
    {
    }
  }

  /** Every step keeps the invariant and is a step of the flat memory. */
  lemma StepRefines(s: Vm, e: Event, s': Vm)
    requires Inv(s) && Step(s, e, s')
    ensures Inv(s') && FlatStep(Abs(s), e, Abs(s'))
  {
    match e
    case Start(pd) => SameTables(s, s');
    case AddPage(id, rec) => if id !in s.spt { AddRecordRefines(s, id, rec); }
    case FaultAt(pd, addr, esp) =>
      if PageId(pd, RoundDown(addr)) in s.spt {
        FaultKeepsMemory(s, pd, addr, esp);
      } else {
        FaultOutside(s, pd, addr, esp);
      }
    case Read(pd, addr, v) => ReadRefines(s, pd, addr);
    case Write(pd, addr, v) => WriteRefines(s, pd, addr, v);
    case Clear(pd) => ClearAllRefines(s, pd);
    case DestroyPd(pd) => SameTables(s, s');
  }

  // ----- runs -----

  predicate Run(states: seq<Vm>, events: seq<Event>) {
    && |states| == |events| + 1
    && Inv(states[0])
    && forall i :: 0 <= i < |events| ==> Step(states[i], events[i], states[i + 1])
  }

  lemma {:induction false} RunKeepsInv(states: seq<Vm>, events: seq<Event>, n: nat)
    requires Run(states, events) && n <= |events|
    ensures Inv(states[n])
  {
    if n > 0 {
      RunKeepsInv(states, events, n - 1);
      assert Step(states[n - 1], events[n - 1], states[n - 1 + 1]);
      StepRefines(states[n - 1], events[n - 1], states[n]);
    }
  }

  /** Over every run the invariant holds throughout, and the contents of the pages go through a run of the
      flat memory with the same events. */
  lemma RunRefines(states: seq<Vm>, events: seq<Event>) returns (mems: seq<Flat>)
    requires Run(states, events)
    ensures |mems| == |states|
    ensures forall i :: 0 <= i < |states| ==> Inv(states[i]) && mems[i] == Abs(states[i])
    ensures FlatRun(mems, events)
  {
    forall i | 0 <= i < |states|
      ensures Inv(states[i])
    {
      RunKeepsInv(states, events, i);
    }
    mems := seq(|states|, i requires 0 <= i < |states| => Abs(states[i]));
    forall i | 0 <= i < |events|
      ensures FlatStep(mems[i], events[i], mems[i + 1])
    {
      StepRefines(states[i], events[i], states[i + 1]);
    }
  }

  /** A read returns the last value written to its address, whatever happened to the page in between. */
  lemma ReadsLastWrite(states: seq<Vm>, events: seq<Event>, i: nat, j: nat)
    requires Run(states, events) && i < j < |events|
    requires events[i].Write? && events[j].Read?
    requires events[i].pd == events[j].pd && events[i].addr == events[j].addr
    requires forall k :: i < k < j ==>
               !Disturbs(events[k], PageId(events[i].pd, RoundDown(events[i].addr)), events[i].addr % PGSIZE)
    ensures events[j].value == events[i].value
  {
    var mems := RunRefines(states, events);
    FlatReadsLastWrite(mems, events, i, j);
  }

  lemma FindKeepsOthers(s: Vm, id: PageId)
    requires Inv(s) && id in s.spt && CanFindEmpty(s)
    ensures id in AfterFind(s).spt && (s.spt[id].location == InFilesys ==> AfterFind(s).spt[id] == s.spt[id])
  {
    if s.occupancy >= TOTAL_PAGES {
      assert FrameOk(s, s.frames[Victim(s)]);
    }
  }

  lemma FaultKeepsRecord(s: Vm, pd: nat, addr: nat, esp: nat, id: PageId)
    requires CanFault(s, PageId(pd, RoundDown(addr))) && id in s.spt && id in AfterFind(s).spt
    requires s.spt[id].location == InFilesys ==> AfterFind(s).spt[id] == s.spt[id]
    ensures var t := Fault(s, pd, addr, esp).0;
            && id in t.spt
            && (s.spt[id].location == InFilesys && id != PageId(pd, RoundDown(addr)) ==> t.spt[id] == s.spt[id])
  {
  }

  /** A page in its file stays there, with the record it was given, until a fault on it reads all its bytes. */
  lemma StepKeepsRecord(s: Vm, e: Event, s': Vm, id: PageId)
    requires Inv(s) && Step(s, e, s') && id in s.spt && !(e.Clear? && e.pd == id.pd)
    ensures id in s'.spt
    ensures s.spt[id].location == InFilesys ==> s'.spt[id] == s.spt[id] || ReadSucceeds(s.spt[id])
  {
    if e.FaultAt? {
      FindKeepsOthers(s, id);
      FaultKeepsRecord(s, e.pd, e.addr, e.esp, id);
    }
  }

  lemma StepAt(states: seq<Vm>, events: seq<Event>, n: nat)
    requires Run(states, events) && n < |events|
    ensures Step(states[n], events[n], states[n + 1])
  {
  }

  lemma {:induction false} StaysOrLoads(states: seq<Vm>, events: seq<Event>, i: nat, k: nat)
    requires Run(states, events) && i < k <= |events| && events[i].AddPage? && events[i].id !in states[i].spt
    requires forall n :: i < n < k ==> !(events[n].Clear? && events[n].pd == events[i].id.pd)
    ensures events[i].id in states[k].spt
    ensures states[k].spt[events[i].id] == events[i].rec || ReadSucceeds(events[i].rec)
    ensures events[i].rec.location == InFilesys
  {
    if k == i + 1 {
      StepAt(states, events, i);
    } else {
      StaysOrLoads(states, events, i, k - 1);
      RecordStays(states, events, k - 1, events[i].id);
    }
  }

  lemma RecordStays(states: seq<Vm>, events: seq<Event>, n: nat, id: PageId)
    requires Run(states, events) && n < |events| && id in states[n].spt && !(events[n].Clear? && events[n].pd == id.pd)
    ensures id in states[n + 1].spt
    ensures states[n].spt[id].location == InFilesys ==>
              states[n + 1].spt[id] == states[n].spt[id] || ReadSucceeds(states[n].spt[id])
  {
    RunKeepsInv(states, events, n);
    StepAt(states, events, n);
    StepKeepsRecord(states[n], events[n], states[n + 1], id);
  }

  /** A page that is read has been loaded, so its record could be read in full. */
  lemma ReadWasLoaded(states: seq<Vm>, events: seq<Event>, i: nat, j: nat)
    requires Run(states, events) && i < j < |events| && events[i].AddPage? && events[i].id !in states[i].spt
    requires events[j].Read? && events[i].id == PageId(events[j].pd, RoundDown(events[j].addr))
    requires forall n :: i < n < j ==> !(events[n].Clear? && events[n].pd == events[i].id.pd)
    ensures ReadSucceeds(events[i].rec)
  {
    StaysOrLoads(states, events, i, j);
    RunKeepsInv(states, events, j);
    StepAt(states, events, i);
    StepAt(states, events, j);
  }

  /** A read of a file-backed page nobody wrote to returns the byte of the file, or zero past its read bytes. */
  lemma ReadsFileByte(states: seq<Vm>, events: seq<Event>, i: nat, j: nat)
    requires Run(states, events) && i < j < |events|
    requires events[i].AddPage? && events[j].Read? && events[i].id !in states[i].spt
    requires events[i].id == PageId(events[j].pd, RoundDown(events[j].addr))
    requires forall k :: i < k < j ==> !Disturbs(events[k], events[i].id, events[j].addr % PGSIZE)
    ensures var rec := events[i].rec;
            var ofs := events[j].addr % PGSIZE;
            && (ofs < rec.readBytes ==> rec.ofs + ofs < |rec.file| && events[j].value == rec.file[rec.ofs + ofs])
            && (ofs >= rec.readBytes ==> events[j].value == 0)
  {
    var mems := RunRefines(states, events);
    FlatReadsFileByte(mems, events, i, j);
    ReadWasLoaded(states, events, i, j) by {
      forall n | i < n < j
        ensures !(events[n].Clear? && events[n].pd == events[i].id.pd)
      {
        assert !Disturbs(events[n], events[i].id, events[j].addr % PGSIZE);
      }
    }
  }

  // ----- where the counters and the marker for free frames fail -----

  /** Growing the stack keeps `occupancy` equal to the number of taken frames exactly when the page is not page 0,
      whose address the frame table reads as "free". */
  lemma GrowthCountIffNotPageZero(s: Vm, id: PageId)
    requires Inv(s) && id !in s.spt && id.pd in s.live
    requires s.occupancy >= TOTAL_PAGES ==> FirstUnused(s.swapUsed, 0) < |s.swapUsed|
    ensures CanFindEmpty(s)
    ensures var t := GrowStack(s, id);
            t.occupancy == Occupied(t.frames) <==> id.upage != 0
  {
    FindRefines(s);
    var t := AfterFind(s);
    var i := FoundFrame(s);
    OccupiedUpdate(t.frames, i, FrameElem(t.frames[i].kpage, id.upage, id.pd, Some(id)));
  }

  /** A small stack pointer makes an access to page 0 a stack access, so the case above does arise. */
  lemma PageZeroGrows(s: Vm, pd: nat)
    requires Inv(s) && pd in s.live && s.occupancy < TOTAL_PAGES
    ensures var id := PageId(pd, RoundDown(100));
            && CanFault(s, id) && id.upage == 0
            && Fault(s, pd, 100, 100).1 == Resumed
            && var t := Fault(s, pd, 100, 100).0; t.occupancy == Occupied(t.frames) + 1
  {
    var id := PageId(pd, RoundDown(100));
    FindRefines(s);
    assert id !in s.spt;
    var i := FoundFrame(s);
    OccupiedUpdate(s.frames, i, FrameElem(s.frames[i].kpage, id.upage, id.pd, Some(id)));
  }

  /** Loading a page from its file keeps the count exact exactly when the file is long enough; a short read
      leaves `occupancy` one too small. */
  lemma LoadCountIffReadSucceeds(s: Vm, pd: nat, addr: nat, esp: nat)
    requires Inv(s) && FaultReady(s, pd, addr)
    requires var id := PageId(pd, RoundDown(addr)); id in s.spt && s.spt[id].location == InFilesys
    ensures var id := PageId(pd, RoundDown(addr));
            && CanFault(s, id)
            && var t := Fault(s, pd, addr, esp).0;
               && (t.occupancy == Occupied(t.frames) <==> ReadSucceeds(s.spt[id]))
               && (!ReadSucceeds(s.spt[id]) ==> t.occupancy == Occupied(t.frames) - 1)
  {
    var id := PageId(pd, RoundDown(addr));
    FaultDefined(s, pd, addr);
    FindRefines(s);
    if ReadSucceeds(s.spt[id]) {
      LoadRefines(s, id);
    } else {
      var t := AfterFind(s);
      var i := FoundFrame(s);
      OccupiedUpdate(t.frames, i, FreeElem(t.frames[i]));
    }
  }

  // ----- start of the machine -----

  function InitialVm(kpages: seq<nat>, ram: map<nat, PageData>, swapSlots: seq<PageData>): Vm {
    Vm(seq(|kpages|, i requires 0 <= i < |kpages| => FrameElem(kpages[i], 0, 0, None)), 0, FIRST_EVICTABLE,
       map[], map[], ram, seq(|swapSlots|, _ => false), swapSlots, {})
  }

  lemma {:induction false} NoneOccupied(fs: seq<FrameElem>)
    requires forall i :: 0 <= i < |fs| ==> fs[i].upage == 0
    ensures Occupied(fs) == 0
  {
    if fs != [] {
      NoneOccupied(fs[..|fs| - 1]);
    }
  }

  /** frame_table_init establishes the invariant over an empty memory when the user pool has enough pages. */
  lemma InitialInv(kpages: seq<nat>, ram: map<nat, PageData>, swapSlots: seq<PageData>)
    requires |kpages| == TOTAL_PAGES
    requires forall i :: 0 <= i < |kpages| ==> kpages[i] != 0 && kpages[i] in ram
    requires forall i, j :: 0 <= i < j < |kpages| ==> kpages[i] != kpages[j]
    ensures Inv(InitialVm(kpages, ram, swapSlots)) && Abs(InitialVm(kpages, ram, swapSlots)) == map[]
  {
    NoneOccupied(InitialVm(kpages, ram, swapSlots).frames);
  }
}
