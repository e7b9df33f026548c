/** The demand-paging layer as the kernel runs it: a frame table updated in place, page records,
    page tables and a swap device.  Every method is tied to the function on `Vm` it computes. */
module VmMachine {
  import opened Common
  import opened VmState
  import opened VmRefinement
  import opened VmRuns
  import opened Swap

  class Machine {
    const frames: array<FrameElem>
    var occupancy: int
    var clock: int
    var spt: map<PageId, PageRec>
    var ptes: map<PageId, Pte>
    var ram: map<nat, PageData>
    const swap: SwapDevice
    var live: set<nat>

    ghost predicate Valid()
      reads this, swap
    {
      && frames.Length == TOTAL_PAGES && swap.Valid()
      && frames as object != swap.sectors as object
    }

    ghost function State(): Vm
      reads this, frames, swap, swap.sectors
      requires Valid()
    {
      Vm(frames[..], occupancy, clock, spt, ptes, ram, swap.used, swap.Contents(), live)
    }

    /** frame_table_init over the pages the user pool handed out, with an empty swap device. */
    constructor (kpages: seq<nat>, memory: map<nat, PageData>, device: SwapDevice)
      requires |kpages| == TOTAL_PAGES && device.Valid()
      requires device.used == seq(|device.used|, _ => false)
      ensures Valid() && fresh(frames) && swap == device
      ensures State() == InitialVm(kpages, memory, device.Contents())
    {
      occupancy, clock := 0, FIRST_EVICTABLE;
      spt, ptes, ram, live := map[], map[], memory, {};
      swap := device;
      frames := new FrameElem[TOTAL_PAGES](_ => FrameElem(0, 0, 0, None));
      new;
      var i := 0;
      while i < TOTAL_PAGES
        modifies frames
        invariant 0 <= i <= TOTAL_PAGES
        invariant forall j :: 0 <= j < i ==> frames[j] == FrameElem(kpages[j], 0, 0, None)
      {
        frames[i] := FrameElem(kpages[i], 0, 0, None);
        i := i + 1;
      }
    }

    /** Marks the frame at `kpage`, which is frame `i`, as available. */
    method FrameFree(kpage: nat, ghost i: nat)
      requires Valid() && Shape(State()) && i < TOTAL_PAGES && frames[i].kpage == kpage
      modifies `occupancy, frames
      ensures Valid()
      ensures State() == old(State()).(frames := old(State()).frames[i := FreeElem(old(frames[i]))],
                                       occupancy := old(occupancy) - 1)
    {
      ghost var was := frames[..];
      var j := 0;
      while j < TOTAL_PAGES
        invariant 0 <= j <= TOTAL_PAGES
        invariant frames[..] == if j <= i then was else was[i := FreeElem(was[i])]
        invariant occupancy == old(occupancy) - if j <= i then 0 else 1
      {
        if frames[j].kpage == kpage {
          frames[j] := FrameElem(frames[j].kpage, 0, 0, None);
          occupancy := occupancy - 1;
        }
        j := j + 1;
      }
    }

    /** Maps `id` to `kpage`, which is frame `i`, and records the mapping in the frame table.
        Nothing happens when the page is already present; the process dies when the frame is taken. */
    method FrameInstall(id: PageId, kpage: nat, writable: bool, ghost i: nat)
      returns (success: bool, killed: bool)
      requires Valid() && Shape(State()) && i < TOTAL_PAGES && frames[i].kpage == kpage
      modifies `occupancy, `ptes, frames
      ensures Valid()
      ensures success == !(id in old(ptes) && old(ptes)[id].present)
      ensures !success ==> !killed && State() == old(State())
      ensures success ==> killed == (old(frames[i].upage) != 0)
      ensures success ==>
                var mapped := old(State()).(ptes := old(ptes)[id := Pte(kpage, writable, true, false, false)]);
                State() == if killed then mapped
                           else mapped.(frames := mapped.frames[i := FrameElem(kpage, id.upage, id.pd, Some(id))],
                                        occupancy := old(occupancy) + 1)
    {
      killed := false;
      success := !(id in ptes && ptes[id].present);
      if success {
        ptes := ptes[id := Pte(kpage, writable, true, false, false)];
        ghost var was := frames[..];
        var j := 0;
        while j < TOTAL_PAGES
          invariant 0 <= j <= TOTAL_PAGES
          invariant frames[..] == if j <= i then was else was[i := FrameElem(kpage, id.upage, id.pd, Some(id))]
          invariant occupancy == old(occupancy) + if j <= i then 0 else 1
          invariant ptes == old(ptes)[id := Pte(kpage, writable, true, false, false)]
          invariant j > i ==> was[i].upage == 0
        {
          if frames[j].kpage == kpage {
            assert j == i;
            if frames[j].upage != 0 {
              killed := true;
              return;
            }
            frames[j] := FrameElem(kpage, id.upage, id.pd, Some(id));
            occupancy := occupancy + 1;
          }
          j := j + 1;
        }
      }
    }

    /** Moves the page under the clock hand to swap and frees its frame. */
    method EvictAtHand() returns (kpage: nat)
      requires Valid() && Shape(State())
      requires FirstUnused(swap.used, 0) < |swap.used|
      requires frames[clock].page.Some? && frames[clock].page.value in spt
      modifies `occupancy, `ptes, `spt, frames, swap`used, swap.sectors
      ensures Valid() && kpage == old(frames[clock].kpage)
      ensures var s := old(State());
              var f := s.frames[s.clock];
              var slot := FirstUnused(s.swapUsed, 0);
              var id := f.page.value;
              State() == s.(ptes := ClearPresent(s.ptes, FrameKey(f)), occupancy := s.occupancy - 1,
                            swapUsed := s.swapUsed[slot := true], slots := s.slots[slot := s.ram[f.kpage]],
                            spt := s.spt[id := s.spt[id].(location := InSwap, kpage := 0,
                                                          swapLocation := slot * SECTORS_PER_PAGE)],
                            frames := s.frames[s.clock := FreeElem(f)])
    {
      var f := frames[clock];
      var id := f.page.value;
      ptes := ClearPresent(ptes, PageId(f.pagedir, f.upage));
      var location := swap.Write(ram[f.kpage]);
      spt := spt[id := spt[id].(swapLocation := location)];
      frames[clock] := FrameElem(f.kpage, 0, 0, None);
      spt := spt[id := spt[id].(location := InSwap, kpage := 0)];
      occupancy := occupancy - 1;
      kpage := f.kpage;
    }

    /** Runs the clock until it meets a clear accessed bit, and moves that page to swap. */
    method FrameEvict() returns (kpage: nat, ghost inspections: nat)
      requires Valid() && CanEvict(State())
      modifies `occupancy, `clock, `ptes, `spt, frames, swap`used, swap.sectors
      ensures Valid() && State() == Evict(old(State()))
      ensures kpage == old(frames[Victim(State())].kpage)
      ensures inspections == Skipped(old(State()), 0) + 1 <= TOTAL_PAGES - FIRST_EVICTABLE + 1
    {
      ghost var s := State();
      ghost var n := Skipped(s, 0);
      ghost var k := 0;
      var found := false;
      kpage := 0;
      PosWraps(s.clock);
      while !found
        invariant Valid() && k <= n
        invariant found ==> State() == Evict(s) && kpage == s.frames[Victim(s)].kpage && k == n
        invariant !found ==> State() == s.(ptes := Sweep(s, k), clock := Pos(s.clock, k))
        decreases !found, n - k
      {
        found, kpage := Inspect(s, k);
        if !found {
          k := k + 1;
        }
      }
      inspections := k + 1;
    }

    /** One pass of the clock's loop: the page under the hand goes to swap if its accessed bit is clear, otherwise
        the bit is cleared; the hand moves on. */
    method Inspect(ghost s: Vm, ghost k: nat) returns (found: bool, kpage: nat)
      requires Valid() && CanEvict(s) && k <= Skipped(s, 0)
      requires State() == s.(ptes := Sweep(s, k), clock := Pos(s.clock, k))
      modifies `occupancy, `clock, `ptes, `spt, frames, swap`used, swap.sectors
      ensures Valid() && (found <==> k == Skipped(s, 0))
      ensures found ==> State() == Evict(s) && kpage == s.frames[Victim(s)].kpage
      ensures !found ==> State() == s.(ptes := Sweep(s, k + 1), clock := Pos(s.clock, k + 1))
    {
      StopsAtSkipped(s);
      PosNext(s.clock, k);
      kpage := 0;
      var f := frames[clock];
      assert PassesOver(s, k) == Accessed(ptes, PageId(f.pagedir, f.upage));
      found := !Accessed(ptes, PageId(f.pagedir, f.upage));
      if found {
        kpage := EvictAtHand();
      } else {
        ptes := ClearAccessed(ptes, PageId(f.pagedir, f.upage));
      }
      StepHand();
    }

    /** Moves the clock hand on, past the last frame back to the first evictable one. */
    method StepHand()
      modifies `clock
      ensures clock == if old(clock) + 1 == TOTAL_PAGES then FIRST_EVICTABLE else old(clock) + 1
    {
      clock := clock + 1;
      if clock == TOTAL_PAGES {
        clock := FIRST_EVICTABLE;
      }
    }

    /** An unoccupied frame, evicting if every frame is taken; 0 if none looks free although one should. */
    method FrameFindEmpty() returns (kpage: nat)
      requires Valid() && CanFindEmpty(State())
      modifies `occupancy, `clock, `ptes, `spt, frames, swap`used, swap.sectors
      ensures Valid() && State() == AfterFind(old(State()))
      ensures var i := FoundFrame(old(State()));
              kpage == if i < TOTAL_PAGES then old(State()).frames[i].kpage else 0
    {
      if occupancy < TOTAL_PAGES {
        var i := 0;
        while i < TOTAL_PAGES
          invariant 0 <= i <= TOTAL_PAGES
          invariant FirstFree(frames[..], 0) == FirstFree(frames[..], i)
        {
          if frames[i].upage == 0 {
            return frames[i].kpage;
          }
          i := i + 1;
        }
        kpage := 0;
      } else {
        ghost var inspections: nat;
        kpage, inspections := FrameEvict();
      }
    }

    /** Installs page `id` in the frame at `kpage`, which is frame `i`, and updates its record. */
    method PageInstallToFrame(id: PageId, kpage: nat, ghost i: nat) returns (o: Outcome)
      requires Valid() && Shape(State()) && i < TOTAL_PAGES && frames[i].kpage == kpage && id in spt
      modifies `occupancy, `ptes, `spt, frames
      ensures Valid()
      ensures var present := id in old(ptes) && old(ptes)[id].present;
              o == if present then Killed(-532) else if old(frames[i].upage) != 0 then Killed(-1) else Resumed
      ensures o == Resumed ==> State() == Install(old(State()), id, i)
      ensures o == Killed(-532) ==>
                State() == old(State()).(frames := old(State()).frames[i := FreeElem(old(frames[i]))],
                                         occupancy := old(occupancy) - 1)
    {
      var success, killed := FrameInstall(id, kpage, spt[id].writable, i);
      if killed {
        return Killed(-1);
      }
      if !success {
        FrameFree(kpage, i);
        return Killed(-532);
      }
      spt := spt[id := spt[id].(location := InFrame)];
      spt := spt[id := spt[id].(kpage := kpage)];
      o := Resumed;
    }

    /** Brings a file-backed page in, or dies on a short read. */
    method PageReadInstall(id: PageId) returns (o: Outcome)
      requires Valid() && CanFindEmpty(State()) && FoundFrame(State()) < TOTAL_PAGES
      requires id in AfterFind(State()).spt && SeekOk(AfterFind(State()).spt[id])
      requires id in AfterFind(State()).ptes ==> !AfterFind(State()).ptes[id].present
      requires AfterFind(State()).frames[FoundFrame(State())].upage == 0 && Shape(AfterFind(State()))
      modifies `occupancy, `clock, `ptes, `spt, `ram, frames, swap`used, swap.sectors
      ensures Valid()
      ensures if ReadSucceeds(AfterFind(old(State())).spt[id])
              then o == Resumed && State() == LoadFromFile(old(State()), id)
              else o == Killed(-35) && State() == FailLoad(old(State()), id)
    {
      ghost var s := State();
      var kpage := FrameFindEmpty();
      var rec := spt[id];
      if !ReadSucceeds(rec) {
        ram := ram[kpage := PartialRead(rec, ram[kpage])];
        FrameFree(kpage, FoundFrame(s));
        return Killed(-35);
      }
      ram := ram[kpage := FileContent(rec)];
      o := PageInstallToFrame(id, kpage, FoundFrame(s));
    }

    /** Serves a not-present fault at `addr`: grows the stack, reads the page from swap or from its file,
        or kills the process. */
    method PageFaultIdentifier(pd: nat, addr: nat, esp: nat) returns (o: Outcome)
      requires Valid() && Inv(State()) && pd in live && addr < PHYS_BASE
      requires occupancy >= TOTAL_PAGES ==> FirstUnused(swap.used, 0) < |swap.used|
      requires !Mapped(State(), PageId(pd, RoundDown(addr))) && Seekable(State(), PageId(pd, RoundDown(addr)))
      modifies `occupancy, `clock, `ptes, `spt, `ram, frames, swap`used, swap.sectors
      ensures CanFault(old(State()), PageId(pd, RoundDown(addr)))
      ensures Valid() && (State(), o) == Fault(old(State()), pd, addr, esp)
    {
      ghost var s := State();
      var id := PageId(pd, RoundDown(addr));
      FaultStart(s, id);
      if id !in spt {
        if !IsStackAccess(addr, esp) {
          return Killed(-1);
        }
        var kpage := FrameFindEmpty();
        spt := spt[id := StackRecord()];
        o := PageInstallToFrame(id, kpage, FoundFrame(s));
      } else if spt[id].location == InSwap {
        var kpage := FrameFindEmpty();
        var data := swap.Read(spt[id].swapLocation);
        ram := ram[kpage := data];
        spt := spt[id := spt[id].(swapLocation := -1)];
        o := PageInstallToFrame(id, kpage, FoundFrame(s));
      } else if spt[id].location == InFilesys {
        o := PageReadInstall(id);
      } else {
        o := Resumed;
      }
    }

    /** What holds after a frame has been found for a page that is not present. */
    static lemma FaultStart(s: Vm, id: PageId)
      requires Inv(s) && id.pd in s.live && !Mapped(s, id) && Seekable(s, id)
      requires s.occupancy >= TOTAL_PAGES ==> FirstUnused(s.swapUsed, 0) < |s.swapUsed|
      ensures CanFault(s, id) && FoundFrame(s) < TOTAL_PAGES && Shape(AfterFind(s))
      ensures AfterFind(s).frames[FoundFrame(s)].upage == 0
      ensures AfterFind(s).frames[FoundFrame(s)].kpage == s.frames[FoundFrame(s)].kpage
      ensures id in AfterFind(s).ptes ==> !AfterFind(s).ptes[id].present
      ensures AfterFind(s).spt.Keys == s.spt.Keys
      ensures id in s.spt && s.spt[id].location != InFrame ==> AfterFind(s).spt[id] == s.spt[id]
      ensures id in s.spt && s.spt[id].location == InSwap ==>
                var l := s.spt[id].swapLocation;
                l >= 0 && l % SECTORS_PER_PAGE == 0 && l / SECTORS_PER_PAGE < |s.swapUsed|
    {
      FindRefines(s);
      if id in s.spt {
        assert PageOk(s, id);
      }
      if id in s.ptes && s.ptes[id].present {
        FrameHolds(s, id);
        assert false;
      }
      if s.occupancy >= TOTAL_PAGES {
        EvictUnmaps(s);
      }
    }

    /** Frees the frame of page `id`, if it is in one.  `s` is the state before any frame of its process was
        freed, and the pages in `freed` have been dealt with. */
    method ClearPage(id: PageId, ghost s: Vm, ghost freed: set<PageId>)
      requires Valid() && Inv(s) && id in s.spt && id in spt && spt[id] == s.spt[id] && id !in freed
      requires State() == s.(frames := FreeIn(s.frames, freed), occupancy := occupancy, spt := spt)
      modifies `occupancy, `spt, frames
      ensures Valid()
      ensures State() == s.(frames := FreeIn(s.frames, freed + {id}), occupancy := occupancy, spt := spt)
      ensures spt.Keys == old(spt.Keys) && forall p :: p in spt && p != id ==> spt[p] == old(spt[p])
      ensures occupancy - old(occupancy) == CountOwned(frames[..], id.pd) - CountOwned(old(frames[..]), id.pd)
    {
      if spt[id].location == InFrame {
        FrameHolds(s, id);
        ghost var i :| 0 <= i < TOTAL_PAGES && s.frames[i] == FrameElem(s.spt[id].kpage, id.upage, id.pd, Some(id));
        FreeMore(s, freed, id, i);
        CountOwnedUpdate(frames[..], id.pd, i, FreeElem(frames[i]));
        FrameFree(spt[id].kpage, i);
        spt := spt[id := spt[id].(kpage := 0)];
      } else {
        FreeSame(s, freed, id);
      }
    }

    /** page_clear_all: frees the frames of the process, page by page, and drops its page table. */
    method PageClearAll(pd: nat)
      requires Valid() && Inv(State())
      modifies `occupancy, `spt, `live, frames
      ensures Valid() && State() == ClearAll(old(State()), pd)
    {
      ghost var s := State();
      ghost var freed := ClearPages(pd);
      FreeAll(s, freed, pd);
      OthersKept(spt, s.spt, pd);
      spt := map id | id in spt && id.pd != pd :: spt[id];
      live := live - {pd};
    }

    /** The walk over the page table: frees the frame of each page of `pd`. */
    method ClearPages(pd: nat) returns (ghost freed: set<PageId>)
      requires Valid() && Inv(State())
      modifies `occupancy, `spt, frames
      ensures Valid() && spt.Keys == old(spt).Keys
      ensures forall id :: id in spt && id.pd != pd ==> spt[id] == old(spt)[id]
      ensures forall id :: id in old(spt) && id.pd == pd ==> id in freed
      ensures forall id :: id in freed ==> id.pd == pd
      ensures occupancy - old(occupancy) == CountOwned(frames[..], pd) - CountOwned(old(frames[..]), pd)
      ensures State() == old(State()).(frames := FreeIn(old(frames[..]), freed), occupancy := occupancy, spt := spt)
    {
      ghost var s := State();
      var todo := set id | id in spt && id.pd == pd;
      freed := {};
      assert frames[..] == FreeIn(s.frames, freed);
      while todo != {}
        invariant Valid() && todo <= spt.Keys && spt.Keys == s.spt.Keys
        invariant forall id :: id in todo ==> id.pd == pd && spt[id] == s.spt[id]
        invariant forall id :: id in spt && id.pd != pd ==> spt[id] == s.spt[id]
        invariant forall id :: id in s.spt && id.pd == pd ==> (id in todo <==> id !in freed)
        invariant forall id :: id in freed ==> id.pd == pd
        invariant occupancy - s.occupancy == CountOwned(frames[..], pd) - CountOwned(s.frames, pd)
        invariant State() == s.(frames := FreeIn(s.frames, freed), occupancy := occupancy, spt := spt)
        decreases |todo|
      {
        var id :| id in todo;
        ClearPage(id, s, freed);
        todo, freed := todo - {id}, freed + {id};
      }
    }

    static lemma OthersKept(a: map<PageId, PageRec>, b: map<PageId, PageRec>, pd: nat)
      requires a.Keys == b.Keys && forall id :: id in a && id.pd != pd ==> a[id] == b[id]
      ensures (map id | id in a && id.pd != pd :: a[id]) == map id | id in b && id.pd != pd :: b[id]
    {
    }

    /** Frames of the pages in `ids` freed, the others as they were. */
    static ghost function FreeIn(fs: seq<FrameElem>, ids: set<PageId>): (r: seq<FrameElem>)
      ensures |r| == |fs|
    {
      seq(|fs|, i requires 0 <= i < |fs| =>
        if fs[i].page.Some? && fs[i].page.value in ids then FreeElem(fs[i]) else fs[i])
    }

    static lemma FreeMore(s: Vm, ids: set<PageId>, id: PageId, i: nat)
      requires Inv(s) && i < TOTAL_PAGES && s.frames[i].page == Some(id) && id !in ids
      ensures FreeIn(s.frames, ids)[i := FreeElem(s.frames[i])] == FreeIn(s.frames, ids + {id})
      ensures FreeIn(s.frames, ids)[i] == s.frames[i]
    {
      forall j | 0 <= j < TOTAL_PAGES && j != i
        ensures s.frames[j].page != Some(id)
      {
        assert FrameOk(s, s.frames[i]) && FrameOk(s, s.frames[j]);
        assert s.frames[i].kpage != s.frames[j].kpage;
      }
    }

    static lemma FreeSame(s: Vm, ids: set<PageId>, id: PageId)
      requires Inv(s) && id in s.spt && s.spt[id].location != InFrame
      ensures FreeIn(s.frames, ids) == FreeIn(s.frames, ids + {id})
    {
      forall j | 0 <= j < TOTAL_PAGES
        ensures s.frames[j].page != Some(id)
      {
        assert FrameOk(s, s.frames[j]);
      }
    }

    static lemma FreeAll(s: Vm, ids: set<PageId>, pd: nat)
      requires Inv(s) && forall id :: id in s.spt && id.pd == pd ==> id in ids
      requires forall id :: id in ids ==> id.pd == pd
      ensures FreeIn(s.frames, ids) == FreeOwned(s.frames, pd)
      ensures CountOwned(FreeIn(s.frames, ids), pd) == 0
    {
      forall j | 0 <= j < TOTAL_PAGES
        ensures FreeIn(s.frames, ids)[j] == FreeOwned(s.frames, pd)[j]
      {
        assert FrameOk(s, s.frames[j]);
      }
      NoneOwned(FreeOwned(s.frames, pd), pd);
    }

    static lemma {:induction false} NoneOwned(fs: seq<FrameElem>, pd: nat)
      requires forall i :: 0 <= i < |fs| ==> !OwnedBy(fs[i], pd)
      ensures CountOwned(fs, pd) == 0
    {
      if fs != [] {
        NoneOwned(fs[..|fs| - 1], pd);
      }
    }

    static lemma {:induction false} CountOwnedUpdate(fs: seq<FrameElem>, pd: nat, i: nat, f: FrameElem)
      requires i < |fs| && OwnedBy(fs[i], pd) && !OwnedBy(f, pd)
      ensures CountOwned(fs[i := f], pd) == CountOwned(fs, pd) - 1
    {
      var n := |fs| - 1;
      if i < n {
        CountOwnedUpdate(fs[..n], pd, i, f);
        assert fs[i := f][..n] == fs[..n][i := f];
      } else {
        assert fs[i := f][..n] == fs[..n];
      }
    }
  }
}
