/** Demand paging refines a flat memory: every step keeps the invariant below and changes the contents of
    the pages exactly as the corresponding step of a map from pages to their 4096 bytes does. */
module VmRefinement {
  import opened Common
  import opened VmState
  import opened FlatMemory

  // ----- invariant -----

  predicate Holds(s: Vm, id: PageId, k: nat) {
    && id in s.spt && s.spt[id].location == InFrame && s.spt[id].kpage == k
    && id in s.ptes && s.ptes[id] == Pte(k, s.spt[id].writable, true, s.ptes[id].accessed, s.ptes[id].dirty)
  }

  predicate FrameOk(s: Vm, f: FrameElem) {
    if f.upage == 0 then f.pagedir == 0 && f.page == None
    else f.page == Some(FrameKey(f)) && Holds(s, FrameKey(f), f.kpage)
  }

  predicate PageOk(s: Vm, id: PageId)
    requires |s.frames| == TOTAL_PAGES
    requires id in s.spt
  {
    var rec := s.spt[id];
    && id.pd in s.live && id.upage != 0
    && match rec.location
       case InFrame => exists i :: 0 <= i < TOTAL_PAGES && s.frames[i].page == Some(id)
       case InSwap => 
         && rec.swapLocation >= 0 && rec.swapLocation % SECTORS_PER_PAGE == 0
         && rec.swapLocation / SECTORS_PER_PAGE < |s.swapUsed|
         && s.swapUsed[rec.swapLocation / SECTORS_PER_PAGE]
       case InFilesys => rec.readBytes + rec.zeroBytes == PGSIZE
  }

  predicate SwapDistinct(spt: map<PageId, PageRec>) {
    forall a, b :: a in spt && b in spt && a != b && spt[a].location == InSwap && spt[b].location == InSwap ==>
      spt[a].swapLocation != spt[b].swapLocation
  }

  predicate Consistent(s: Vm) {
    && Shape(s)
    && (forall i :: 0 <= i < TOTAL_PAGES ==> FrameOk(s, s.frames[i]))
    && (forall id :: id in s.spt ==> PageOk(s, id))
    && SwapDistinct(s.spt)
    && (forall id :: id in s.ptes && s.ptes[id].present && id.pd in s.live ==>
          id in s.spt && s.spt[id].location == InFrame)
  }

  predicate Inv(s: Vm) {
    Consistent(s) && s.occupancy == Occupied(s.frames)
  }

  // ----- the flat memory -----

  /** The one place a page's bytes are kept. */
  function Content(s: Vm, id: PageId): PageData
    requires Consistent(s) && id in s.spt
  {
    match s.spt[id].location
    case InFrame => FrameHolds(s, id); s.ram[s.spt[id].kpage]
    case InSwap => s.slots[s.spt[id].swapLocation / SECTORS_PER_PAGE]
    case InFilesys => FileContent(s.spt[id])
  }

  function Abs(s: Vm): Flat
    requires Consistent(s)
  {
    map id | id in s.spt :: Content(s, id)
  }

  lemma FrameHolds(s: Vm, id: PageId)
    requires Consistent(s) && id in s.spt && s.spt[id].location == InFrame
    ensures s.spt[id].kpage in s.ram
    ensures exists i :: 0 <= i < TOTAL_PAGES && s.frames[i] == FrameElem(s.spt[id].kpage, id.upage, id.pd, Some(id))
    ensures Holds(s, id, s.spt[id].kpage)
  {
    assert PageOk(s, id);
    var i :| 0 <= i < TOTAL_PAGES && s.frames[i].page == Some(id);
    assert FrameOk(s, s.frames[i]);
  }

  /** No two pages share a frame or a swap slot. */
  lemma NoSharing(s: Vm, a: PageId, b: PageId)
    requires Consistent(s) && a in s.spt && b in s.spt && a != b
    requires s.spt[a].location == s.spt[b].location
    ensures s.spt[a].location == InFrame ==> s.spt[a].kpage != s.spt[b].kpage
    ensures s.spt[a].location == InSwap ==>
              s.spt[a].swapLocation / SECTORS_PER_PAGE != s.spt[b].swapLocation / SECTORS_PER_PAGE
  {
    assert PageOk(s, a) && PageOk(s, b);
    if s.spt[a].location == InFrame {
      FrameHolds(s, a);
      FrameHolds(s, b);
    }
  }

  /** Two states whose pages agree except for `id` have memories that agree except for `id`. */
  lemma AbsUpdate(s: Vm, t: Vm, id: PageId, d: PageData)
    requires Consistent(s) && Consistent(t) && t.spt.Keys == s.spt.Keys + {id}
    requires Content(t, id) == d
    requires forall p :: p in s.spt && p != id ==> Content(t, p) == Content(s, p)
    ensures Abs(t) == Abs(s)[id := d]
  {
  }

  // ----- counting frames -----

  lemma {:induction false} OccupiedUpdate(fs: seq<FrameElem>, i: nat, f: FrameElem)
    requires i < |fs|
    ensures Occupied(fs[i := f]) == Occupied(fs) - (if fs[i].upage != 0 then 1 else 0) + if f.upage != 0 then 1 else 0
  {
    var n := |fs| - 1;
    if i < n {
      OccupiedUpdate(fs[..n], i, f);
      assert fs[i := f][..n] == fs[..n][i := f];
    } else {
      assert fs[i := f][..n] == fs[..n];
    }
  }

  lemma {:induction false} OccupiedBound(fs: seq<FrameElem>)
    ensures Occupied(fs) <= |fs|
    ensures Occupied(fs) == |fs| <==> forall i :: 0 <= i < |fs| ==> fs[i].upage != 0
  {
    if fs != [] {
      var n := |fs| - 1;
      OccupiedBound(fs[..n]);
      assert forall i :: 0 <= i < n ==> fs[i] == fs[..n][i];
    }
  }

  lemma {:induction false} OccupiedFreed(s: Vm, fs: seq<FrameElem>, pd: nat)
    requires forall i :: 0 <= i < |fs| ==> FrameOk(s, fs[i])
    ensures Occupied(FreeOwned(fs, pd)) == Occupied(fs) - CountOwned(fs, pd)
  {
    if fs != [] {
      var n := |fs| - 1;
      OccupiedFreed(s, fs[..n], pd);
      assert FreeOwned(fs, pd)[..n] == FreeOwned(fs[..n], pd);
      assert FrameOk(s, fs[n]);
    }
  }

  // ----- the clock sweep -----

  /** In a full table the frames the hand can reach belong to different pages. */
  lemma KeysDistinct(s: Vm, i: nat, j: nat)
    requires Consistent(s) && i < TOTAL_PAGES && j < TOTAL_PAGES && i != j
    requires s.frames[i].upage != 0 && s.frames[j].upage != 0
    ensures FrameKey(s.frames[i]) != FrameKey(s.frames[j])
  {
    assert FrameOk(s, s.frames[i]) && FrameOk(s, s.frames[j]);
    assert s.frames[i].kpage != s.frames[j].kpage;
  }

  /** After `k` stops exactly the accessed bits of the first `k` frames in clock order are gone. */
  lemma {:induction false} SweepEffect(s: Vm, k: nat, id: PageId)
    requires Shape(s) && id in s.ptes
    ensures id in Sweep(s, k)
    ensures Sweep(s, k)[id] == s.ptes[id].(accessed := s.ptes[id].accessed && !Passed(s, k, id))
  {
    if k > 0 {
      SweepEffect(s, k - 1, id);
      var last := FrameKey(s.frames[Pos(s.clock, k - 1)]);
      assert Passed(s, k, id) <==> id == last || Passed(s, k - 1, id);
    }
  }

  /** Page `id` is in one of the first `k` frames in clock order. */
  predicate Passed(s: Vm, k: nat, id: PageId)
    requires Shape(s)
  {
    exists j :: 0 <= j < k && FrameKey(s.frames[Pos(s.clock, j)]) == id
  }

  lemma SweepBit(s: Vm, k: nat)
    requires Inv(s) && s.occupancy >= TOTAL_PAGES && k < EVICTABLE
    ensures PassesOver(s, k) == Accessed(s.ptes, FrameKey(s.frames[Pos(s.clock, k)]))
  {
    var id := FrameKey(s.frames[Pos(s.clock, k)]);
    OccupiedBound(s.frames);
    assert FrameOk(s, s.frames[Pos(s.clock, k)]);
    SweepEffect(s, k, id);
    forall j | 0 <= j < k
      ensures FrameKey(s.frames[Pos(s.clock, j)]) != id
    {
      PosInjective(s.clock, j, k);
      KeysDistinct(s, Pos(s.clock, j), Pos(s.clock, k));
    }
  }

  lemma PosInjective(clock: int, j: nat, k: nat)
    requires FIRST_EVICTABLE <= clock < TOTAL_PAGES && j < k < EVICTABLE
    ensures Pos(clock, j) != Pos(clock, k)
  {
  }

  lemma {:induction false} SweepClears(s: Vm, k: nat, j: nat)
    requires Shape(s) && j < k
    ensures !Accessed(Sweep(s, k), FrameKey(s.frames[Pos(s.clock, j)]))
  {
    if j < k - 1 {
      SweepClears(s, k - 1, j);
    }
  }

  /** The hand passes over its first Skipped stops and finds a clear bit at the next one. */
  lemma StopsAtSkipped(s: Vm)
    requires Shape(s)
    ensures forall j :: 0 <= j < Skipped(s, 0) ==> PassesOver(s, j)
    ensures !PassesOver(s, Skipped(s, 0))
  {
    var k := Skipped(s, 0);
    if k == EVICTABLE {
      SweepClears(s, k, 0);
      PosWraps(s.clock);
      assert Pos(s.clock, k) == Pos(s.clock, 0);
    }
  }

  /** Second chance: the victim is the first frame in clock order whose accessed bit is clear, or the
      starting one when all are set.  At most EVICTABLE + 1 frames are inspected and the 25 lowest never chosen. */
  lemma ClockChoice(s: Vm, j: nat)
    requires Inv(s) && s.occupancy >= TOTAL_PAGES && j < EVICTABLE
    ensures FIRST_EVICTABLE <= Victim(s)
    ensures Skipped(s, 0) + 1 <= TOTAL_PAGES - FIRST_EVICTABLE + 1
    ensures j < Skipped(s, 0) ==> Accessed(s.ptes, FrameKey(s.frames[Pos(s.clock, j)]))
    ensures j == Skipped(s, 0) ==> Victim(s) == Pos(s.clock, j) && !Accessed(s.ptes, FrameKey(s.frames[Victim(s)]))
    ensures Skipped(s, 0) == EVICTABLE ==> Victim(s) == s.clock
  {
    SweepBit(s, j);
    PosWraps(s.clock);
    var k := Skipped(s, 0);
    if k == EVICTABLE {
      assert Victim(s) == Pos(s.clock, EVICTABLE);
    } else if j == k {
      assert !PassesOver(s, j);
    } else if j < k {
      assert PassesOver(s, j);
    }
  }

  /** After an eviction the hand stands at the frame after the victim, and the page is in the lowest unused slot. */
  lemma EvictionMovesOn(s: Vm)
    requires CanEvict(s)
    ensures Evict(s).clock == if Victim(s) + 1 == TOTAL_PAGES then FIRST_EVICTABLE else Victim(s) + 1
    ensures exists slot :: 0 <= slot < |s.swapUsed| && !s.swapUsed[slot] && (forall j :: 0 <= j < slot ==> s.swapUsed[j])
              && Evict(s).spt[s.frames[Victim(s)].page.value].swapLocation == slot * SECTORS_PER_PAGE
              && Evict(s).swapUsed == s.swapUsed[slot := true]
  {
    PosNext(s.clock, Skipped(s, 0));
    assert !s.swapUsed[FirstUnused(s.swapUsed, 0)];
  }

  lemma PosNext(clock: int, k: nat)
    requires FIRST_EVICTABLE <= clock < TOTAL_PAGES
    ensures Pos(clock, k + 1) == if Pos(clock, k) + 1 == TOTAL_PAGES then FIRST_EVICTABLE else Pos(clock, k) + 1
  {
  }

  lemma PosWraps(clock: int)
    requires FIRST_EVICTABLE <= clock < TOTAL_PAGES
    ensures Pos(clock, EVICTABLE) == Pos(clock, 0) == clock
  {
  }

  /** Eviction clears exactly the accessed bits of the frames the hand passed over. */
  lemma ClockBits(s: Vm, id: PageId)
    requires CanEvict(s) && id in s.ptes
    ensures id in Evict(s).ptes
    ensures Evict(s).ptes[id].accessed <==> s.ptes[id].accessed && !Passed(s, Skipped(s, 0), id)
  {
    SweepEffect(s, Skipped(s, 0), id);
  }

  /** In a full table the victim holds a page, and an unused slot is all that eviction needs. */
  lemma FullCanEvict(s: Vm)
    requires Inv(s) && s.occupancy >= TOTAL_PAGES
    requires FirstUnused(s.swapUsed, 0) < |s.swapUsed|
    ensures CanEvict(s)
  {
    OccupiedBound(s.frames);
    assert FrameOk(s, s.frames[Victim(s)]);
  }

  /** What eviction does to the page tables, up to accessed bits: the victim's page is no longer present. */
  predicate OnlyUnmaps(before: map<PageId, Pte>, after: map<PageId, Pte>, gone: PageId) {
    && after.Keys == before.Keys
    && forall id :: id in before ==>
         after[id].(accessed := false) == before[id].(accessed := false, present := before[id].present && id != gone)
  }

  lemma {:induction false} SweepOnlyAccessed(s: Vm, k: nat)
    requires Shape(s)
    ensures Sweep(s, k).Keys == s.ptes.Keys
    ensures forall id :: id in s.ptes ==> Sweep(s, k)[id].(accessed := false) == s.ptes[id].(accessed := false)
  {
    if k > 0 {
      SweepOnlyAccessed(s, k - 1);
    }
  }

  lemma EvictUnmaps(s: Vm)
    requires CanEvict(s)
    ensures OnlyUnmaps(s.ptes, Evict(s).ptes, FrameKey(s.frames[Victim(s)]))
  {
    var swept := Sweep(s, Skipped(s, 0));
    SweepOnlyAccessed(s, Skipped(s, 0));
    var gone := FrameKey(s.frames[Victim(s)]);
    assert OnlyUnmaps(s.ptes, ClearPresent(swept, gone), gone);
  }

  /** A state in which the page in frame `v` has moved to slot `slot`. */
  predicate Evicted(s: Vm, t: Vm, v: nat, slot: nat)
    requires v < |s.frames| && s.frames[v].page.Some? && s.frames[v].page.value in s.spt
    requires slot < |s.swapUsed| && slot < |s.slots| && s.frames[v].kpage in s.ram
  {
    var f := s.frames[v];
    var id := f.page.value;
    && OnlyUnmaps(s.ptes, t.ptes, FrameKey(f))
    && t == s.(ptes := t.ptes, clock := t.clock, occupancy := s.occupancy - 1,
               swapUsed := s.swapUsed[slot := true],
               slots := s.slots[slot := s.ram[f.kpage]],
               spt := s.spt[id := s.spt[id].(location := InSwap, kpage := 0, swapLocation := slot * SECTORS_PER_PAGE)],
               frames := s.frames[v := FreeElem(f)])
    && FIRST_EVICTABLE <= t.clock < TOTAL_PAGES
  }

  predicate EvictPre(s: Vm, t: Vm, v: nat, slot: nat) {
    && Inv(s) && v < TOTAL_PAGES && s.frames[v].upage != 0 && FrameOk(s, s.frames[v])
    && slot < |s.swapUsed| && !s.swapUsed[slot]
    && Evicted(s, t, v, slot)
  }

  lemma EvictKeepsFrames(s: Vm, t: Vm, v: nat, slot: nat)
    requires EvictPre(s, t, v, slot)
    ensures Shape(t) && forall i :: 0 <= i < TOTAL_PAGES ==> FrameOk(t, t.frames[i])
  {
    forall i | 0 <= i < TOTAL_PAGES
      ensures FrameOk(t, t.frames[i])
    {
      assert FrameOk(s, s.frames[i]);
      if i != v && s.frames[i].upage != 0 {
        assert s.frames[i].kpage != s.frames[v].kpage;
        assert FrameKey(s.frames[i]) != FrameKey(s.frames[v]);
      }
    }
  }

  lemma EvictKeepsPage(s: Vm, t: Vm, v: nat, slot: nat, id: PageId)
    requires EvictPre(s, t, v, slot) && id in s.spt
    ensures PageOk(t, id)
    ensures id != s.frames[v].page.value && t.spt[id].location == InSwap ==>
              t.spt[id].swapLocation != slot * SECTORS_PER_PAGE
  {
    if id == s.frames[v].page.value {
      EvictMovesPage(s, t, v, slot);
    } else {
      assert PageOk(s, id) && t.spt[id] == s.spt[id];
      if s.spt[id].location == InFrame {
        var i :| 0 <= i < TOTAL_PAGES && s.frames[i].page == Some(id);
        assert t.frames[i].page == Some(id);
      }
    }
  }

  lemma EvictMovesPage(s: Vm, t: Vm, v: nat, slot: nat)
    requires EvictPre(s, t, v, slot)
    ensures PageOk(t, s.frames[v].page.value)
  {
    assert PageOk(s, s.frames[v].page.value);
  }

  lemma EvictKeepsPages(s: Vm, t: Vm, v: nat, slot: nat)
    requires EvictPre(s, t, v, slot)
    ensures forall id :: id in t.spt ==> PageOk(t, id)
    ensures SwapDistinct(t.spt)
  {
    forall id | id in t.spt
      ensures PageOk(t, id)
      ensures id != s.frames[v].page.value && t.spt[id].location == InSwap ==>
                t.spt[id].swapLocation != slot * SECTORS_PER_PAGE
    {
      EvictKeepsPage(s, t, v, slot, id);
    }
  }

  lemma EvictKeepsContent(s: Vm, t: Vm, v: nat, slot: nat, id: PageId)
    requires EvictPre(s, t, v, slot) && Consistent(t) && id in s.spt
    ensures Content(t, id) == Content(s, id)
  {
    assert PageOk(s, id);
    if s.spt[id].location == InFrame {
      FrameHolds(s, id);
    }
  }

  lemma EvictKeepsInv(s: Vm, t: Vm, v: nat, slot: nat)
    requires EvictPre(s, t, v, slot)
    ensures Inv(t)
  {
    EvictKeepsFrames(s, t, v, slot);
    EvictKeepsPages(s, t, v, slot);
    OccupiedUpdate(s.frames, v, FreeElem(s.frames[v]));
    forall id | id in t.ptes && t.ptes[id].present && id.pd in t.live
      ensures id in t.spt && t.spt[id].location == InFrame
    {
      assert s.ptes[id].present && id != FrameKey(s.frames[v]);
    }
  }

  lemma EvictedRefines(s: Vm, t: Vm, v: nat, slot: nat)
    requires EvictPre(s, t, v, slot)
    ensures Inv(t) && Abs(t) == Abs(s)
  {
    EvictKeepsInv(s, t, v, slot);
    forall id | id in s.spt
      ensures Content(t, id) == Content(s, id)
    {
      EvictKeepsContent(s, t, v, slot, id);
    }
  }

  /** Eviction keeps the invariant, frees the victim's frame and leaves every page's contents as they were. */
  lemma EvictRefines(s: Vm)
    requires Inv(s) && CanEvict(s)
    ensures Inv(Evict(s)) && Abs(Evict(s)) == Abs(s)
  {
    assert FrameOk(s, s.frames[Victim(s)]);
    EvictUnmaps(s);
    EvictedRefines(s, Evict(s), Victim(s), FirstUnused(s.swapUsed, 0));
  }

  /** A table that is not full has a free frame; a full one yields its victim's. */
  lemma FindRefines(s: Vm)
    requires Inv(s)
    requires s.occupancy >= TOTAL_PAGES ==> FirstUnused(s.swapUsed, 0) < |s.swapUsed|
    ensures CanFindEmpty(s) && FoundFrame(s) < TOTAL_PAGES
    ensures Inv(AfterFind(s)) && Abs(AfterFind(s)) == Abs(s)
    ensures AfterFind(s).frames[FoundFrame(s)].upage == 0
    ensures AfterFind(s).spt.Keys == s.spt.Keys && AfterFind(s).live == s.live
    ensures forall id :: id in s.spt && s.spt[id].location != InFrame ==> AfterFind(s).spt[id] == s.spt[id]
  {
    OccupiedBound(s.frames);
    if s.occupancy >= TOTAL_PAGES {
      FullCanEvict(s);
      assert FrameOk(s, s.frames[Victim(s)]);
      EvictRefines(s);
    }
  }

  /** While the table is not full the lowest free frame is handed out and nothing changes. */
  lemma LowestFree(s: Vm, j: nat)
    requires Inv(s) && s.occupancy < TOTAL_PAGES && CanFindEmpty(s)
    ensures AfterFind(s) == s && FoundFrame(s) < TOTAL_PAGES && s.frames[FoundFrame(s)].upage == 0
    ensures j < FoundFrame(s) ==> s.frames[j].upage != 0
  {
    OccupiedBound(s.frames);
  }

  // ----- putting a page into a free frame -----

  /** State in which page `id`, with record `rec`, is about to be mapped to the free frame `i` holding `d`. */
  function Filled(t: Vm, id: PageId, i: nat, rec: PageRec, d: PageData, used: seq<bool>): Vm
    requires i < |t.frames|
  {
    t.(ram := t.ram[t.frames[i].kpage := d], spt := t.spt[id := rec], swapUsed := used)
  }

  predicate PlacePre(t: Vm, id: PageId, i: nat, used: seq<bool>) {
    && Inv(t) && i < TOTAL_PAGES && t.frames[i].upage == 0
    && id.pd in t.live && id.upage != 0
    && (id in t.spt ==> t.spt[id].location != InFrame)
    && |used| == |t.swapUsed|
    && forall p :: p in t.spt && p != id && t.spt[p].location == InSwap ==>
         PageOk(t, p) && used[t.spt[p].swapLocation / SECTORS_PER_PAGE]
  }

  lemma PlaceKeepsFrames(t: Vm, id: PageId, i: nat, rec: PageRec, d: PageData, used: seq<bool>)
    requires PlacePre(t, id, i, used)
    ensures var u := Install(Filled(t, id, i, rec, d, used), id, i);
            Shape(u) && u.occupancy == Occupied(u.frames) && forall j :: 0 <= j < TOTAL_PAGES ==> FrameOk(u, u.frames[j])
  {
    var u := Install(Filled(t, id, i, rec, d, used), id, i);
    OccupiedUpdate(t.frames, i, u.frames[i]);
    forall j | 0 <= j < TOTAL_PAGES
      ensures FrameOk(u, u.frames[j])
    {
      assert FrameOk(t, t.frames[j]);
    }
  }

  lemma PlaceKeepsPage(t: Vm, id: PageId, i: nat, rec: PageRec, d: PageData, used: seq<bool>, p: PageId)
    requires PlacePre(t, id, i, used) && (p == id || p in t.spt)
    ensures PageOk(Install(Filled(t, id, i, rec, d, used), id, i), p)
  {
    var u := Install(Filled(t, id, i, rec, d, used), id, i);
    if p == id {
      assert u.frames[i].page == Some(id);
    } else {
      assert PageOk(t, p);
      if t.spt[p].location == InFrame {
        var j :| 0 <= j < TOTAL_PAGES && t.frames[j].page == Some(p);
        assert FrameOk(t, t.frames[i]);
        assert u.frames[j].page == Some(p);
      }
    }
  }

  lemma PlaceKeepsInv(t: Vm, id: PageId, i: nat, rec: PageRec, d: PageData, used: seq<bool>)
    requires PlacePre(t, id, i, used)
    ensures Inv(Install(Filled(t, id, i, rec, d, used), id, i))
  {
    var u := Install(Filled(t, id, i, rec, d, used), id, i);
    PlaceKeepsFrames(t, id, i, rec, d, used);
    forall p | p in u.spt
      ensures PageOk(u, p)
    {
      PlaceKeepsPage(t, id, i, rec, d, used, p);
    }
  }

  lemma PlaceKeepsContent(t: Vm, id: PageId, i: nat, rec: PageRec, d: PageData, used: seq<bool>, p: PageId)
    requires PlacePre(t, id, i, used) && p in t.spt && p != id
    requires Consistent(Install(Filled(t, id, i, rec, d, used), id, i))
    ensures Content(Install(Filled(t, id, i, rec, d, used), id, i), p) == Content(t, p)
  {
    if t.spt[p].location == InFrame {
      FrameHolds(t, p);
      assert FrameOk(t, t.frames[i]);
    }
  }

  /** Filling a free frame with `d` and mapping page `id` to it sets the contents of `id` and of no other page. */
  lemma PlaceRefines(t: Vm, id: PageId, i: nat, rec: PageRec, d: PageData, used: seq<bool>)
    requires PlacePre(t, id, i, used)
    ensures var u := Install(Filled(t, id, i, rec, d, used), id, i);
            Inv(u) && Abs(u) == Abs(t)[id := d]
  {
    var u := Install(Filled(t, id, i, rec, d, used), id, i);
    PlaceKeepsInv(t, id, i, rec, d, used);
    forall p | p in t.spt && p != id
      ensures Content(u, p) == Content(t, p)
    {
      PlaceKeepsContent(t, id, i, rec, d, used, p);
    }
    AbsUpdate(t, u, id, d);
  }

  // ----- faults -----

  /** What a fault needs from outside: a live process, a user address off page 0, a free swap slot if every
      frame is taken, and a file offset that file_seek accepts. */
  predicate FaultReady(s: Vm, pd: nat, addr: nat) {
    && pd in s.live && PGSIZE <= addr < PHYS_BASE
    && (s.occupancy >= TOTAL_PAGES ==> FirstUnused(s.swapUsed, 0) < |s.swapUsed|)
    && Seekable(s, PageId(pd, RoundDown(addr)))
  }

  predicate Seekable(s: Vm, id: PageId) {
    id in s.spt && s.spt[id].location == InFilesys ==> SeekOk(s.spt[id])
  }

  lemma FaultDefined(s: Vm, pd: nat, addr: nat)
    requires Inv(s) && FaultReady(s, pd, addr)
    ensures CanFault(s, PageId(pd, RoundDown(addr)))
  {
    var id := PageId(pd, RoundDown(addr));
    FindRefines(s);
    if id in s.spt {
      assert PageOk(s, id);
    }
  }

  lemma PlaceReady(t: Vm, id: PageId, i: nat)
    requires Inv(t) && i < TOTAL_PAGES && t.frames[i].upage == 0 && id.pd in t.live && id.upage != 0
    requires id in t.spt ==> t.spt[id].location != InFrame
    ensures PlacePre(t, id, i, t.swapUsed)
  {
    forall p | p in t.spt
      ensures PageOk(t, p)
    {
    }
  }

  lemma GrowPlaced(t: Vm, id: PageId, i: nat)
    requires PlacePre(t, id, i, t.swapUsed) && id !in t.spt
    ensures var u := Install(t.(spt := t.spt[id := StackRecord()]), id, i);
            Inv(u) && Gains(Abs(t), Abs(u), id)
  {
    var d := t.ram[t.frames[i].kpage];
    PlaceRefines(t, id, i, StackRecord(), d, t.swapUsed);
    assert t.ram[t.frames[i].kpage := d] == t.ram;
    assert t.(spt := t.spt[id := StackRecord()]) == Filled(t, id, i, StackRecord(), d, t.swapUsed);
  }

  lemma GrowRefines(s: Vm, id: PageId)
    requires Inv(s) && id !in s.spt && id.pd in s.live && id.upage != 0
    requires s.occupancy >= TOTAL_PAGES ==> FirstUnused(s.swapUsed, 0) < |s.swapUsed|
    ensures CanFindEmpty(s) && Inv(GrowStack(s, id)) && Gains(Abs(s), Abs(GrowStack(s, id)), id)
  {
    FindRefines(s);
    PlaceReady(AfterFind(s), id, FoundFrame(s));
    GrowPlaced(AfterFind(s), id, FoundFrame(s));
  }

  lemma SwapPlaced(t: Vm, id: PageId, i: nat, slot: nat)
    requires Inv(t) && i < TOTAL_PAGES && t.frames[i].upage == 0
    requires id in t.spt && t.spt[id].location == InSwap && slot == t.spt[id].swapLocation / SECTORS_PER_PAGE
    ensures slot < |t.slots|
    ensures var u := Install(Filled(t, id, i, t.spt[id].(swapLocation := -1), t.slots[slot],
                                    t.swapUsed[slot := false]), id, i);
            Inv(u) && Abs(u) == Abs(t)
  {
    assert PageOk(t, id);
    var used := t.swapUsed[slot := false];
    forall p | p in t.spt && p != id && t.spt[p].location == InSwap
      ensures PageOk(t, p) && used[t.spt[p].swapLocation / SECTORS_PER_PAGE]
    {
      assert PageOk(t, p);
      NoSharing(t, p, id);
    }
    PlaceRefines(t, id, i, t.spt[id].(swapLocation := -1), t.slots[slot], used);
    assert Abs(t)[id] == t.slots[slot];
  }

  lemma SwapInRefines(s: Vm, id: PageId)
    requires Inv(s) && id in s.spt && s.spt[id].location == InSwap
    requires s.occupancy >= TOTAL_PAGES ==> FirstUnused(s.swapUsed, 0) < |s.swapUsed|
    ensures CanFault(s, id) && Inv(SwapIn(s, id)) && Abs(SwapIn(s, id)) == Abs(s)
  {
    FindRefines(s);
    assert PageOk(s, id);
    SwapPlaced(AfterFind(s), id, FoundFrame(s), s.spt[id].swapLocation / SECTORS_PER_PAGE);
  }

  lemma LoadPlaced(t: Vm, id: PageId, i: nat)
    requires Inv(t) && i < TOTAL_PAGES && t.frames[i].upage == 0
    requires id in t.spt && t.spt[id].location == InFilesys
    ensures var u := Install(t.(ram := t.ram[t.frames[i].kpage := FileContent(t.spt[id])]), id, i);
            Inv(u) && Abs(u) == Abs(t)
  {
    assert PageOk(t, id);
    var rec := t.spt[id];
    var d := FileContent(rec);
    PlaceReady(t, id, i);
    PlaceRefines(t, id, i, rec, d, t.swapUsed);
    FilledSame(t, id, i, d);
    assert Abs(t)[id] == d;
  }

  lemma FilledSame(t: Vm, id: PageId, i: nat, d: PageData)
    requires i < |t.frames| && id in t.spt
    ensures Filled(t, id, i, t.spt[id], d, t.swapUsed) == t.(ram := t.ram[t.frames[i].kpage := d])
  {
    assert t.spt[id := t.spt[id]] == t.spt;
  }

  lemma LoadRefines(s: Vm, id: PageId)
    requires Inv(s) && id in s.spt && s.spt[id].location == InFilesys && SeekOk(s.spt[id])
    requires s.occupancy >= TOTAL_PAGES ==> FirstUnused(s.swapUsed, 0) < |s.swapUsed|
    ensures CanFault(s, id) && Inv(LoadFromFile(s, id)) && Abs(LoadFromFile(s, id)) == Abs(s)
  {
    FindRefines(s);
    LoadPlaced(AfterFind(s), id, FoundFrame(s));
  }
}
