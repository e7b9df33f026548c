/** The memory a user program believes in: every page simply has its 4096 bytes. */
module FlatMemory {
  import opened Common
  import opened VmState

  type Flat = map<PageId, PageData>

  datatype Event =
    | Start(pd: nat)
    | AddPage(id: PageId, rec: PageRec)
    | FaultAt(pd: nat, addr: nat, esp: nat)
    | Read(pd: nat, addr: nat, value: Byte)
    | Write(pd: nat, addr: nat, value: Byte)
    | Clear(pd: nat)
    | DestroyPd(pd: nat)

  /** The memory gains page `id`, with bytes nothing is said about, or had it already. */
  predicate Gains(m: Flat, m': Flat, id: PageId) {
    m'.Keys == m.Keys + {id} && forall p :: p in m && p != id ==> m'[p] == m[p]
  }

  predicate FlatStep(m: Flat, e: Event, m': Flat) {
    match e
    case Start(_) => m' == m
    case AddPage(id, rec) => m' == if id in m then m else m[id := FileContent(rec)]
    case FaultAt(pd, addr, esp) =>
      var id := PageId(pd, RoundDown(addr));
      if id in m || !IsStackAccess(addr, esp) then m' == m else Gains(m, m', id)
    case Read(pd, addr, v) =>
      var id := PageId(pd, RoundDown(addr));
      id in m && v == m[id][addr % PGSIZE] && m' == m
    case Write(pd, addr, v) =>
      var id := PageId(pd, RoundDown(addr));
      id in m && m' == m[id := m[id][addr % PGSIZE := v]]
    case Clear(pd) => m' == map id | id in m && id.pd != pd :: m[id]
    case DestroyPd(_) => m' == m
  }

  predicate FlatRun(mems: seq<Flat>, events: seq<Event>) {
    && |mems| == |events| + 1
    && forall i :: 0 <= i < |events| ==> FlatStep(mems[i], events[i], mems[i + 1])
  }

  /** The event stores into byte `ofs` of page `id`, or ends the life of that page. */
  predicate Disturbs(e: Event, id: PageId, ofs: nat) {
    || (e.Write? && PageId(e.pd, RoundDown(e.addr)) == id && e.addr % PGSIZE == ofs)
    || (e.Clear? && e.pd == id.pd)
  }

  lemma {:induction false} ByteStays(mems: seq<Flat>, events: seq<Event>, i: nat, j: nat, id: PageId, ofs: nat)
    requires FlatRun(mems, events) && i <= j <= |events| && ofs < PGSIZE
    requires forall k :: i <= k < j ==> !Disturbs(events[k], id, ofs)
    requires id in mems[i]
    ensures id in mems[j] && mems[j][id][ofs] == mems[i][id][ofs]
    decreases j
  {
    if i < j {
      ByteStays(mems, events, i, j - 1, id, ofs);
      assert FlatStep(mems[j - 1], events[j - 1], mems[j - 1 + 1]);
      assert !Disturbs(events[j - 1], id, ofs);
    }
  }

  /** In the flat memory a read returns the last value written to its address. */
  lemma FlatReadsLastWrite(mems: seq<Flat>, events: seq<Event>, i: nat, j: nat)
    requires FlatRun(mems, events) && i < j < |events|
    requires events[i].Write? && events[j].Read?
    requires events[i].pd == events[j].pd && events[i].addr == events[j].addr
    requires forall k :: i < k < j ==>
               !Disturbs(events[k], PageId(events[i].pd, RoundDown(events[i].addr)), events[i].addr % PGSIZE)
    ensures events[j].value == events[i].value
  {
    assert FlatStep(mems[i], events[i], mems[i + 1]);
    assert FlatStep(mems[j], events[j], mems[j + 1]);
    ByteStays(mems, events, i + 1, j, PageId(events[i].pd, RoundDown(events[i].addr)), events[i].addr % PGSIZE);
  }

  /** A file-backed page nobody wrote to reads as its file bytes followed by zeros. */
  lemma FlatReadsFileByte(mems: seq<Flat>, events: seq<Event>, i: nat, j: nat)
    requires FlatRun(mems, events) && i < j < |events|
    requires events[i].AddPage? && events[j].Read? && events[i].id !in mems[i]
    requires events[i].id == PageId(events[j].pd, RoundDown(events[j].addr))
    requires forall k :: i < k < j ==> !Disturbs(events[k], events[i].id, events[j].addr % PGSIZE)
    ensures events[j].value == FileContent(events[i].rec)[events[j].addr % PGSIZE]
  {
    assert FlatStep(mems[i], events[i], mems[i + 1]);
    assert FlatStep(mems[j], events[j], mems[j + 1]);
    ByteStays(mems, events, i + 1, j, events[i].id, events[j].addr % PGSIZE);
  }
}
