/** The page allocator: two pools of pages, each with a bitmap of the pages in use. */
module Palloc {
  import opened Common
  import opened BitmapSpec
  import opened Bitmap

  // ----- ownership of runs -----

  /** Runs of pages handed out and not yet returned: first page index to page count. */
  type Runs = map<nat, nat>

  predicate Covers(live: Runs, k: nat) {
    exists i :: i in live && i <= k < i + live[i]
  }

  predicate Apart(live: Runs) {
    forall i, j :: i in live && j in live && i < j ==> i + live[i] <= j
  }

  /** The bitmap marks exactly the pages of the live runs, which do not overlap and lie inside the pool. */
  predicate Owned(used: seq<bool>, live: Runs) {
    && (forall i :: i in live ==> live[i] >= 1 && i + live[i] <= |used|)
    && Apart(live)
    && (forall k :: 0 <= k < |used| ==> (used[k] <==> Covers(live, k)))
  }

  lemma CoversMore(live: Runs, i: nat, cnt: nat, k: nat)
    requires i !in live
    ensures Covers(live[i := cnt], k) <==> Covers(live, k) || i <= k < i + cnt
  {
    var live' := live[i := cnt];
    if Covers(live, k) {
      var j :| j in live && j <= k < j + live[j];
      assert j in live' && live'[j] == live[j];
    }
    if i <= k < i + cnt {
      assert i in live' && live'[i] == cnt;
    }
  }

  lemma CoversLess(live: Runs, i: nat, k: nat)
    requires i in live && Apart(live)
    ensures Covers(live - {i}, k) <==> Covers(live, k) && !(i <= k < i + live[i])
  {
    var live' := live - {i};
    if Covers(live', k) {
      var j :| j in live' && j <= k < j + live'[j];
      assert j in live && live[j] == live'[j];
    }
    if Covers(live, k) && !(i <= k < i + live[i]) {
      var j :| j in live && j <= k < j + live[j];
      assert j in live' && live'[j] == live[j];
    }
  }

  /** A run that is handed out overlaps no live run, and the bitmap stays exact. */
  lemma GetKeepsOwned(used: seq<bool>, live: Runs, cnt: nat, i: nat)
    requires Owned(used, live) && cnt >= 1 && RunAt(used, i, cnt, false)
    ensures i !in live && Owned(Fill(used, i, cnt, true), live[i := cnt])
  {
    assert !used[i];
    forall j | j in live
      ensures j != i && (j + live[j] <= i || i + cnt <= j)
    {
      assert Covers(live, j) && used[j];
      assert j <= i < j + live[j] ==> Covers(live, i);
    }
    forall k | 0 <= k < |used|
      ensures Fill(used, i, cnt, true)[k] <==> Covers(live[i := cnt], k)
    {
      CoversMore(live, i, cnt, k);
    }
  }

  /** Returning a live run unmarks its pages and no others. */
  lemma FreeKeepsOwned(used: seq<bool>, live: Runs, i: nat)
    requires Owned(used, live) && i in live
    ensures RunAt(used, i, live[i], true)
    ensures Owned(Fill(used, i, live[i], false), live - {i})
  {
    forall k | i <= k < i + live[i]
      ensures used[k]
    {
      assert Covers(live, k);
    }
    forall k | 0 <= k < |used|
      ensures Fill(used, i, live[i], false)[k] <==> Covers(live - {i}, k)
    {
      CoversLess(live, i, k);
    }
  }

  datatype Request = Get(cnt: nat) | Free(i: nat)

  predicate CanServe(used: seq<bool>, live: Runs, r: Request) {
    r.Free? ==> r.i in live && r.i + live[r.i] <= |used|
  }

  /** A pool's state after a request: a get takes the lowest run that fits, a free must name a live run. */
  function Serve(used: seq<bool>, live: Runs, r: Request): (seq<bool>, Runs)
    requires CanServe(used, live, r)
  {
    match r
    case Get(cnt) =>
      if cnt == 0 then (used, live) else
      (match FirstRun(used, 0, cnt, false)
       case None => (used, live)
       case Some(i) => (Fill(used, i, cnt, true), live[i := cnt]))
    case Free(i) => (Fill(used, i, live[i], false), live - {i})
  }

  predicate Run(states: seq<(seq<bool>, Runs)>, requests: seq<Request>) {
    && |states| == |requests| + 1
    && forall n :: 0 <= n < |requests| ==>
         && CanServe(states[n].0, states[n].1, requests[n])
         && states[n + 1] == Serve(states[n].0, states[n].1, requests[n])
  }

  /** Over every sequence of requests the live runs stay disjoint and inside the pool, and exactly their
      pages are marked. */
  lemma {:induction false} RunKeepsOwned(states: seq<(seq<bool>, Runs)>, requests: seq<Request>, n: nat)
    requires Run(states, requests) && n <= |requests|
    requires Owned(states[0].0, states[0].1)
    ensures Owned(states[n].0, states[n].1) && |states[n].0| == |states[0].0|
  {
    if n > 0 {
      RunKeepsOwned(states, requests, n - 1);
      var used, live := states[n - 1].0, states[n - 1].1;
      assert CanServe(used, live, requests[n - 1]) && states[n - 1 + 1] == Serve(used, live, requests[n - 1]);
      match requests[n - 1]
      case Get(cnt) =>
        if cnt > 0 && FirstRun(used, 0, cnt, false).Some? {
          GetKeepsOwned(used, live, cnt, FirstRun(used, 0, cnt, false).value);
        }
      case Free(i) => FreeKeepsOwned(used, live, i);
    }
  }

  /** With nothing live every page is free again. */
  lemma NothingLive(used: seq<bool>)
    requires Owned(used, map[])
    ensures forall k :: 0 <= k < |used| ==> !used[k]
  {
    forall k | 0 <= k < |used|
      ensures !used[k]
    {
      assert !Covers(map[], k);
    }
  }

  // ----- layout of the two pools -----

  datatype Layout = Layout(base: nat, pages: nat)

  /** init_pool: the bitmap takes the first pages of the region; none is left over when it does not fit. */
  function InitPool(base: nat, pageCnt: nat): Option<Layout> {
    var bufSize := 8 + 4 * ElemCnt(pageCnt);
    var bmPages := (bufSize + PGSIZE - 1) / PGSIZE;
    if bmPages > pageCnt then None else Some(Layout(base + bmPages * PGSIZE, pageCnt - bmPages))
  }

  /** The bitmap has room for the pages that remain, in front of them. */
  lemma InitPoolFits(base: nat, pageCnt: nat)
    requires InitPool(base, pageCnt).Some?
    ensures var p := InitPool(base, pageCnt).value;
            && base + 8 + 4 * ElemCnt(p.pages) <= p.base
            && p.base + p.pages * PGSIZE == base + pageCnt * PGSIZE
            && (p.base - base) % PGSIZE == 0
  {
    var bufSize := 8 + 4 * ElemCnt(pageCnt);
    var bmPages := (bufSize + PGSIZE - 1) / PGSIZE;
    assert bmPages * PGSIZE >= bufSize;
  }

  /** A pool can be set up exactly when its region holds its bitmap: 8 bytes and a word for every 32 pages. */
  lemma InitPoolIff(base: nat, pageCnt: nat)
    ensures InitPool(base, pageCnt).Some? <==> 8 + 4 * ((pageCnt + 31) / 32) <= pageCnt * PGSIZE
  {
  }

  predicate InPool(p: Layout, page: nat) {
    p.base / PGSIZE <= page / PGSIZE < p.base / PGSIZE + p.pages
  }

  /** palloc_init splits free memory in two; no page is in both pools. */
  lemma PoolsApart(start: nat, freePages: nat, userLimit: nat, page: nat)
    requires start % PGSIZE == 0
    requires var user := if freePages / 2 > userLimit then userLimit else freePages / 2;
             && InitPool(start, freePages - user).Some?
             && InitPool(start + (freePages - user) * PGSIZE, user).Some?
    ensures var user := if freePages / 2 > userLimit then userLimit else freePages / 2;
            var k, u := InitPool(start, freePages - user).value, InitPool(start + (freePages - user) * PGSIZE, user).value;
            !(InPool(k, page) && InPool(u, page))
  {
    var user := if freePages / 2 > userLimit then userLimit else freePages / 2;
    InitPoolFits(start, freePages - user);
    InitPoolFits(start + (freePages - user) * PGSIZE, user);
  }

  // ----- runs over both pools, by address -----

  /** A run's address gives back the index it was found at. */
  lemma AddressInverts(base: nat, i: nat)
    requires base % PGSIZE == 0
    ensures (base + PGSIZE * i) % PGSIZE == 0 && (base + PGSIZE * i) / PGSIZE - base / PGSIZE == i
  {
  }

  datatype PoolState = PoolState(layout: Layout, used: seq<bool>, live: Runs)

  datatype Pools = Pools(kernel: PoolState, user: PoolState)

  datatype Call = GetPages(user: bool, cnt: nat) | FreePages(pages: nat)

  function Chosen(m: Pools, user: bool): PoolState {
    if user then m.user else m.kernel
  }

  function PageAddress(p: PoolState, i: nat): nat {
    p.layout.base + PGSIZE * i
  }

  function Served(p: PoolState, r: Request): PoolState
    requires CanServe(p.used, p.live, r)
  {
    var (used, live) := Serve(p.used, p.live, r);
    p.(used := used, live := live)
  }

  function With(m: Pools, user: bool, p: PoolState): Pools {
    if user then m.(user := p) else m.(kernel := p)
  }

  /** A caller frees only the address of a run that is live. */
  predicate LawfulCall(m: Pools, c: Call) {
    c.FreePages? ==> IsRun(m, false, c.pages) || IsRun(m, true, c.pages)
  }

  predicate IsRun(m: Pools, user: bool, pages: nat) {
    exists i :: i in Chosen(m, user).live && pages == PageAddress(Chosen(m, user), i)
  }

  /** The pool palloc_free_multiple finds by address, and the index in it. */
  predicate FoundUser(m: Pools, pages: nat) {
    !InPool(m.kernel.layout, pages)
  }

  function FoundIndex(m: Pools, pages: nat): int {
    pages / PGSIZE - Chosen(m, FoundUser(m, pages)).layout.base / PGSIZE
  }

  /** The assertions of palloc_free_multiple: the address is in a pool and its run is marked there. */
  predicate CanCall(m: Pools, c: Call) {
    c.FreePages? ==>
      var p := Chosen(m, FoundUser(m, c.pages));
      && InPool(p.layout, c.pages) && c.pages % PGSIZE == 0
      && FoundIndex(m, c.pages) in p.live && FoundIndex(m, c.pages) + p.live[FoundIndex(m, c.pages)] <= |p.used|
  }

  function DoCall(m: Pools, c: Call): Pools
    requires CanCall(m, c)
  {
    match c
    case GetPages(user, cnt) => With(m, user, Served(Chosen(m, user), Get(cnt)))
    case FreePages(pages) =>
      var user := FoundUser(m, pages);
      With(m, user, Served(Chosen(m, user), Free(FoundIndex(m, pages))))
  }

  predicate PoolOk(p: PoolState) {
    Owned(p.used, p.live) && |p.used| == p.layout.pages && p.layout.base % PGSIZE == 0
  }

  predicate PoolsOk(m: Pools) {
    PoolOk(m.kernel) && PoolOk(m.user) && PageAddress(m.kernel, m.kernel.layout.pages) <= m.user.layout.base
  }

  /** A live run's address leads palloc_free_multiple back to its own pool and index. */
  lemma FindsOwner(m: Pools, user: bool, i: nat)
    requires PoolsOk(m) && i in Chosen(m, user).live
    ensures var pages := PageAddress(Chosen(m, user), i);
            pages % PGSIZE == 0 && FoundUser(m, pages) == user && FoundIndex(m, pages) == i && InPool(Chosen(m, user).layout, pages)
  {
    AddressInverts(Chosen(m, user).layout.base, i);
  }

  lemma LawfulCanCall(m: Pools, c: Call)
    requires PoolsOk(m) && LawfulCall(m, c)
    ensures CanCall(m, c)
  {
    if c.FreePages? {
      var user := !IsRun(m, false, c.pages);
      var i :| i in Chosen(m, user).live && c.pages == PageAddress(Chosen(m, user), i);
      FindsOwner(m, user, i);
    }
  }

  lemma ServedOk(p: PoolState, r: Request)
    requires PoolOk(p) && CanServe(p.used, p.live, r)
    ensures PoolOk(Served(p, r)) && Served(p, r).layout == p.layout
  {
    var states := [(p.used, p.live), Serve(p.used, p.live, r)];
    RunKeepsOwned(states, [r], 1);
  }

  lemma CallKeeps(m: Pools, c: Call)
    requires PoolsOk(m) && CanCall(m, c)
    ensures PoolsOk(DoCall(m, c))
  {
    match c
    case GetPages(user, cnt) => ServedOk(Chosen(m, user), Get(cnt));
    case FreePages(pages) => ServedOk(Chosen(m, FoundUser(m, pages)), Free(FoundIndex(m, pages)));
  }

  predicate PoolsRun(states: seq<Pools>, calls: seq<Call>) {
    && |states| == |calls| + 1
    && forall n :: 0 <= n < |calls| ==>
         LawfulCall(states[n], calls[n]) && (CanCall(states[n], calls[n]) ==> states[n + 1] == DoCall(states[n], calls[n]))
  }

  /** Over every sequence of calls on the two pools, every free finds the pool and the run it is meant for, and
      each pool's map is exact. */
  lemma {:induction false} PoolsRunKeeps(states: seq<Pools>, calls: seq<Call>, n: nat)
    requires PoolsRun(states, calls) && n <= |calls| && PoolsOk(states[0])
    ensures PoolsOk(states[n]) && (n < |calls| ==> CanCall(states[n], calls[n]))
  {
    if n > 0 {
      PoolsRunKeeps(states, calls, n - 1);
      var m := states[n - 1];
      assert states[n - 1 + 1] == DoCall(m, calls[n - 1]);
      CallKeeps(m, calls[n - 1]);
    }
    if n < |calls| {
      LawfulCanCall(states[n], calls[n]);
    }
  }

  /** At every point of every sequence of calls two live runs, of one pool or of both, share no byte. */
  lemma LiveRunsApart(states: seq<Pools>, calls: seq<Call>, n: nat, u: bool, i: nat, v: bool, j: nat)
    requires PoolsRun(states, calls) && n <= |calls| && PoolsOk(states[0])
    requires i in Chosen(states[n], u).live && j in Chosen(states[n], v).live && (u, i) != (v, j)
    ensures var p, q := Chosen(states[n], u), Chosen(states[n], v);
            || PageAddress(p, i) + PGSIZE * p.live[i] <= PageAddress(q, j)
            || PageAddress(q, j) + PGSIZE * q.live[j] <= PageAddress(p, i)
  {
    PoolsRunKeeps(states, calls, n);
  }

  /** What palloc_init sets up, with nothing handed out. */
  function InitialPool(l: Layout): PoolState {
    PoolState(l, seq(l.pages, _ => false), map[])
  }

  lemma InitialPoolOk(base: nat, pageCnt: nat)
    requires base % PGSIZE == 0 && InitPool(base, pageCnt).Some?
    ensures var p := InitialPool(InitPool(base, pageCnt).value);
            PoolOk(p) && PageAddress(p, p.layout.pages) == base + PGSIZE * pageCnt && base <= p.layout.base
  {
    InitPoolFits(base, pageCnt);
  }

  lemma InitialBoth(start: nat, kernelPages: nat, userPages: nat)
    requires start % PGSIZE == 0
    requires InitPool(start, kernelPages).Some? && InitPool(start + kernelPages * PGSIZE, userPages).Some?
    ensures PoolsOk(Pools(InitialPool(InitPool(start, kernelPages).value),
                          InitialPool(InitPool(start + kernelPages * PGSIZE, userPages).value)))
  {
    InitialPoolOk(start, kernelPages);
    InitialPoolOk(start + kernelPages * PGSIZE, userPages);
  }

  lemma InitialPools(start: nat, freePages: nat, userLimit: nat)
    requires start % PGSIZE == 0
    requires var user := if freePages / 2 > userLimit then userLimit else freePages / 2;
             && InitPool(start, freePages - user).Some?
             && InitPool(start + (freePages - user) * PGSIZE, user).Some?
    ensures var user := if freePages / 2 > userLimit then userLimit else freePages / 2;
            PoolsOk(Pools(InitialPool(InitPool(start, freePages - user).value),
                          InitialPool(InitPool(start + (freePages - user) * PGSIZE, user).value)))
  {
    var user := if freePages / 2 > userLimit then userLimit else freePages / 2;
    InitialBoth(start, freePages - user, user);
  }

  // ----- the allocator -----

  class Pool {
    const base: nat
    const usedMap: Bitmap

    ghost predicate Valid() {
      usedMap.Valid() && base % PGSIZE == 0 && base > 0
    }

    constructor (layout: Layout)
      requires layout.base % PGSIZE == 0 && layout.base > 0
      ensures Valid() && base == layout.base && usedMap.View() == seq(layout.pages, _ => false)
      ensures fresh(usedMap) && fresh(usedMap.bits)
    {
      base := layout.base;
      usedMap := new Bitmap(layout.pages);
    }

    /** page_from_pool */
    predicate Holds(page: nat) {
      base / PGSIZE <= page / PGSIZE < base / PGSIZE + usedMap.bitCnt
    }
  }

  // ----- the bytes of pages -----

  /** Contents of pages by address. */
  type Ram = map<nat, seq<Byte>>

  /** memset over whole pages. */
  function Filled(ram: Ram, pages: nat, cnt: nat, b: Byte): Ram {
    if cnt == 0 then ram else Filled(ram, pages, cnt - 1, b)[pages + PGSIZE * (cnt - 1) := seq(PGSIZE, _ => b)]
  }

  /** Exactly the pages of the run are filled. */
  lemma {:induction false} FilledPages(ram: Ram, pages: nat, cnt: nat, b: Byte, a: nat)
    ensures if pages <= a < pages + PGSIZE * cnt && (a - pages) % PGSIZE == 0
            then a in Filled(ram, pages, cnt, b) && Filled(ram, pages, cnt, b)[a] == seq(PGSIZE, _ => b)
            else (a in Filled(ram, pages, cnt, b) <==> a in ram) && (a in ram ==> Filled(ram, pages, cnt, b)[a] == ram[a])
  {
    if cnt > 0 {
      FilledPages(ram, pages, cnt - 1, b, a);
    }
  }

  /** Number of pages of the live run at an address. */
  function RunLength(m: Pools, pages: nat): nat {
    if CanCall(m, FreePages(pages)) then Chosen(m, FoundUser(m, pages)).live[FoundIndex(m, pages)] else 0
  }

  /** What a lawful free finds and leaves. */
  lemma FreeEffect(m: Pools, pages: nat, user: bool, i: int, cnt: nat)
    requires PoolsOk(m) && LawfulCall(m, FreePages(pages)) && cnt == RunLength(m, pages)
    requires user == FoundUser(m, pages) && i == FoundIndex(m, pages)
    ensures CanCall(m, FreePages(pages)) && PoolsOk(DoCall(m, FreePages(pages)))
    ensures var p := Chosen(m, user);
            && InPool(p.layout, pages) && i >= 0 && RunAt(p.used, i, cnt, true)
            && DoCall(m, FreePages(pages)) == With(m, user, p.(used := Fill(p.used, i, cnt, false), live := p.live - {i}))
  {
    LawfulCanCall(m, FreePages(pages));
    CallKeeps(m, FreePages(pages));
    FreeKeepsOwned(Chosen(m, user).used, Chosen(m, user).live, i);
  }

  class PageAllocator {
    const kernelPool: Pool
    const userPool: Pool
    var ram: Ram
    ghost var kernelLive: Runs
    ghost var userLive: Runs

    ghost predicate Valid() {
      && kernelPool.Valid() && userPool.Valid()
      && kernelPool.usedMap.bits != userPool.usedMap.bits
      && kernelPool.base + PGSIZE * kernelPool.usedMap.bitCnt <= userPool.base
    }

    ghost function View(user: bool): seq<bool>
      reads kernelPool.usedMap.bits, userPool.usedMap.bits
      requires Valid()
    {
      if user then userPool.usedMap.View() else kernelPool.usedMap.View()
    }

    /** Both pools, with the runs handed out by GetPages and not yet returned. */
    ghost function Model(): Pools
      reads this, kernelPool.usedMap.bits, userPool.usedMap.bits
      requires Valid()
    {
      Pools(PoolState(Layout(kernelPool.base, kernelPool.usedMap.bitCnt), View(false), kernelLive),
            PoolState(Layout(userPool.base, userPool.usedMap.bitCnt), View(true), userLive))
    }

    function PoolOf(user: bool): Pool {
      if user then userPool else kernelPool
    }

    constructor (kernel: Pool, user: Pool, ram: Ram)
      requires kernel.Valid() && user.Valid() && kernel.usedMap.bits != user.usedMap.bits
      requires kernel.base + PGSIZE * kernel.usedMap.bitCnt <= user.base
      requires kernel.usedMap.View() == seq(kernel.usedMap.bitCnt, _ => false)
      requires user.usedMap.View() == seq(user.usedMap.bitCnt, _ => false)
      ensures Valid() && PoolsOk(Model()) && kernelPool == kernel && userPool == user && this.ram == ram
      ensures Model().kernel.live == map[] && Model().user.live == map[]
    {
      kernelPool, userPool := kernel, user;
      this.ram := ram;
      kernelLive, userLive := map[], map[];
    }

    /** palloc_get_multiple: the address of `cnt` free pages of the chosen pool, zeroed if asked, or 0; with
        `must` set it panics instead of returning 0 for lack of pages. */
    method GetMultiple(user: bool, zero: bool, must: bool, cnt: nat) returns (pages: nat, panicked: bool)
      requires Valid()
      modifies `ram, kernelPool.usedMap.bits, userPool.usedMap.bits
      ensures View(!user) == old(View(!user))
      ensures var run := if cnt == 0 then None else FirstRun(old(View(user)), 0, cnt, false);
              && (panicked <==> must && cnt > 0 && run.None?)
              && match run
                 case None => pages == 0 && View(user) == old(View(user)) && ram == old(ram)
                 case Some(i) =>
                   && pages == PoolOf(user).base + PGSIZE * i && PoolOf(user).Holds(pages)
                   && View(user) == Fill(old(View(user)), i, cnt, true)
                   && ram == if zero then Filled(old(ram), pages, cnt, 0) else old(ram)
    {
      pages, panicked := 0, false;
      if cnt == 0 {
        return;
      }
      var pool := if user then userPool else kernelPool;
      var idx := pool.usedMap.ScanFlip(0, cnt, false);
      if idx.Some? {
        pages := pool.base + PGSIZE * idx.value;
        if zero {
          FillPages(pages, cnt, 0);
        }
      } else {
        panicked := must;
      }
    }

    method FillPages(pages: nat, cnt: nat, b: Byte)
      modifies `ram
      ensures ram == Filled(old(ram), pages, cnt, b)
    {
      var k := 0;
      while k < cnt
        invariant k <= cnt && ram == Filled(old(ram), pages, k, b)
      {
        ram := ram[pages + PGSIZE * k := seq(PGSIZE, _ => b)];
        k := k + 1;
      }
    }

    /** palloc_free_multiple: finds the pool by address, overwrites the pages and unmarks exactly them. */
    method FreeMultiple(pages: nat, cnt: nat, ghost user: bool)
      requires Valid() && pages % PGSIZE == 0
      requires pages != 0 && cnt != 0 ==>
                 && PoolOf(user).Holds(pages)
                 && RunAt(View(user), pages / PGSIZE - PoolOf(user).base / PGSIZE, cnt, true)
      modifies `ram, kernelPool.usedMap.bits, userPool.usedMap.bits
      ensures View(!user) == old(View(!user))
      ensures View(user) == if pages == 0 || cnt == 0 then old(View(user))
                            else Fill(old(View(user)), pages / PGSIZE - PoolOf(user).base / PGSIZE, cnt, false)
      ensures ram == if pages == 0 || cnt == 0 then old(ram) else Filled(old(ram), pages, cnt, 0xcc)
    {
      if pages == 0 || cnt == 0 {
        return;
      }
      var pool := userPool;
      if kernelPool.Holds(pages) {
        pool := kernelPool;
      }
      assert pool == PoolOf(user);
      FillPages(pages, cnt, 0xcc);
      pool.usedMap.SetMultiple(pages / PGSIZE - pool.base / PGSIZE, cnt, false);
    }

    /** A get is the call that PoolsRunKeeps speaks of; the run it returns is live from then on. */
    method GetRun(user: bool, zero: bool, must: bool, cnt: nat) returns (pages: nat, panicked: bool)
      requires Valid() && PoolsOk(Model())
      modifies this, kernelPool.usedMap.bits, userPool.usedMap.bits
      ensures PoolsOk(Model()) && Model() == DoCall(old(Model()), GetPages(user, cnt))
      ensures pages != 0 ==> IsRun(Model(), user, pages) && RunLength(Model(), pages) == cnt
      ensures pages == 0 ==> Model() == old(Model())
      ensures panicked <==> must && cnt > 0 && pages == 0
      ensures ram == if zero && pages != 0 then Filled(old(ram), pages, cnt, 0) else old(ram)
    {
      ghost var m := Model();
      ghost var i;
      pages, panicked, i := TakeRun(user, zero, must, cnt);
      CallKeeps(m, GetPages(user, cnt));
      if pages != 0 {
        FindsOwner(Model(), user, i);
      }
    }

    method TakeRun(user: bool, zero: bool, must: bool, cnt: nat) returns (pages: nat, panicked: bool, ghost i: nat)
      requires Valid()
      modifies this, kernelPool.usedMap.bits, userPool.usedMap.bits
      ensures Model() == DoCall(old(Model()), GetPages(user, cnt))
      ensures pages != 0 ==> var p := Chosen(Model(), user); i in p.live && p.live[i] == cnt && pages == PageAddress(p, i)
      ensures pages == 0 ==> Model() == old(Model())
      ensures panicked <==> must && cnt > 0 && pages == 0
      ensures ram == if zero && pages != 0 then Filled(old(ram), pages, cnt, 0) else old(ram)
    {
      i := 0;
      pages, panicked := GetMultiple(user, zero, must, cnt);
      if pages != 0 {
        i := FirstRun(old(View(user)), 0, cnt, false).value;
        if user {
          userLive := userLive[i := cnt];
        } else {
          kernelLive := kernelLive[i := cnt];
        }
      }
    }

    /** A free of a live run is the call that PoolsRunKeeps speaks of: the run is found by its address. */
    method FreeRun(pages: nat, cnt: nat)
      requires Valid() && PoolsOk(Model()) && pages % PGSIZE == 0
      requires pages != 0 && cnt != 0 ==> LawfulCall(Model(), FreePages(pages)) && cnt == RunLength(Model(), pages)
      modifies this, kernelPool.usedMap.bits, userPool.usedMap.bits
      ensures PoolsOk(Model())
      ensures pages == 0 || cnt == 0 ==> Model() == old(Model()) && ram == old(ram)
      ensures pages != 0 && cnt != 0 ==>
                && CanCall(old(Model()), FreePages(pages)) && Model() == DoCall(old(Model()), FreePages(pages))
                && ram == Filled(old(ram), pages, cnt, 0xcc)
    {
      ghost var m := Model();
      if pages == 0 || cnt == 0 {
        return;
      }
      FreeEffect(m, pages, FoundUser(m, pages), FoundIndex(m, pages), cnt);
      ReturnRun(pages, cnt, FoundUser(m, pages), FoundIndex(m, pages));
    }

    method ReturnRun(pages: nat, cnt: nat, ghost user: bool, ghost i: nat)
      requires Valid() && pages % PGSIZE == 0 && pages != 0 && cnt != 0
      requires PoolOf(user).Holds(pages) && i == pages / PGSIZE - PoolOf(user).base / PGSIZE && RunAt(View(user), i, cnt, true)
      modifies this, kernelPool.usedMap.bits, userPool.usedMap.bits
      ensures ram == Filled(old(ram), pages, cnt, 0xcc)
      ensures var p := Chosen(old(Model()), user);
              Model() == With(old(Model()), user, p.(used := Fill(p.used, i, cnt, false), live := p.live - {i}))
    {
      FreeMultiple(pages, cnt, user);
      if user {
        userLive := userLive - {i};
      } else {
        kernelLive := kernelLive - {i};
      }
    }
  }
}
