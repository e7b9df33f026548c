/** Every sequence of malloc and free keeps the heap consistent: live blocks are disjoint and clear of arena
    headers, and an arena with nothing live goes back to the page allocator. */
module HeapSafety {
  import opened Common
  import opened BitmapSpec
  import opened Palloc
  import opened HeapState

  // ----- invariant -----

  /** The blocks of an arena that are on a list. */
  function FreeIn(s: seq<Ptr>, page: nat): set<Ptr> {
    set p | p in s && p.page == page
  }

  /** The arena's pages are its own and its count of free blocks is exact; every block is free or live. */
  predicate ArenaOk(h: Heap, live: set<Ptr>, page: nat)
    requires |h.free| == DESC_CNT && page in h.arenas
  {
    match h.arenas[page]
    case Small(d, c) =>
      && d < DESC_CNT && page in h.runs && h.runs[page] == 1
      && c == |FreeIn(h.free[d], page)|
      && forall p :: p in AllBlocks(page, d) ==> p in h.free[d] || p in live
    case Big(n) => page in h.runs && h.runs[page] == n && Ptr(page, ARENA_SIZE) in live
  }

  predicate ListOk(h: Heap, d: nat)
    requires d < |h.free|
  {
    && NoDup(h.free[d])
    && forall p :: p in h.free[d] ==> HasSmall(h, p.page, d) && p in AllBlocks(p.page, d)
  }

  predicate LiveOk(h: Heap, p: Ptr)
    requires |h.free| == DESC_CNT
  {
    && p.page in h.arenas
    && match h.arenas[p.page]
       case Small(d, _) => d < DESC_CNT && p in AllBlocks(p.page, d) && p !in h.free[d]
       case Big(n) => p.ofs == ARENA_SIZE
  }

  predicate Consistent(h: Heap, live: set<Ptr>) {
    && |h.free| == DESC_CNT && Owned(h.used, h.runs)
    && (forall page :: page in h.arenas ==> ArenaOk(h, live, page))
    && (forall d :: 0 <= d < DESC_CNT ==> ListOk(h, d))
    && (forall p :: p in live ==> LiveOk(h, p))
  }

  /** Some block of the arena is in use. */
  predicate Busy(a: Arena) {
    a.Small? ==> a.freeCnt < BlocksPerArena(a.desc)
  }

  /** Between calls no arena is entirely free. */
  predicate Inv(h: Heap, live: set<Ptr>) {
    Consistent(h, live) && forall page :: page in h.arenas ==> Busy(h.arenas[page])
  }

  lemma ConsistentCanPop(h: Heap, live: set<Ptr>, d: nat)
    requires Consistent(h, live) && d < DESC_CNT && h.free[d] != []
    ensures CanPop(h, d)
  {
    var p := h.free[d][0];
    assert ListOk(h, d) && p in h.free[d];
    assert ArenaOk(h, live, p.page);
    assert p in FreeIn(h.free[d], p.page);
  }

  lemma InvAllowsMalloc(h: Heap, live: set<Ptr>)
    requires Consistent(h, live)
    ensures CanMalloc(h)
  {
    forall d | 0 <= d < DESC_CNT && h.free[d] != []
      ensures CanPop(h, d)
    {
      ConsistentCanPop(h, live, d);
    }
  }

  lemma InvAllowsFree(h: Heap, live: set<Ptr>, p: Ptr)
    requires Inv(h, live) && p in live
    ensures CanFree(h, p)
  {
    assert LiveOk(h, p) && ArenaOk(h, live, p.page);
  }

  // ----- blocks of one arena -----

  lemma InBlocks(p: Ptr, page: nat, d: nat)
    requires p in AllBlocks(page, d)
    ensures p.page == page && exists i: nat :: i < BlocksPerArena(d) && p == Block(page, d, i)
  {
    var i: nat :| i < |AllBlocks(page, d)| && AllBlocks(page, d)[i] == p;
    BlocksAt(page, d, BlocksPerArena(d), i);
  }

  lemma BlocksNoDup(page: nat, d: nat)
    requires d < DESC_CNT
    ensures NoDup(AllBlocks(page, d))
  {
    var s := AllBlocks(page, d);
    forall i, j | 0 <= i < j < |s|
      ensures s[i] != s[j]
    {
      BlocksAt(page, d, |s|, i);
      BlocksAt(page, d, |s|, j);
      BlockSizes(d);
      BlocksSpaced(d, i, j);
    }
  }

  lemma {:induction false} SetOfNoDup(s: seq<Ptr>, all: set<Ptr>)
    requires NoDup(s) && forall p :: p in all <==> p in s
    ensures |all| == |s|
  {
    if s == [] {
      assert all == {};
    } else {
      SetOfNoDup(s[1..], all - {s[0]});
    }
  }

  lemma {:induction false} SubsetSize(s: set<Ptr>, t: set<Ptr>)
    requires s <= t
    ensures |s| <= |t| && (|s| == |t| ==> s == t)
  {
    assert t == s + (t - s);
  }

  /** A list that holds only blocks of this arena for the page holds all of them when the count says so. */
  lemma FullArena(s: seq<Ptr>, page: nat, d: nat)
    requires d < DESC_CNT
    requires forall p :: p in s && p.page == page ==> p in AllBlocks(page, d)
    ensures |FreeIn(s, page)| <= BlocksPerArena(d)
    ensures |FreeIn(s, page)| == BlocksPerArena(d) <==> forall p :: p in AllBlocks(page, d) ==> p in s
  {
    var all := set p | p in AllBlocks(page, d);
    BlocksNoDup(page, d);
    SetOfNoDup(AllBlocks(page, d), all);
    assert FreeIn(s, page) <= all;
    SubsetSize(FreeIn(s, page), all);
    if forall p :: p in AllBlocks(page, d) ==> p in s {
      forall p | p in all
        ensures p in FreeIn(s, page)
      {
        InBlocks(p, page, d);
      }
      assert FreeIn(s, page) == all;
    }
    if |FreeIn(s, page)| == BlocksPerArena(d) {
      assert forall p :: p in AllBlocks(page, d) ==> p in all;
    }
  }

  // ----- what the invariant means -----

  /** Address of a pointer in a pool that starts at `base`. */
  function Addr(base: nat, p: Ptr): nat {
    base + PGSIZE * p.page + p.ofs
  }

  function Extent(h: Heap, page: nat): nat
    requires page in h.arenas
  {
    if h.arenas[page].Small? then 1 else h.arenas[page].pages
  }

  /** Arenas do not overlap. */
  lemma ArenasApart(h: Heap, live: set<Ptr>, i: nat, j: nat)
    requires Inv(h, live) && i in h.arenas && j in h.arenas && i < j
    ensures i + Extent(h, i) <= j
  {
    assert ArenaOk(h, live, i) && ArenaOk(h, live, j);
  }

  /** A live block lies inside its arena's pages, past the header. */
  lemma LiveInside(h: Heap, live: set<Ptr>, p: Ptr)
    requires Inv(h, live) && p in live
    ensures p.page in h.arenas && ARENA_SIZE <= p.ofs && 0 < Usable(h, p)
    ensures p.ofs + Usable(h, p) <= PGSIZE * Extent(h, p.page)
  {
    assert LiveOk(h, p) && ArenaOk(h, live, p.page);
    if h.arenas[p.page].Small? {
      var d := h.arenas[p.page].desc;
      InBlocks(p, p.page, d);
      var i: nat :| i < BlocksPerArena(d) && p == Block(p.page, d, i);
      BlockFits(d, i);
      BlockSizes(d);
    }
  }

  lemma SamePageDisjoint(p: Ptr, q: Ptr, page: nat, d: nat)
    requires d < DESC_CNT && p in AllBlocks(page, d) && q in AllBlocks(page, d) && p != q
    ensures p.ofs + BlockSize(d) <= q.ofs || q.ofs + BlockSize(d) <= p.ofs
  {
    InBlocks(p, page, d);
    InBlocks(q, page, d);
    var i: nat :| i < BlocksPerArena(d) && p == Block(page, d, i);
    var j: nat :| j < BlocksPerArena(d) && q == Block(page, d, j);
    if i < j {
      BlocksSpaced(d, i, j);
    } else {
      BlocksSpaced(d, j, i);
    }
  }

  predicate Disjoint(a: nat, m: int, b: nat, n: int) {
    a + m <= b || b + n <= a
  }

  /** Live blocks are pairwise disjoint. */
  lemma LiveDisjoint(h: Heap, live: set<Ptr>, base: nat, p: Ptr, q: Ptr)
    requires Inv(h, live) && p in live && q in live && p != q
    ensures p.page in h.arenas && q.page in h.arenas
    ensures Disjoint(Addr(base, p), Usable(h, p), Addr(base, q), Usable(h, q))
  {
    LiveInside(h, live, p);
    LiveInside(h, live, q);
    if p.page < q.page {
      ArenasApart(h, live, p.page, q.page);
    } else if q.page < p.page {
      ArenasApart(h, live, q.page, p.page);
    } else {
      assert LiveOk(h, p) && LiveOk(h, q);
      SamePageDisjoint(p, q, p.page, h.arenas[p.page].desc);
    }
  }

  /** No live block touches the header of any arena. */
  lemma LiveClearOfHeaders(h: Heap, live: set<Ptr>, base: nat, p: Ptr, page: nat)
    requires Inv(h, live) && p in live && page in h.arenas
    ensures p.page in h.arenas
    ensures Disjoint(Addr(base, p), Usable(h, p), Addr(base, Ptr(page, 0)), ARENA_SIZE)
  {
    LiveInside(h, live, p);
    if p.page < page {
      ArenasApart(h, live, p.page, page);
    } else if page < p.page {
      ArenasApart(h, live, page, p.page);
      assert ArenaOk(h, live, page);
    }
  }

  /** With nothing live there is no arena left: every page malloc took has been given back. */
  lemma NothingLiveNoArenas(h: Heap)
    requires Inv(h, {})
    ensures h.arenas == map[]
  {
    forall page | page in h.arenas
      ensures false
    {
      assert ArenaOk(h, {}, page);
      var d := h.arenas[page].desc;
      assert ListOk(h, d);
      FullArena(h.free[d], page, d);
    }
  }

  // ----- malloc keeps the invariant -----

  lemma FreeInPop(s: seq<Ptr>, page: nat)
    requires s != [] && NoDup(s)
    ensures s[0] !in s[1..] && (forall p :: p in s[1..] ==> p in s) && NoDup(s[1..])
    ensures FreeIn(s[1..], page) == FreeIn(s, page) - {s[0]}
    ensures page != s[0].page ==> FreeIn(s[1..], page) == FreeIn(s, page)
    ensures page == s[0].page ==> |FreeIn(s[1..], page)| == |FreeIn(s, page)| - 1
  {
    assert s == [s[0]] + s[1..];
    assert page == s[0].page ==> s[0] in FreeIn(s, page);
  }

  lemma PopArenas(h: Heap, live: set<Ptr>, d: nat, page: nat)
    requires Consistent(h, live) && d < DESC_CNT && CanPop(h, d) && page in h.arenas
    ensures ArenaOk(PopBlock(h, d).0, live + {h.free[d][0]}, page)
  {
    var s := h.free[d];
    assert ListOk(h, d) && ArenaOk(h, live, page);
    FreeInPop(s, page);
    assert s == [s[0]] + s[1..];
  }

  lemma PopLists(h: Heap, live: set<Ptr>, d: nat, e: nat)
    requires Consistent(h, live) && d < DESC_CNT && CanPop(h, d) && e < DESC_CNT
    ensures ListOk(PopBlock(h, d).0, e)
  {
    assert ListOk(h, d) && ListOk(h, e);
    FreeInPop(h.free[d], 0);
    var h' := PopBlock(h, d).0;
    forall p | p in h'.free[e]
      ensures HasSmall(h', p.page, e) && p in AllBlocks(p.page, e)
    {
      assert p in h.free[e];
    }
  }

  lemma PopLive(h: Heap, live: set<Ptr>, d: nat, q: Ptr)
    requires Consistent(h, live) && d < DESC_CNT && CanPop(h, d) && q in live + {h.free[d][0]}
    ensures LiveOk(PopBlock(h, d).0, q)
  {
    assert ListOk(h, d) && h.free[d][0] in h.free[d];
    assert q in live ==> LiveOk(h, q);
    FreeInPop(h.free[d], 0);
  }

  /** Taking a block off its list makes it live and nothing else. */
  lemma PopKeeps(h: Heap, live: set<Ptr>, d: nat)
    requires Consistent(h, live) && d < DESC_CNT && CanPop(h, d)
    ensures Consistent(PopBlock(h, d).0, live + {h.free[d][0]})
  {
    forall page | page in h.arenas
      ensures ArenaOk(PopBlock(h, d).0, live + {h.free[d][0]}, page)
    {
      PopArenas(h, live, d, page);
    }
    forall e | 0 <= e < DESC_CNT
      ensures ListOk(PopBlock(h, d).0, e)
    {
      PopLists(h, live, d, e);
    }
    forall q | q in live + {h.free[d][0]}
      ensures LiveOk(PopBlock(h, d).0, q)
    {
      PopLive(h, live, d, q);
    }
  }

  lemma PopBusy(h: Heap, live: set<Ptr>, d: nat)
    requires Consistent(h, live) && d < DESC_CNT && CanPop(h, d)
    ensures h.free[d][0] !in live && Busy(PopBlock(h, d).0.arenas[h.free[d][0].page])
  {
    var p := h.free[d][0];
    assert ListOk(h, d) && p in h.free[d];
    assert p in live ==> LiveOk(h, p);
    assert ArenaOk(h, live, p.page);
    FullArena(h.free[d], p.page, d);
  }

  lemma FreeRun(h: Heap, live: set<Ptr>, i: nat, cnt: nat)
    requires Consistent(h, live) && cnt >= 1 && RunAt(h.used, i, cnt, false)
    ensures i !in h.runs && i !in h.arenas && Owned(Fill(h.used, i, cnt, true), h.runs[i := cnt])
    ensures forall p :: p in live ==> p.page != i
    ensures forall d, p :: 0 <= d < DESC_CNT && p in h.free[d] ==> p.page != i
  {
    GetKeepsOwned(h.used, h.runs, cnt, i);
    assert i in h.arenas ==> ArenaOk(h, live, i);
    forall p | p in live
      ensures p.page != i
    {
      assert LiveOk(h, p);
    }
    forall d, p | 0 <= d < DESC_CNT && p in h.free[d]
      ensures p.page != i
    {
      assert ListOk(h, d);
    }
  }

  /** A big block makes a new arena and leaves the rest alone. */
  lemma BigKeeps(h: Heap, live: set<Ptr>, i: nat, cnt: nat)
    requires Consistent(h, live) && cnt >= 1 && RunAt(h.used, i, cnt, false)
    ensures Ptr(i, ARENA_SIZE) !in live
    ensures Consistent(TakePages(h, i, cnt, Big(cnt)), live + {Ptr(i, ARENA_SIZE)})
  {
    FreeRun(h, live, i, cnt);
    var h', live' := TakePages(h, i, cnt, Big(cnt)), live + {Ptr(i, ARENA_SIZE)};
    forall page | page in h'.arenas
      ensures ArenaOk(h', live', page)
    {
      assert page != i ==> ArenaOk(h, live, page);
    }
    forall d | 0 <= d < DESC_CNT
      ensures ListOk(h', d)
    {
      assert ListOk(h, d);
    }
    forall p | p in live'
      ensures LiveOk(h', p)
    {
      assert p in live ==> LiveOk(h, p);
    }
  }

  lemma BlocksOfPage(page: nat, d: nat)
    requires d < DESC_CNT
    ensures FreeIn(AllBlocks(page, d), page) == (set p | p in AllBlocks(page, d))
    ensures |FreeIn(AllBlocks(page, d), page)| == BlocksPerArena(d)
    ensures forall p :: p in AllBlocks(page, d) ==> p.page == page
  {
    forall p | p in AllBlocks(page, d)
      ensures p.page == page
    {
      InBlocks(p, page, d);
    }
    FullArena(AllBlocks(page, d), page, d);
  }

  lemma NewArenaArenas(h: Heap, live: set<Ptr>, d: nat, i: nat, page: nat)
    requires Consistent(h, live) && d < DESC_CNT && h.free[d] == [] && RunAt(h.used, i, 1, false)
    requires page in h.arenas || page == i
    ensures ArenaOk(NewArena(h, d, i), live, page)
  {
    var h' := NewArena(h, d, i);
    FreeRun(h, live, i, 1);
    assert h'.free[d] == AllBlocks(i, d);
    BlocksOfPage(i, d);
    if page != i {
      assert ArenaOk(h, live, page);
      assert FreeIn(h'.free[d], page) == {} == FreeIn(h.free[d], page);
    }
  }

  lemma NewArenaLists(h: Heap, live: set<Ptr>, d: nat, i: nat, e: nat)
    requires Consistent(h, live) && d < DESC_CNT && h.free[d] == [] && RunAt(h.used, i, 1, false) && e < DESC_CNT
    ensures ListOk(NewArena(h, d, i), e)
  {
    FreeRun(h, live, i, 1);
    assert ListOk(h, e);
    assert NewArena(h, d, i).free[d] == AllBlocks(i, d);
    BlocksOfPage(i, d);
    BlocksNoDup(i, d);
  }

  lemma NewArenaLive(h: Heap, live: set<Ptr>, d: nat, i: nat, p: Ptr)
    requires Consistent(h, live) && d < DESC_CNT && h.free[d] == [] && RunAt(h.used, i, 1, false) && p in live
    ensures LiveOk(NewArena(h, d, i), p)
  {
    FreeRun(h, live, i, 1);
    assert LiveOk(h, p);
    assert NewArena(h, d, i).free[d] == AllBlocks(i, d);
    BlocksOfPage(i, d);
  }

  /** A new arena adds all of its blocks to the empty list of its descriptor. */
  lemma NewArenaKeeps(h: Heap, live: set<Ptr>, d: nat, i: nat)
    requires Consistent(h, live) && d < DESC_CNT && h.free[d] == [] && RunAt(h.used, i, 1, false)
    ensures Consistent(NewArena(h, d, i), live)
  {
    FreeRun(h, live, i, 1);
    var h' := NewArena(h, d, i);
    forall page | page in h'.arenas
      ensures ArenaOk(h', live, page)
    {
      NewArenaArenas(h, live, d, i, page);
    }
    forall e | 0 <= e < DESC_CNT
      ensures ListOk(h', e)
    {
      NewArenaLists(h, live, d, i, e);
    }
    forall p | p in live
      ensures LiveOk(h', p)
    {
      NewArenaLive(h, live, d, i, p);
    }
  }

  function Gained(live: set<Ptr>, r: Option<Ptr>): set<Ptr> {
    if r.Some? then live + {r.value} else live
  }

  lemma FreshBlock(h: Heap, live: set<Ptr>, d: nat, i: nat)
    requires Inv(h, live) && d < DESC_CNT && h.free[d] == [] && RunAt(h.used, i, 1, false)
    ensures var h1 := NewArena(h, d, i);
            CanPop(h1, d) && h1.free[d][0] !in live && Inv(PopBlock(h1, d).0, live + {h1.free[d][0]})
  {
    var h1 := NewArena(h, d, i);
    NewArenaKeeps(h, live, d, i);
    BlockSizes(d);
    FirstBlock(i, d, BlocksPerArena(d));
    assert h1.free[d] == AllBlocks(i, d);
    ConsistentCanPop(h1, live, d);
    PopKeeps(h1, live, d);
    PopBusy(h1, live, d);
  }

  lemma SmallKeeps(h: Heap, live: set<Ptr>, d: nat)
    requires Inv(h, live) && d < DESC_CNT && CanMalloc(h)
    ensures var (h', r) := MallocSmall(h, d);
            Inv(h', Gained(live, r)) && (r.Some? ==> r.value !in live) && (r.None? ==> h' == h)
  {
    if h.free[d] != [] {
      PopKeeps(h, live, d);
      PopBusy(h, live, d);
    } else {
      match FirstRun(h.used, 0, 1, false)
      case None =>
      case Some(i) => FreshBlock(h, live, d, i);
    }
  }

  /** malloc keeps the invariant; the block it returns was not live, and a null result changes nothing. */
  lemma MallocKeeps(h: Heap, live: set<Ptr>, size: nat)
    requires Inv(h, live)
    ensures CanMalloc(h)
    ensures var (h', r) := Malloc(h, size);
            Inv(h', Gained(live, r)) && (r.Some? ==> r.value !in live) && (r.None? ==> h' == h)
  {
    InvAllowsMalloc(h, live);
    if size != 0 {
      if DescFor(size, 0) < DESC_CNT {
        SmallKeeps(h, live, DescFor(size, 0));
      } else if BigPages(size) > 0 {
        match FirstRun(h.used, 0, BigPages(size), false)
        case None =>
        case Some(i) => BigKeeps(h, live, i, BigPages(size));
      }
    }
  }

  // ----- free keeps the invariant -----

  lemma FreeInPush(s: seq<Ptr>, p: Ptr, page: nat)
    requires NoDup(s) && p !in s
    ensures NoDup([p] + s)
    ensures page != p.page ==> FreeIn([p] + s, page) == FreeIn(s, page)
    ensures page == p.page ==> |FreeIn([p] + s, page)| == |FreeIn(s, page)| + 1
  {
    assert page == p.page ==> FreeIn([p] + s, page) == FreeIn(s, page) + {p};
    assert page != p.page ==> FreeIn([p] + s, page) == FreeIn(s, page);
  }

  lemma PushArenas(h: Heap, live: set<Ptr>, p: Ptr, d: nat, page: nat)
    requires Consistent(h, live) && p in live && d < DESC_CNT && HasSmall(h, p.page, d) && page in h.arenas
    ensures ArenaOk(PushBlock(h, p, d), live - {p}, page)
  {
    assert ListOk(h, d) && LiveOk(h, p) && ArenaOk(h, live, page);
    FreeInPush(h.free[d], p, page);
    var h' := PushBlock(h, p, d);
    if h.arenas[page].Small? {
      var e := h.arenas[page].desc;
      BlocksOfPage(page, e);
      forall q | q in AllBlocks(page, e)
        ensures q in h'.free[e] || q in live - {p}
      {
        assert q == p ==> page == p.page;
      }
    }
  }

  lemma PushLists(h: Heap, live: set<Ptr>, p: Ptr, d: nat, e: nat)
    requires Consistent(h, live) && p in live && d < DESC_CNT && HasSmall(h, p.page, d) && e < DESC_CNT
    ensures ListOk(PushBlock(h, p, d), e)
  {
    assert ListOk(h, d) && LiveOk(h, p) && ListOk(h, e);
    FreeInPush(h.free[d], p, 0);
    var h' := PushBlock(h, p, d);
    forall q | q in h'.free[e]
      ensures HasSmall(h', q.page, e) && q in AllBlocks(q.page, e)
    {
      assert q in h.free[e] || (q == p && e == d);
    }
  }

  /** Putting a live block back on its list. */
  lemma PushKeeps(h: Heap, live: set<Ptr>, p: Ptr, d: nat)
    requires Consistent(h, live) && p in live && d < DESC_CNT && HasSmall(h, p.page, d)
    ensures Consistent(PushBlock(h, p, d), live - {p})
  {
    forall page | page in h.arenas
      ensures ArenaOk(PushBlock(h, p, d), live - {p}, page)
    {
      PushArenas(h, live, p, d, page);
    }
    forall e | 0 <= e < DESC_CNT
      ensures ListOk(PushBlock(h, p, d), e)
    {
      PushLists(h, live, p, d, e);
    }
    forall q | q in live - {p}
      ensures LiveOk(PushBlock(h, p, d), q)
    {
      assert LiveOk(h, q);
    }
  }

  lemma {:induction false} WithoutNoDup(s: seq<Ptr>, page: nat)
    requires NoDup(s)
    ensures NoDup(Without(s, page))
  {
    if s != [] {
      WithoutNoDup(s[1..], page);
      assert s[0] !in s[1..];
    }
  }

  lemma ReleaseArenas(h: Heap, live: set<Ptr>, page: nat, d: nat, q: nat)
    requires Consistent(h, live) && d < DESC_CNT && HasSmall(h, page, d) && page < |h.used|
    requires q in h.arenas && q != page
    ensures ArenaOk(ReleaseArena(h, page, d), live, q)
  {
    assert ArenaOk(h, live, q);
    assert FreeIn(Without(h.free[d], page), q) == FreeIn(h.free[d], q);
    BlocksOfPageMember(h, q);
  }

  /** Releasing an arena none of whose blocks is live. */
  lemma ReleaseKeeps(h: Heap, live: set<Ptr>, page: nat, d: nat)
    requires Consistent(h, live) && d < DESC_CNT && HasSmall(h, page, d) && page < |h.used|
    requires forall p :: p in live ==> p.page != page
    ensures Consistent(ReleaseArena(h, page, d), live)
  {
    var h' := ReleaseArena(h, page, d);
    assert ArenaOk(h, live, page) && ListOk(h, d);
    FreeKeepsOwned(h.used, h.runs, page);
    WithoutNoDup(h.free[d], page);
    forall q | q in h'.arenas
      ensures ArenaOk(h', live, q)
    {
      ReleaseArenas(h, live, page, d, q);
    }
    forall e | 0 <= e < DESC_CNT
      ensures ListOk(h', e)
    {
      assert ListOk(h, e);
    }
    forall p | p in live
      ensures LiveOk(h', p)
    {
      assert LiveOk(h, p);
    }
  }

  lemma BlocksOfPageMember(h: Heap, q: nat)
    requires q in h.arenas
    ensures h.arenas[q].Small? && h.arenas[q].desc < DESC_CNT ==>
              forall p :: p in AllBlocks(q, h.arenas[q].desc) ==> p.page == q
  {
    if h.arenas[q].Small? && h.arenas[q].desc < DESC_CNT {
      BlocksOfPage(q, h.arenas[q].desc);
    }
  }

  /** Returning a big block's pages. */
  lemma DropKeeps(h: Heap, live: set<Ptr>, p: Ptr)
    requires Consistent(h, live) && p in live && p.page in h.arenas && h.arenas[p.page].Big?
    ensures p.page + h.arenas[p.page].pages <= |h.used|
    ensures Consistent(DropPages(h, p.page, h.arenas[p.page].pages), live - {p})
  {
    assert ArenaOk(h, live, p.page) && LiveOk(h, p);
    var h', live' := DropPages(h, p.page, h.arenas[p.page].pages), live - {p};
    FreeKeepsOwned(h.used, h.runs, p.page);
    forall q | q in h'.arenas
      ensures ArenaOk(h', live', q)
    {
      assert ArenaOk(h, live, q);
      BlocksOfPageMember(h, q);
    }
    forall d | 0 <= d < DESC_CNT
      ensures ListOk(h', d)
    {
      assert ListOk(h, d);
    }
    forall q | q in live'
      ensures LiveOk(h', q)
    {
      assert LiveOk(h, q);
    }
  }

  /** An arena whose every block is free has no live block. */
  lemma IdleNotLive(h: Heap, live: set<Ptr>, page: nat, d: nat)
    requires Consistent(h, live) && d < DESC_CNT && HasSmall(h, page, d)
    requires h.arenas[page].freeCnt >= BlocksPerArena(d)
    ensures forall p :: p in live ==> p.page != page
  {
    assert ArenaOk(h, live, page) && ListOk(h, d);
    FullArena(h.free[d], page, d);
    forall p | p in live
      ensures p.page != page
    {
      assert LiveOk(h, p);
    }
  }

  /** free keeps the invariant: exactly the block freed stops being live. */
  lemma FreeKeeps(h: Heap, live: set<Ptr>, p: Ptr)
    requires Inv(h, live) && p in live
    ensures CanFree(h, p) && Inv(FreeBlock(h, p), live - {p})
  {
    InvAllowsFree(h, live, p);
    match h.arenas[p.page]
    case Big(n) => DropKeeps(h, live, p);
    case Small(d, _) =>
      PushKeeps(h, live, p, d);
      var h1 := PushBlock(h, p, d);
      if h1.arenas[p.page].freeCnt >= BlocksPerArena(d) {
        IdleNotLive(h1, live - {p}, p.page, d);
        ReleaseKeeps(h1, live - {p}, p.page, d);
      }
  }

  // ----- runs -----

  /** free(NULL) is a request like any other and does nothing. */
  datatype Op = Alloc(size: nat) | Free(p: Option<Ptr>)

  /** A pointer passed to free() must be live. */
  predicate CanDo(h: Heap, live: set<Ptr>, op: Op) {
    match op
    case Alloc(_) => CanMalloc(h)
    case Free(p) => p.Some? ==> p.value in live && CanFree(h, p.value)
  }

  function Do(h: Heap, live: set<Ptr>, op: Op): (Heap, set<Ptr>)
    requires CanDo(h, live, op)
  {
    match op
    case Alloc(size) => var (h', r) := Malloc(h, size); (h', Gained(live, r))
    case Free(p) => if p.None? then (h, live) else (FreeBlock(h, p.value), live - {p.value})
  }

  predicate Lawful(live: set<Ptr>, op: Op) {
    op.Free? && op.p.Some? ==> op.p.value in live
  }

  predicate Run(states: seq<(Heap, set<Ptr>)>, ops: seq<Op>) {
    && |states| == |ops| + 1
    && forall n :: 0 <= n < |ops| ==>
         && Lawful(states[n].1, ops[n])
         && (CanDo(states[n].0, states[n].1, ops[n]) ==> states[n + 1] == Do(states[n].0, states[n].1, ops[n]))
  }

  /** Pages held by others than this allocator. */
  function Others(h: Heap): Runs {
    h.runs - h.arenas.Keys
  }

  lemma TakeOthers(h: Heap, i: nat, cnt: nat, a: Arena)
    requires i + cnt <= |h.used| && i !in h.runs
    ensures Others(TakePages(h, i, cnt, a)) == Others(h)
  {
  }

  lemma PopOthers(h: Heap, d: nat)
    requires CanPop(h, d)
    ensures Others(PopBlock(h, d).0) == Others(h) && |PopBlock(h, d).0.used| == |h.used|
  {
  }

  lemma SmallOthers(h: Heap, live: set<Ptr>, d: nat)
    requires Inv(h, live) && CanMalloc(h) && d < DESC_CNT
    ensures Others(MallocSmall(h, d).0) == Others(h) && |MallocSmall(h, d).0.used| == |h.used|
  {
    if h.free[d] != [] {
      PopOthers(h, d);
    } else if FirstRun(h.used, 0, 1, false).Some? {
      var i := FirstRun(h.used, 0, 1, false).value;
      FreeRun(h, live, i, 1);
      TakeOthers(h, i, 1, Small(d, BlocksPerArena(d)));
      FreshBlock(h, live, d, i);
      PopOthers(NewArena(h, d, i), d);
    }
  }

  lemma MallocOthers(h: Heap, live: set<Ptr>, size: nat)
    requires Inv(h, live) && CanMalloc(h)
    ensures Others(Malloc(h, size).0) == Others(h) && |Malloc(h, size).0.used| == |h.used|
  {
    var d, cnt := DescFor(size, 0), BigPages(size);
    if d < DESC_CNT {
      SmallOthers(h, live, d);
    } else if cnt > 0 && FirstRun(h.used, 0, cnt, false).Some? {
      FreeRun(h, live, FirstRun(h.used, 0, cnt, false).value, cnt);
      TakeOthers(h, FirstRun(h.used, 0, cnt, false).value, cnt, Big(cnt));
    }
  }

  lemma FreeOthers(h: Heap, p: Ptr)
    requires CanFree(h, p)
    ensures Others(FreeBlock(h, p)) == Others(h) && |FreeBlock(h, p).used| == |h.used|
  {
  }

  /** Over every sequence of calls the heap stays consistent and every call is defined; pages held by others
      are untouched. */
  lemma {:induction false} RunKeepsInv(states: seq<(Heap, set<Ptr>)>, ops: seq<Op>, n: nat)
    requires Run(states, ops) && n <= |ops| && Inv(states[0].0, states[0].1)
    ensures Inv(states[n].0, states[n].1) && Others(states[n].0) == Others(states[0].0)
    ensures |states[n].0.used| == |states[0].0.used|
    ensures n < |ops| ==> CanDo(states[n].0, states[n].1, ops[n])
  {
    if n > 0 {
      RunKeepsInv(states, ops, n - 1);
      var h, live := states[n - 1].0, states[n - 1].1;
      assert Lawful(live, ops[n - 1]) && states[n - 1 + 1] == Do(h, live, ops[n - 1]);
      match ops[n - 1]
      case Alloc(size) =>
        MallocKeeps(h, live, size);
        MallocOthers(h, live, size);
      case Free(p) =>
        if p.Some? {
          FreeKeeps(h, live, p.value);
          FreeOthers(h, p.value);
        }
    }
    if n < |ops| {
      InvAllowsMalloc(states[n].0, states[n].1);
      if ops[n].Free? && ops[n].p.Some? {
        assert Lawful(states[n].1, ops[n]);
        InvAllowsFree(states[n].0, states[n].1, ops[n].p.value);
      }
    }
  }

  /** When every block has been freed, the page allocator has every page back. */
  lemma AllFreedAllReturned(states: seq<(Heap, set<Ptr>)>, ops: seq<Op>)
    requires Run(states, ops) && Inv(states[0].0, states[0].1)
    requires states[0].0.arenas == map[] && states[|ops|].1 == {}
    ensures states[|ops|].0.runs == states[0].0.runs && states[|ops|].0.used == states[0].0.used
  {
    RunKeepsInv(states, ops, |ops|);
    var h, h' := states[0].0, states[|ops|].0;
    NothingLiveNoArenas(h');
    assert Others(h) == h.runs && Others(h') == h'.runs;
    assert forall k :: 0 <= k < |h.used| ==> h.used[k] == h'.used[k];
  }

  /** The block returned holds the bytes asked for exactly when the size and the header together fit in 32 bits. */
  lemma EnoughIffNoWrap(h: Heap, live: set<Ptr>, size: nat)
    requires Inv(h, live) && CanMalloc(h) && size < WORD && Malloc(h, size).1.Some?
    ensures var (h', r) := Malloc(h, size);
            r.value.page in h'.arenas && (size <= Usable(h', r.value) <==> size + ARENA_SIZE <= WORD)
  {
    var d := DescFor(size, 0);
    if d < DESC_CNT {
      BlockSizes(d);
      if h.free[d] == [] {
        FirstBlock(FirstRun(h.used, 0, 1, false).value, d, BlocksPerArena(d));
      }
    } else {
      BigEnough(size);
    }
  }

  // ----- a block keeps its size -----

  predicate SameUsable(h: Heap, h': Heap, q: Ptr) {
    q.page in h.arenas && q.page in h'.arenas && Usable(h', q) == Usable(h, q)
  }

  lemma PopUsable(h: Heap, d: nat, q: Ptr)
    requires CanPop(h, d) && q.page in h.arenas
    ensures SameUsable(h, PopBlock(h, d).0, q)
  {
  }

  lemma SmallUsable(h: Heap, live: set<Ptr>, d: nat, q: Ptr)
    requires Inv(h, live) && CanMalloc(h) && d < DESC_CNT && q in live && q.page in h.arenas
    ensures SameUsable(h, MallocSmall(h, d).0, q)
  {
    if h.free[d] != [] {
      PopUsable(h, d, q);
    } else if FirstRun(h.used, 0, 1, false).Some? {
      var i := FirstRun(h.used, 0, 1, false).value;
      FreeRun(h, live, i, 1);
      FreshBlock(h, live, d, i);
      PopUsable(NewArena(h, d, i), d, q);
    }
  }

  /** A malloc leaves the size of every live block as it is. */
  lemma MallocUsable(h: Heap, live: set<Ptr>, size: nat, q: Ptr)
    requires Inv(h, live) && CanMalloc(h) && q in live
    ensures SameUsable(h, Malloc(h, size).0, q)
  {
    var d, cnt := DescFor(size, 0), BigPages(size);
    assert LiveOk(h, q);
    if d < DESC_CNT {
      SmallUsable(h, live, d, q);
    } else if cnt > 0 && FirstRun(h.used, 0, cnt, false).Some? {
      FreeRun(h, live, FirstRun(h.used, 0, cnt, false).value, cnt);
    }
  }

  /** So does a free of another block. */
  lemma FreeUsable(h: Heap, live: set<Ptr>, p: Ptr, q: Ptr)
    requires Inv(h, live) && CanFree(h, p) && p in live && q in live && p != q
    ensures SameUsable(h, FreeBlock(h, p), q)
  {
    FreeKeeps(h, live, p);
    assert LiveOk(h, q) && LiveOk(FreeBlock(h, p), q);
  }

  /** While a block is live its size does not change. */
  lemma {:induction false} RunUsable(states: seq<(Heap, set<Ptr>)>, ops: seq<Op>, i: nat, n: nat, p: Ptr)
    requires Run(states, ops) && Inv(states[0].0, states[0].1) && i <= n <= |ops|
    requires forall k :: i <= k <= n ==> p in states[k].1
    ensures SameUsable(states[i].0, states[n].0, p)
  {
    RunKeepsInv(states, ops, n);
    assert LiveOk(states[n].0, p);
    if i < n {
      RunUsable(states, ops, i, n - 1, p);
      RunKeepsInv(states, ops, n - 1);
      var h, live := states[n - 1].0, states[n - 1].1;
      assert Lawful(live, ops[n - 1]) && states[n - 1 + 1] == Do(h, live, ops[n - 1]);
      match ops[n - 1]
      case Alloc(size) => MallocUsable(h, live, size, p);
      case Free(q) =>
        if q.Some? {
          FreeUsable(h, live, q.value, p);
        }
    }
  }

  /** Step i is a malloc of that size which returned p, and p has been live ever since. */
  predicate Holds(states: seq<(Heap, set<Ptr>)>, ops: seq<Op>, i: nat, n: nat, size: nat, p: Ptr)
    requires Run(states, ops)
  {
    && i < n <= |ops| && size < WORD && ops[i] == Alloc(size)
    && CanMalloc(states[i].0) && Malloc(states[i].0, size).1 == Some(p)
    && forall k :: i < k <= n ==> p in states[k].1
  }

  /** A block holds the bytes asked for as long as it is live, exactly when the size and the header together fit
      in 32 bits. */
  lemma HeldIsEnough(states: seq<(Heap, set<Ptr>)>, ops: seq<Op>, i: nat, n: nat, size: nat, p: Ptr)
    requires Run(states, ops) && Inv(states[0].0, states[0].1) && Holds(states, ops, i, n, size, p)
    ensures p.page in states[n].0.arenas
    ensures size <= Usable(states[n].0, p) <==> size + ARENA_SIZE <= WORD
  {
    RunKeepsInv(states, ops, i);
    EnoughIffNoWrap(states[i].0, states[i].1, size);
    assert states[i + 1] == Do(states[i].0, states[i].1, ops[i]);
    RunUsable(states, ops, i + 1, n, p);
  }

  /** The bytes asked for in two mallocs are disjoint as long as both blocks are live. */
  lemma HeldDisjoint(states: seq<(Heap, set<Ptr>)>, ops: seq<Op>, base: nat, n: nat,
                     i: nat, size: nat, p: Ptr, j: nat, size': nat, q: Ptr)
    requires Run(states, ops) && Inv(states[0].0, states[0].1) && p != q
    requires Holds(states, ops, i, n, size, p) && size + ARENA_SIZE <= WORD
    requires Holds(states, ops, j, n, size', q) && size' + ARENA_SIZE <= WORD
    ensures Disjoint(Addr(base, p), size, Addr(base, q), size')
  {
    HeldIsEnough(states, ops, i, n, size, p);
    HeldIsEnough(states, ops, j, n, size', q);
    RunKeepsInv(states, ops, n);
    LiveDisjoint(states[n].0, states[n].1, base, p, q);
  }

  // ----- from a block to its arena -----

  lemma RoundDown(base: nat, page: nat, ofs: nat)
    requires base % PGSIZE == 0 && ofs < PGSIZE
    ensures (base + PGSIZE * page + ofs) % PGSIZE == ofs
  {
  }

  lemma BlockAligned(i: nat, d: nat)
    requires d < DESC_CNT
    ensures BlockSize(d) > 0 && i * BlockSize(d) % BlockSize(d) == 0
  {
    BlockSizes(d);
  }

  /** block_to_arena: rounding a block's address down to a page gives its arena's header, and the offset in the
      page passes the assertions on alignment. */
  lemma BlockToArena(h: Heap, live: set<Ptr>, base: nat, p: Ptr)
    requires Inv(h, live) && p in live && base % PGSIZE == 0
    ensures p.page in h.arenas
    ensures Addr(base, p) - Addr(base, p) % PGSIZE == Addr(base, Ptr(p.page, 0))
    ensures match h.arenas[p.page]
            case Small(d, _) => BlockSize(d) > 0 && (Addr(base, p) % PGSIZE - ARENA_SIZE) % BlockSize(d) == 0
            case Big(_) => Addr(base, p) % PGSIZE == ARENA_SIZE
  {
    LiveInside(h, live, p);
    assert LiveOk(h, p);
    match h.arenas[p.page]
    case Small(d, _) =>
      BlockSizes(d);
      RoundDown(base, p.page, p.ofs);
      InBlocks(p, p.page, d);
      var i: nat :| i < BlocksPerArena(d) && p == Block(p.page, d, i);
      BlockAligned(i, d);
    case Big(_) =>
      RoundDown(base, p.page, p.ofs);
  }

  // ----- when malloc succeeds -----

  /** `d` is the smallest class whose blocks hold `size` bytes. */
  predicate SmallestClass(d: nat, size: nat) {
    d < DESC_CNT && size <= BlockSize(d) && (d > 0 ==> BlockSize(d - 1) < size)
  }

  lemma {:induction false} SizesGrow(d: nat, e: nat)
    requires d <= e
    ensures BlockSize(d) <= BlockSize(e)
    decreases e
  {
    if d < e {
      SizesGrow(d, e - 1);
    }
  }

  lemma ClassIsDesc(d: nat, size: nat)
    requires SmallestClass(d, size)
    ensures DescFor(size, 0) == d
  {
    var e := DescFor(size, 0);
    assert e <= d;
    if e < d {
      SizesGrow(e, d - 1);
      assert false;
    }
  }

  lemma FreePage(used: seq<bool>)
    ensures match FirstRun(used, 0, 1, false)
            case None => forall k :: 0 <= k < |used| ==> used[k]
            case Some(i) => i < |used| && !used[i] && forall k :: 0 <= k < i ==> used[k]
  {
    assert forall k: nat :: k < |used| && !used[k] ==> RunAt(used, k, 1, false);
  }

  /** A small request is met exactly when its class has a free block or there is a free page. The block is the first
      on the class's list or else the first of a new arena in the lowest free page. */
  lemma SmallAnswer(h: Heap, live: set<Ptr>, size: nat, d: nat)
    requires Inv(h, live) && CanMalloc(h) && size > 0 && SmallestClass(d, size)
    ensures Malloc(h, size).1.Some? <==> h.free[d] != [] || exists k :: 0 <= k < |h.used| && !h.used[k]
    ensures h.free[d] != [] ==> Malloc(h, size).1 == Some(h.free[d][0])
    ensures h.free[d] == [] && Malloc(h, size).1.Some? ==>
              var p := Malloc(h, size).1.value;
              p.ofs == ARENA_SIZE && p.page < |h.used| && !h.used[p.page] && forall k :: 0 <= k < p.page ==> h.used[k]
  {
    ClassIsDesc(d, size);
    FreePage(h.used);
    if h.free[d] == [] && FirstRun(h.used, 0, 1, false).Some? {
      NewArenaAnswer(h, d, FirstRun(h.used, 0, 1, false).value);
    }
  }

  lemma NewArenaAnswer(h: Heap, d: nat, i: nat)
    requires CanMalloc(h) && d < DESC_CNT && h.free[d] == [] && FirstRun(h.used, 0, 1, false) == Some(i)
    ensures MallocSmall(h, d).1 == Some(Ptr(i, ARENA_SIZE))
  {
    BlockSizes(d);
    FirstBlock(i, d, BlocksPerArena(d));
  }

  /** Sizes from 1 to 1024 have a class, others none. */
  lemma ClassExistsIff(size: nat)
    ensures (exists d :: 0 <= d < DESC_CNT && SmallestClass(d, size)) <==> size <= 1024
  {
    var e := DescFor(size, 0);
    assert BlockSize(3) == 128 && BlockSize(6) == 1024;
    if size <= 1024 {
      assert e < DESC_CNT;
      assert SmallestClass(e, size);
    } else {
      forall d | 0 <= d < DESC_CNT
        ensures !SmallestClass(d, size)
      {
        BlockSizes(d);
      }
    }
  }

  /** A larger request whose size does not wrap is met exactly when there is a run of pages for it and its header. */
  lemma BigAnswer(h: Heap, live: set<Ptr>, size: nat)
    requires Inv(h, live) && CanMalloc(h) && 1024 < size && size + ARENA_SIZE + PGSIZE - 1 < WORD
    ensures var n := (size + ARENA_SIZE + PGSIZE - 1) / PGSIZE;
            && (Malloc(h, size).1.Some? <==> exists i :: 0 <= i <= |h.used| && RunAt(h.used, i, n, false))
            && (Malloc(h, size).1.Some? ==>
                  var p := Malloc(h, size).1.value; p.ofs == ARENA_SIZE && RunAt(h.used, p.page, n, false))
  {
    NoClass(size);
    assert BigPages(size) == (size + ARENA_SIZE + PGSIZE - 1) / PGSIZE > 0 by { PagesOf(size); }
  }

  lemma PagesOf(size: nat)
    requires size + ARENA_SIZE + PGSIZE - 1 < WORD
    ensures BigPages(size) == (size + ARENA_SIZE + PGSIZE - 1) / PGSIZE > 0
  {
  }

  lemma NoClass(size: nat)
    requires size > 1024
    ensures DescFor(size, 0) == DESC_CNT
  {
    var d := DescFor(size, 0);
    if d < DESC_CNT {
      BlockSizes(d);
    }
  }

  /** Nothing is given for a size of 0, nor for one that wraps only when it is rounded up to whole pages. */
  lemma NothingGiven(h: Heap, live: set<Ptr>, size: nat)
    requires Inv(h, live) && CanMalloc(h) && size < WORD
    requires size == 0 || WORD <= size + ARENA_SIZE + PGSIZE - 1 <= WORD + PGSIZE - 1
    ensures Malloc(h, size) == (h, None)
  {
    if size > 0 {
      NoClass(size);
      assert BigPages(size) == 0;
    }
  }
}
