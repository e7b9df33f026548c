/** malloc and free as they run: descriptor search, block lists and arena headers updated in place. */
module MallocHeap {
  import opened Common
  import opened BitmapSpec
  import opened Palloc
  import opened HeapState
  import opened HeapSafety
  import opened HeapResize

  /** malloc_init: one descriptor per power of two from 16 up to, but not including, half a page. */
  method DescriptorSizes() returns (sizes: seq<nat>)
    ensures |sizes| == DESC_CNT && forall d :: 0 <= d < DESC_CNT ==> sizes[d] == BlockSize(d)
  {
    sizes := [];
    var blockSize := 16;
    assert BlockSize(6) == 1024 && BlockSize(7) == 2048;
    while blockSize < PGSIZE / 2
      invariant |sizes| <= DESC_CNT && blockSize == BlockSize(|sizes|)
      invariant forall d :: 0 <= d < |sizes| ==> sizes[d] == BlockSize(d)
      decreases DESC_CNT - |sizes|
    {
      sizes := sizes + [blockSize];
      blockSize := blockSize * 2;
    }
    SizesIncrease(|sizes|);
  }

  lemma SizesIncrease(d: nat)
    requires d <= DESC_CNT && BlockSize(d) >= 2048
    ensures d == DESC_CNT
  {
    if d < DESC_CNT {
      BlockSizes(d);
    }
  }

  // ----- removing an arena's blocks one by one -----

  /** list_remove: the list without its first `p`. */
  function Removed(s: seq<Ptr>, p: Ptr): seq<Ptr> {
    if s == [] then [] else if s[0] == p then s[1..] else [s[0]] + Removed(s[1..], p)
  }

  function Minus(s: seq<Ptr>, gone: seq<Ptr>): (r: seq<Ptr>)
    ensures forall q :: q in r ==> q in s && q !in gone
  {
    if s == [] then [] else (if s[0] in gone then [] else [s[0]]) + Minus(s[1..], gone)
  }

  lemma {:induction false} MinusMore(s: seq<Ptr>, gone: seq<Ptr>, p: Ptr)
    requires p !in s
    ensures Minus(s, gone + [p]) == Minus(s, gone)
  {
    if s != [] {
      MinusMore(s[1..], gone, p);
    }
  }

  lemma {:induction false} RemoveOne(s: seq<Ptr>, gone: seq<Ptr>, p: Ptr)
    requires NoDup(s) && p in s && p !in gone
    ensures Removed(Minus(s, gone), p) == Minus(s, gone + [p])
  {
    var rest := Minus(s[1..], gone);
    if s[0] == p {
      assert p !in s[1..];
      MinusMore(s[1..], gone, p);
      assert Minus(s, gone) == [p] + rest;
    } else {
      RemoveOne(s[1..], gone, p);
      assert s[0] in gone + [p] <==> s[0] in gone;
      if s[0] !in gone {
        assert Minus(s, gone) == [s[0]] + rest;
        assert ([s[0]] + rest)[1..] == rest;
        assert Removed(Minus(s, gone), p) == [s[0]] + Removed(rest, p);
      } else {
        assert Minus(s, gone) == rest && Minus(s, gone + [p]) == Minus(s[1..], gone + [p]);
      }
    }
  }

  lemma {:induction false} MinusNone(s: seq<Ptr>)
    ensures Minus(s, []) == s
  {
    if s != [] {
      MinusNone(s[1..]);
    }
  }

  lemma {:induction false} MinusAll(s: seq<Ptr>, page: nat, gone: seq<Ptr>)
    requires forall p :: p in s ==> (p in gone <==> p.page == page)
    ensures Minus(s, gone) == Without(s, page)
  {
    if s != [] {
      MinusAll(s[1..], page, gone);
    }
  }

  lemma BlockIsNew(page: nat, d: nat, i: nat)
    requires d < DESC_CNT
    ensures Block(page, d, i) !in Blocks(page, d, i)
  {
    BlockSizes(d);
    forall j | 0 <= j < i
      ensures Blocks(page, d, i)[j] != Block(page, d, i)
    {
      BlocksAt(page, d, i, j);
      BlocksSpaced(d, j, i);
    }
  }

  lemma RemoveBlockAt(s: seq<Ptr>, page: nat, d: nat, i: nat)
    requires d < DESC_CNT && i < BlocksPerArena(d) && NoDup(s)
    requires forall p :: p in AllBlocks(page, d) ==> p in s
    ensures Removed(Minus(s, Blocks(page, d, i)), Block(page, d, i)) == Minus(s, Blocks(page, d, i + 1))
  {
    BlocksAt(page, d, BlocksPerArena(d), i);
    assert AllBlocks(page, d)[i] in AllBlocks(page, d);
    BlockIsNew(page, d, i);
    RemoveOne(s, Blocks(page, d, i), Block(page, d, i));
  }

  class Allocator {
    const sizes: seq<nat>
    var used: seq<bool>
    ghost var runs: Runs
    var free: seq<seq<Ptr>>
    var arenas: map<nat, Arena>

    ghost function State(): Heap
      reads this
    {
      Heap(used, runs, free, arenas)
    }

    predicate Ready() {
      |sizes| == DESC_CNT && forall d :: 0 <= d < DESC_CNT ==> sizes[d] == BlockSize(d)
    }

    /** A new allocator holds no page. */
    constructor (pages: seq<bool>, ghost others: Runs)
      requires Owned(pages, others)
      ensures Ready() && Inv(State(), {}) && arenas == map[] && used == pages && runs == others
    {
      var table := DescriptorSizes();
      sizes := table;
      used, runs, free, arenas := pages, others, seq(DESC_CNT, _ => []), map[];
    }

    method FindDescriptor(size: nat) returns (d: nat)
      requires Ready()
      ensures d == DescFor(size, 0)
    {
      d := 0;
      while d < |sizes| && sizes[d] < size
        invariant d <= DESC_CNT && DescFor(size, d) == DescFor(size, 0)
      {
        d := d + 1;
      }
    }

    method GetPages(cnt: nat) returns (i: Option<nat>)
      modifies `used, `runs
      ensures i == if cnt == 0 then None else FirstRun(old(used), 0, cnt, false)
      ensures used == if i.Some? then Fill(old(used), i.value, cnt, true) else old(used)
      ensures runs == if i.Some? then old(runs)[i.value := cnt] else old(runs)
    {
      i := if cnt == 0 then None else FirstRun(used, 0, cnt, false);
      if i.Some? {
        used := Fill(used, i.value, cnt, true);
        runs := runs[i.value := cnt];
      }
    }

    method PushBlocks(page: nat, d: nat)
      requires Ready() && d < DESC_CNT == |free|
      modifies `free
      ensures free == old(free)[d := old(free)[d] + AllBlocks(page, d)]
    {
      BlockSizes(d);
      var i := 0;
      assert old(free)[d] + [] == old(free)[d];
      while i < (PGSIZE - ARENA_SIZE) / sizes[d]
        invariant i <= BlocksPerArena(d)
        invariant free == old(free)[d := old(free)[d] + Blocks(page, d, i)]
      {
        free := free[d := free[d] + [Ptr(page, ARENA_SIZE + i * sizes[d])]];
        i := i + 1;
        assert free[d] == old(free)[d] + Blocks(page, d, i);
      }
    }

    /** malloc: the state and the block are those of the specification, and the heap stays consistent. */
    method Malloc(size: nat, ghost live: set<Ptr>) returns (r: Option<Ptr>)
      requires Ready() && Inv(State(), live)
      modifies this
      ensures CanMalloc(old(State())) && (State(), r) == HeapState.Malloc(old(State()), size)
      ensures Inv(State(), Gained(live, r)) && (r.Some? ==> r.value !in live)
    {
      MallocKeeps(State(), live, size);
      if size == 0 {
        return None;
      }
      var d := FindDescriptor(size);
      if d == |sizes| {
        var cnt := ((size + ARENA_SIZE) % WORD + PGSIZE - 1) % WORD / PGSIZE;
        var i := GetPages(cnt);
        if i.None? {
          return None;
        }
        arenas := arenas[i.value := Big(cnt)];
        return Some(Ptr(i.value, ARENA_SIZE));
      }
      r := SmallBlock(d, live);
    }

    method SmallBlock(d: nat, ghost live: set<Ptr>) returns (r: Option<Ptr>)
      requires Ready() && Inv(State(), live) && CanMalloc(State()) && d < DESC_CNT
      modifies this
      ensures (State(), r) == MallocSmall(old(State()), d)
    {
      if free[d] == [] {
        var i := GetPages(1);
        if i.None? {
          return None;
        }
        BlockSizes(d);
        arenas := arenas[i.value := Small(d, (PGSIZE - ARENA_SIZE) / sizes[d])];
        PushBlocks(i.value, d);
        assert State() == NewArena(old(State()), d, i.value);
        FreshBlock(old(State()), live, d, i.value);
      }
      var p := free[d][0];
      free := free[d := free[d][1..]];
      arenas := arenas[p.page := arenas[p.page].(freeCnt := arenas[p.page].freeCnt - 1)];
      r := Some(p);
    }

    /** list_remove on a free list. */
    method RemoveBlock(s: seq<Ptr>, p: Ptr) returns (r: seq<Ptr>)
      ensures r == Removed(s, p)
    {
      var k := 0;
      while k < |s| && s[k] != p
        invariant k <= |s| && Removed(s, p) == s[..k] + Removed(s[k..], p)
      {
        k := k + 1;
      }
      r := if k < |s| then s[..k] + s[k + 1..] else s;
    }

    /** Takes every block of an idle arena off its list. */
    method RemoveBlocks(page: nat, d: nat, s: seq<Ptr>) returns (r: seq<Ptr>)
      requires Ready() && d < DESC_CNT && NoDup(s)
      requires forall p :: p in AllBlocks(page, d) ==> p in s
      requires forall p :: p in s && p.page == page ==> p in AllBlocks(page, d)
      ensures r == Without(s, page)
    {
      BlockSizes(d);
      MinusNone(s);
      r := s;
      var i := 0;
      while i < (PGSIZE - ARENA_SIZE) / sizes[d]
        invariant i <= BlocksPerArena(d)
        invariant r == Minus(s, Blocks(page, d, i))
      {
        RemoveBlockAt(s, page, d, i);
        r := RemoveBlock(r, Ptr(page, ARENA_SIZE + i * sizes[d]));
        i := i + 1;
      }
      BlocksOfPage(page, d);
      MinusAll(s, page, AllBlocks(page, d));
    }

    /** free: puts a block back and releases its arena once every block of it is free. */
    method Free(b: Option<Ptr>, ghost live: set<Ptr>)
      requires Ready() && Inv(State(), live) && (b.Some? ==> b.value in live)
      modifies this
      ensures b.None? ==> State() == old(State())
      ensures b.Some? ==> CanFree(old(State()), b.value) && State() == FreeBlock(old(State()), b.value)
      ensures Inv(State(), if b.Some? then live - {b.value} else live)
    {
      if b.None? {
        return;
      }
      var p := b.value;
      FreeKeeps(State(), live, p);
      assert LiveOk(State(), p) && ArenaOk(State(), live, p.page);
      match arenas[p.page]
      case Big(n) =>
        used := Fill(used, p.page, n, false);
        runs := runs - {p.page};
        arenas := arenas - {p.page};
      case Small(d, c) =>
        FreeToArena(p, d, live);
    }

    /** The branch of free for a block that shares its arena. */
    method FreeToArena(p: Ptr, d: nat, ghost live: set<Ptr>)
      requires Ready() && Consistent(State(), live) && p in live && HasSmall(State(), p.page, d)
      requires d < DESC_CNT && p.page < |used|
      modifies this
      ensures State() == FreeSmall(old(State()), p, d)
    {
      PushKeeps(State(), live, p, d);
      free := free[d := [p] + free[d]];
      arenas := arenas[p.page := Small(d, arenas[p.page].freeCnt + 1)];
      assert State() == PushBlock(old(State()), p, d);
      if arenas[p.page].freeCnt >= (PGSIZE - ARENA_SIZE) / sizes[d] {
        assert ListOk(State(), d) && ArenaOk(State(), live - {p}, p.page);
        FullArena(free[d], p.page, d);
        var rest := RemoveBlocks(p.page, d, free[d]);
        free := free[d := rest];
        used := Fill(used, p.page, 1, false);
        runs := runs - {p.page};
        arenas := arenas - {p.page};
      }
    }

    /** block_size */
    method SizeOf(p: Ptr, ghost live: set<Ptr>) returns (n: nat)
      requires Ready() && Inv(State(), live) && p in live
      ensures p.page in arenas && n == Usable(State(), p)
    {
      LiveInside(State(), live, p);
      assert LiveOk(State(), p);
      match arenas[p.page]
      case Small(d, _) => n := sizes[d];
      case Big(pages) => n := PGSIZE * pages - p.ofs;
    }

    /** realloc: the specified state and block, and how many bytes are copied into it. */
    method Realloc(was: Option<Ptr>, size: nat, ghost live: set<Ptr>) returns (r: Option<Ptr>, copied: nat)
      requires Ready() && Inv(State(), live) && (was.Some? ==> was.value in live)
      modifies this
      ensures CanRealloc(old(State()), was, size) && (State(), r) == HeapResize.Realloc(old(State()), was, size)
      ensures Inv(State(), Resized(live, was, size, r))
      ensures was.Some? && r.Some? ==> was.value.page in old(arenas) && copied == CopyLength(old(State()), was.value, size)
    {
      ReallocKeeps(State(), live, was, size);
      copied := 0;
      if size == 0 {
        Free(was, live);
        return None, 0;
      }
      r := Malloc(size, live);
      if was.Some? && r.Some? {
        CopyLengthIs(old(State()), live, State(), was.value, size);
        var oldSize := SizeOf(was.value, Gained(live, r));
        copied := if size < oldSize then size else oldSize;
        Free(was, Gained(live, r));
      }
    }

    /** calloc: the specified state and block, and how many bytes are zeroed. */
    method Calloc(a: nat, b: nat, ghost live: set<Ptr>) returns (r: Option<Ptr>, zeroed: nat)
      requires Ready() && Inv(State(), live)
      modifies this
      ensures CanMalloc(old(State())) && (State(), r) == HeapResize.Calloc(old(State()), a, b)
      ensures Inv(State(), Gained(live, r)) && (r.Some? ==> r.value !in live)
      ensures zeroed == if r.Some? then Product(a, b) else 0
    {
      InvAllowsMalloc(State(), live);
      zeroed := 0;
      var size := Product(a, b);
      if size < a || size < b {
        return None, 0;
      }
      r := Malloc(size, live);
      if r.Some? {
        zeroed := size;
      }
    }
  }
}
