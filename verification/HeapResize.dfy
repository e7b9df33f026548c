/** realloc and calloc over malloc and free, and the bytes they move. */
module HeapResize {
  import opened Common
  import BitmapSpec
  import opened HeapState
  import opened HeapSafety

  /** Contents of memory by address. */
  type Mem = nat -> Byte

  /** The byte at `a` after a memcpy between ranges that do not overlap. */
  function Copied(mem: Mem, dst: nat, src: nat, n: nat, a: nat): Byte {
    if dst <= a < dst + n then mem(src + (a - dst)) else mem(a)
  }

  // ----- realloc -----

  predicate CanRealloc(h: Heap, was: Option<Ptr>, size: nat) {
    && CanMalloc(h)
    && (was.Some? ==> if size == 0 then CanFree(h, was.value) else CanFree(Malloc(h, size).0, was.value))
  }

  /** Nothing is freed unless there is a new block to move to. */
  function Realloc(h: Heap, was: Option<Ptr>, size: nat): (Heap, Option<Ptr>)
    requires CanRealloc(h, was, size)
  {
    if size == 0 then (if was.Some? then FreeBlock(h, was.value) else h, None) else
    var (h', r) := Malloc(h, size);
    if was.Some? && r.Some? then (FreeBlock(h', was.value), r) else (h', r)
  }

  /** Bytes copied: as many as the old block has and the new one is asked for. */
  function CopyLength(h: Heap, was: Ptr, size: nat): nat
    requires was.page in h.arenas
  {
    if size < Usable(h, was) then size else if Usable(h, was) < 0 then 0 else Usable(h, was)
  }

  /** The blocks live afterwards: a call that fails keeps the old block. */
  function Resized(live: set<Ptr>, was: Option<Ptr>, size: nat, r: Option<Ptr>): set<Ptr> {
    var kept := if was.Some? && (size == 0 || r.Some?) then live - {was.value} else live;
    Gained(kept, r)
  }

  /** realloc keeps the invariant. The new block was not live before; a call that fails changes nothing. */
  lemma ReallocKeeps(h: Heap, live: set<Ptr>, was: Option<Ptr>, size: nat)
    requires Inv(h, live) && (was.Some? ==> was.value in live)
    ensures CanRealloc(h, was, size)
    ensures var (h', r) := Realloc(h, was, size);
            && Inv(h', Resized(live, was, size, r)) && (r.Some? ==> r.value !in live)
            && (size > 0 && r.None? ==> h' == h)
  {
    MallocKeeps(h, live, size);
    if was.Some? {
      if size == 0 {
        FreeKeeps(h, live, was.value);
      } else {
        var (h1, r) := Malloc(h, size);
        FreeKeeps(h1, Gained(live, r), was.value);
        assert r.Some? ==> Gained(live, r) - {was.value} == Resized(live, was, size, r);
      }
    }
  }

  /** A block whose size wrapped together with the header has one page. */
  lemma WrappedSize(h: Heap, live: set<Ptr>, size: nat)
    requires Inv(h, live) && CanMalloc(h) && size < WORD < size + ARENA_SIZE && Malloc(h, size).1.Some?
    ensures var (h', r) := Malloc(h, size);
            r.value.page in h'.arenas && Usable(h', r.value) == PGSIZE - ARENA_SIZE
  {
    EnoughIffNoWrap(h, live, size);
    var d := DescFor(size, 0);
    BlockSizesBelow(size, d);
  }

  lemma BlockSizesBelow(size: nat, d: nat)
    requires d == DescFor(size, 0) && size > 1024
    ensures d == DESC_CNT
  {
    if d < DESC_CNT {
      BlockSizes(d);
    }
  }

  /** The size and the header together fit in 32 bits, or the old block is no larger than what a page holds. */
  predicate Fits(h: Heap, was: Ptr, size: nat)
    requires was.page in h.arenas
  {
    size + ARENA_SIZE <= WORD || Usable(h, was) <= PGSIZE - ARENA_SIZE
  }

  /** The copy stays inside the new block exactly under that condition. */
  lemma CopyFitsIff(h: Heap, live: set<Ptr>, was: Ptr, size: nat)
    requires Inv(h, live) && CanMalloc(h) && was in live && 0 < size < WORD && Malloc(h, size).1.Some?
    ensures was.page in h.arenas
    ensures var (h', r) := Malloc(h, size);
            && r.value.page in h'.arenas && SameUsable(h, h', was)
            && (CopyLength(h', was, size) <= Usable(h', r.value) <==> Fits(h, was, size))
  {
    MallocUsable(h, live, size, was);
    EnoughIffNoWrap(h, live, size);
    LiveInside(h, live, was);
    if size + ARENA_SIZE > WORD {
      WrappedSize(h, live, size);
    }
  }

  lemma CopiedAt(mem: Mem, dst: nat, src: nat, n: nat, k: nat)
    ensures k < n ==> Copied(mem, dst, src, n, dst + k) == mem(src + k)
  {
  }

  lemma CopiedElsewhere(mem: Mem, dst: nat, src: nat, n: nat, at: nat, m: int, k: nat)
    requires Disjoint(dst, n, at, m) && k < m
    ensures Copied(mem, dst, src, n, at + k) == mem(at + k)
  {
  }

  /** The bytes a copy that fits writes belong to no block that was live. */
  lemma CopyTarget(h: Heap, live: set<Ptr>, h': Heap, r: Ptr, base: nat, n: nat, size: nat, q: Ptr)
    requires Inv(h, live) && CanMalloc(h) && Malloc(h, size) == (h', Some(r)) && q in live
    requires r.page in h'.arenas && n <= Usable(h', r)
    ensures q.page in h.arenas && Disjoint(Addr(base, r), n, Addr(base, q), Usable(h, q))
  {
    MallocKeeps(h, live, size);
    MallocUsable(h, live, size, q);
    LiveDisjoint(h', Gained(live, Some(r)), base, r, q);
  }

  lemma CopyLengthIs(h: Heap, live: set<Ptr>, h': Heap, was: Ptr, size: nat)
    requires Inv(h, live) && CanMalloc(h) && was in live && Malloc(h, size).0 == h'
    ensures was.page in h.arenas && was.page in h'.arenas
    ensures CopyLength(h', was, size) == CopyLength(h, was, size)
  {
    MallocUsable(h, live, size, was);
  }

  /** The new block starts with as many bytes of the old one as both have room for. */
  lemma ReallocCopies(h: Heap, live: set<Ptr>, h': Heap, r: Ptr, base: nat, mem: Mem, was: Ptr, size: nat, k: nat)
    requires Inv(h, live) && CanMalloc(h) && was in live && 0 < size < WORD && Malloc(h, size) == (h', Some(r))
    requires was.page in h.arenas && k < size && k < Usable(h, was)
    ensures was.page in h'.arenas
    ensures Copied(mem, Addr(base, r), Addr(base, was), CopyLength(h', was, size), Addr(base, r) + k) == mem(Addr(base, was) + k)
  {
    CopyLengthIs(h, live, h', was, size);
    CopiedAt(mem, Addr(base, r), Addr(base, was), CopyLength(h', was, size), k);
  }

  /** A copy that fits leaves the bytes of every block that was live. */
  lemma ReallocKeepsOthers(h: Heap, live: set<Ptr>, h': Heap, r: Ptr, base: nat, mem: Mem, was: Ptr, size: nat, q: Ptr, k: nat)
    requires Inv(h, live) && CanMalloc(h) && was in live && 0 < size < WORD && Malloc(h, size) == (h', Some(r))
    requires was.page in h.arenas && Fits(h, was, size) && q in live && q.page in h.arenas && k < Usable(h, q)
    ensures was.page in h'.arenas
    ensures Copied(mem, Addr(base, r), Addr(base, was), CopyLength(h', was, size), Addr(base, q) + k) == mem(Addr(base, q) + k)
  {
    CopyFitsIff(h, live, was, size);
    CopyTarget(h, live, h', r, base, CopyLength(h', was, size), size, q);
    CopiedElsewhere(mem, Addr(base, r), Addr(base, was), CopyLength(h', was, size), Addr(base, q), Usable(h, q), k);
  }

  // ----- calloc -----

  function Times(a: nat, b: nat): nat {
    a * b
  }

  /** The product in 32-bit arithmetic. */
  function Product(a: nat, b: nat): nat {
    Times(a, b) % WORD
  }

  function Calloc(h: Heap, a: nat, b: nat): (Heap, Option<Ptr>)
    requires CanMalloc(h)
  {
    if Product(a, b) < a || Product(a, b) < b then (h, None) else Malloc(h, Product(a, b))
  }

  lemma ProductBound(x: nat)
    ensures x % WORD <= x && (x % WORD == x <==> x < WORD)
  {
  }

  /** A block from malloc never has room for 2^32 bytes. */
  lemma UsableBelow(h: Heap, live: set<Ptr>, size: nat)
    requires Inv(h, live) && CanMalloc(h) && size < WORD && Malloc(h, size).1.Some?
    ensures var (h', r) := Malloc(h, size); r.value.page in h'.arenas && Usable(h', r.value) < WORD
  {
    EnoughIffNoWrap(h, live, size);
    MallocKeeps(h, live, size);
    var d := DescFor(size, 0);
    if d < DESC_CNT {
      BlockSizes(d);
      if h.free[d] == [] {
        FirstBlock(BitmapSpec.FirstRun(h.used, 0, 1, false).value, d, BlocksPerArena(d));
      }
    }
  }

  lemma EnoughModulo(h: Heap, live: set<Ptr>, size: nat, x: nat)
    requires Inv(h, live) && CanMalloc(h) && size == x % WORD && Malloc(h, size).1.Some?
    ensures var (h', r) := Malloc(h, size);
            r.value.page in h'.arenas && (x <= Usable(h', r.value) <==> x + ARENA_SIZE <= WORD)
  {
    ProductBound(x);
    EnoughIffNoWrap(h, live, size);
    UsableBelow(h, live, size);
  }

  /** The block holds a times b bytes exactly when that and the header together fit in 32 bits. */
  lemma CallocEnoughIff(h: Heap, live: set<Ptr>, a: nat, b: nat)
    requires Inv(h, live) && CanMalloc(h) && a < WORD && b < WORD && Calloc(h, a, b).1.Some?
    ensures var (h', r) := Calloc(h, a, b);
            r.value.page in h'.arenas && (Times(a, b) <= Usable(h', r.value) <==> Times(a, b) + ARENA_SIZE <= WORD)
  {
    EnoughModulo(h, live, Product(a, b), Times(a, b));
  }

  /** The test for overflow does not catch every product: 65537 times 65537 passes it. */
  lemma ProductWraps()
    ensures Times(0x1_0001, 0x1_0001) >= WORD && Product(0x1_0001, 0x1_0001) == 0x2_0001
  {
  }

  // ----- when they succeed -----

  /** realloc to a size above 0 succeeds exactly when malloc of that size does, and gives that block; without an old
      block it is malloc. To size 0 it gives nothing and frees the old block. */
  lemma ReallocAnswer(h: Heap, live: set<Ptr>, was: Option<Ptr>, size: nat)
    requires Inv(h, live) && CanRealloc(h, was, size)
    ensures size > 0 ==> Realloc(h, was, size).1 == Malloc(h, size).1
    ensures was.None? && size > 0 ==> Realloc(h, was, size) == Malloc(h, size)
    ensures size == 0 ==> Realloc(h, was, size) == (if was.Some? then FreeBlock(h, was.value) else h, None)
  {
  }

  /** calloc succeeds exactly when the 32-bit product is not below either factor and malloc gives a block for it. */
  lemma CallocAnswer(h: Heap, live: set<Ptr>, a: nat, b: nat)
    requires Inv(h, live) && CanMalloc(h)
    ensures Calloc(h, a, b).1.Some? <==>
            a <= Times(a, b) % WORD && b <= Times(a, b) % WORD && Malloc(h, Times(a, b) % WORD).1.Some?
    ensures Calloc(h, a, b).1.Some? ==> Calloc(h, a, b) == Malloc(h, Times(a, b) % WORD)
  {
  }
}
