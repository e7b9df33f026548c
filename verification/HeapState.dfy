/** The block allocator over the page allocator: what malloc and free do to descriptors, arenas and pages.
    A pointer is held as its page and its offset in the page, the split that pg_no and pg_ofs make. */
module HeapState {
  import opened Common
  import opened BitmapSpec
  import opened Palloc

  const ARENA_SIZE: nat := 12
  const DESC_CNT: nat := 7

  datatype Ptr = Ptr(page: nat, ofs: nat)

  /** An arena header, found at the start of the arena's first page. */
  datatype Arena = Small(desc: nat, freeCnt: nat) | Big(pages: nat)

  /** `runs` are the page runs the page allocator has handed out, to this allocator and to others. */
  datatype Heap = Heap(used: seq<bool>, runs: Runs, free: seq<seq<Ptr>>, arenas: map<nat, Arena>)

  // ----- descriptors -----

  function BlockSize(d: nat): nat {
    if d == 0 then 16 else 2 * BlockSize(d - 1)
  }

  lemma BlockSizes(d: nat)
    requires d < DESC_CNT
    ensures BlockSize(d) in {16, 32, 64, 128, 256, 512, 1024}
  {
    assert BlockSize(1) == 32 && BlockSize(2) == 64 && BlockSize(3) == 128;
    assert BlockSize(4) == 256 && BlockSize(5) == 512 && BlockSize(6) == 1024;
  }

  function BlocksPerArena(d: nat): nat {
    if BlockSize(d) == 0 then 0 else (PGSIZE - ARENA_SIZE) / BlockSize(d)
  }

  /** arena_to_block */
  function Block(page: nat, d: nat, i: nat): Ptr {
    Ptr(page, ARENA_SIZE + i * BlockSize(d))
  }

  /** The first `n` blocks of an arena. */
  function Blocks(page: nat, d: nat, n: nat): (s: seq<Ptr>)
    ensures |s| == n
  {
    if n == 0 then [] else Blocks(page, d, n - 1) + [Block(page, d, n - 1)]
  }

  function AllBlocks(page: nat, d: nat): seq<Ptr> {
    Blocks(page, d, BlocksPerArena(d))
  }

  /** Smallest descriptor from `d` on whose blocks hold `size` bytes, or DESC_CNT. */
  function DescFor(size: nat, d: nat): (r: nat)
    requires d <= DESC_CNT
    ensures d <= r <= DESC_CNT
    ensures r < DESC_CNT ==> size <= BlockSize(r)
    ensures forall k :: d <= k < r ==> BlockSize(k) < size
    decreases DESC_CNT - d
  {
    if d == DESC_CNT || BlockSize(d) >= size then d else DescFor(size, d + 1)
  }

  /** Pages for a big request, in 32-bit arithmetic. */
  function BigPages(size: nat): nat {
    ((size + ARENA_SIZE) % WORD + PGSIZE - 1) % WORD / PGSIZE
  }

  // ----- malloc -----

  function TakePages(h: Heap, i: nat, cnt: nat, a: Arena): Heap
    requires i + cnt <= |h.used|
  {
    h.(used := Fill(h.used, i, cnt, true), runs := h.runs[i := cnt], arenas := h.arenas[i := a])
  }

  function MallocBig(h: Heap, size: nat): (Heap, Option<Ptr>) {
    var cnt := BigPages(size);
    if cnt == 0 then (h, None) else
    match FirstRun(h.used, 0, cnt, false)
    case None => (h, None)
    case Some(i) => (TakePages(h, i, cnt, Big(cnt)), Some(Ptr(i, ARENA_SIZE)))
  }

  /** A fresh arena whose blocks join the free list of its descriptor. */
  function NewArena(h: Heap, d: nat, i: nat): Heap
    requires d < |h.free| && i < |h.used|
  {
    TakePages(h, i, 1, Small(d, BlocksPerArena(d))).(free := h.free[d := h.free[d] + AllBlocks(i, d)])
  }

  predicate HasSmall(h: Heap, page: nat, d: nat) {
    page in h.arenas && h.arenas[page].Small? && h.arenas[page].desc == d
  }

  predicate CanPop(h: Heap, d: nat) {
    && d < |h.free| && h.free[d] != []
    && HasSmall(h, h.free[d][0].page, d) && h.arenas[h.free[d][0].page].freeCnt > 0
  }

  /** Takes the first block of a free list. */
  function PopBlock(h: Heap, d: nat): (Heap, Option<Ptr>)
    requires CanPop(h, d)
  {
    var p := h.free[d][0];
    (h.(free := h.free[d := h.free[d][1..]],
        arenas := h.arenas[p.page := Small(d, h.arenas[p.page].freeCnt - 1)]),
     Some(p))
  }

  function MallocSmall(h: Heap, d: nat): (Heap, Option<Ptr>)
    requires d < DESC_CNT == |h.free|
    requires h.free[d] != [] ==> CanPop(h, d)
  {
    if h.free[d] != [] then PopBlock(h, d) else
    match FirstRun(h.used, 0, 1, false)
    case None => (h, None)
    case Some(i) =>
      BlockSizes(d);
      assert NewArena(h, d, i).free[d][0] == Block(i, d, 0) by { FirstBlock(i, d, BlocksPerArena(d)); }
      PopBlock(NewArena(h, d, i), d)
  }

  predicate CanMalloc(h: Heap) {
    |h.free| == DESC_CNT && forall d :: 0 <= d < DESC_CNT && h.free[d] != [] ==> CanPop(h, d)
  }

  function Malloc(h: Heap, size: nat): (Heap, Option<Ptr>)
    requires CanMalloc(h)
  {
    if size == 0 then (h, None)
    else if DescFor(size, 0) == DESC_CNT then MallocBig(h, size)
    else MallocSmall(h, DescFor(size, 0))
  }

  // ----- free -----

  /** A free list without the blocks of one arena. */
  function Without(s: seq<Ptr>, page: nat): (r: seq<Ptr>)
    ensures forall p :: p in r <==> p in s && p.page != page
  {
    if s == [] then [] else
    (if s[0].page == page then [] else [s[0]]) + Without(s[1..], page)
  }

  function DropPages(h: Heap, page: nat, cnt: nat): Heap
    requires page + cnt <= |h.used|
  {
    h.(used := Fill(h.used, page, cnt, false), runs := h.runs - {page}, arenas := h.arenas - {page})
  }

  /** Puts a block back, before the test for an empty arena. */
  function PushBlock(h: Heap, p: Ptr, d: nat): Heap
    requires d < |h.free| && HasSmall(h, p.page, d)
  {
    h.(free := h.free[d := [p] + h.free[d]], arenas := h.arenas[p.page := Small(d, h.arenas[p.page].freeCnt + 1)])
  }

  function ReleaseArena(h: Heap, page: nat, d: nat): Heap
    requires d < |h.free| && page < |h.used|
  {
    DropPages(h.(free := h.free[d := Without(h.free[d], page)]), page, 1)
  }

  predicate CanFree(h: Heap, p: Ptr) {
    && p.page in h.arenas && |h.free| == DESC_CNT
    && match h.arenas[p.page]
       case Small(d, _) => d < DESC_CNT && p.page < |h.used|
       case Big(n) => p.page + n <= |h.used|
  }

  function FreeSmall(h: Heap, p: Ptr, d: nat): Heap
    requires d < |h.free| && HasSmall(h, p.page, d) && p.page < |h.used|
  {
    if h.arenas[p.page].freeCnt + 1 >= BlocksPerArena(d)
    then ReleaseArena(PushBlock(h, p, d), p.page, d)
    else PushBlock(h, p, d)
  }

  function FreeBlock(h: Heap, p: Ptr): Heap
    requires CanFree(h, p)
  {
    match h.arenas[p.page]
    case Big(n) => DropPages(h, p.page, n)
    case Small(d, _) => FreeSmall(h, p, d)
  }

  /** block_size: what the holder of a block may use. */
  function Usable(h: Heap, p: Ptr): int
    requires p.page in h.arenas
  {
    match h.arenas[p.page]
    case Small(d, _) => BlockSize(d)
    case Big(n) => PGSIZE * n - p.ofs
  }

  // ----- geometry of blocks -----

  lemma BlockFits(d: nat, i: nat)
    requires d < DESC_CNT && i < BlocksPerArena(d)
    ensures ARENA_SIZE + i * BlockSize(d) + BlockSize(d) <= PGSIZE
  {
    BlockSizes(d);
  }

  lemma BlocksSpaced(d: nat, i: nat, j: nat)
    requires d < DESC_CNT && i < j
    ensures i * BlockSize(d) + BlockSize(d) <= j * BlockSize(d)
  {
    BlockSizes(d);
  }

  lemma {:induction false} FirstBlock(page: nat, d: nat, n: nat)
    requires n > 0
    ensures Blocks(page, d, n)[0] == Block(page, d, 0)
  {
    if n > 1 {
      FirstBlock(page, d, n - 1);
    }
  }

  lemma {:induction false} BlocksAt(page: nat, d: nat, n: nat, i: nat)
    requires i < n
    ensures Blocks(page, d, n)[i] == Block(page, d, i)
  {
    if i < n - 1 {
      BlocksAt(page, d, n - 1, i);
    }
  }

  /** A big block is big enough for every size whose sum with the header fits in 32 bits. */
  lemma BigEnough(size: nat)
    requires size < WORD && BigPages(size) > 0
    ensures size + ARENA_SIZE <= PGSIZE * BigPages(size) <==> size + ARENA_SIZE <= WORD
  {
  }

  /** When that sum wraps, a single page is returned for a request of nearly 4 GB. */
  lemma BigWraps()
    ensures BigPages(0xFFFF_FFFF) == 1
  {
  }
}
