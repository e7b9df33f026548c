# Pintos kernel: a Dafny model

A model of the hard core of the Pintos teaching kernel, with its demand-paging layer, and proofs of what that code
promises. `dafny verify dfyconfig.toml` checks the project.

Each part has the same shape. A specification module gives the state as a value and each operation as a function on
it. Lemmas prove invariants, refinements and statements over whole runs about those functions. Where the kernel
updates things in place, a class or a method with loops does the same steps and its contract equates the new state
with the specification function of the old one. `Common` and `Bytes` hold shared vocabulary.

- **Demand paging** (`VmState`, `FlatMemory`, `VmRefinement`, `VmRuns`, `VmInterleaving`, `VmMachine`, `Swap`,
  `Loader`): page records, frame table, clock eviction, swap and lazy loading refine a flat map from pages to bytes.
- **Kernel lists** (`ListTheory`, `KernelList`): splicing and an in-place natural merge sort on doubly linked lists.
- **Memory allocation** (`BitWords`, `BitmapSpec`, `Bitmap`, `Palloc`, `HeapState`, `HeapSafety`,
  `HeapResize`, `MallocHeap`): packed bitmaps, page pools, and malloc, realloc and calloc over them.
- **Threads** (`ThreadState`, `ThreadSafety`, `ThreadRuns`, `Scheduler`, `Monitor`, `WaitExit`): the scheduler and
  semaphores as a state machine stepped where interrupts are off; locks and condition variables over it; the
  handshake between `process_wait` and `thread_exit`.
- **File system** (`Bytes`, `InodeBytes`, `FsState`, `FsSafety`, `FreeMap`, `FileSystem`): byte-addressed files over 512-byte
  sectors; inodes, directory, free map and open files over every run of calls.
- **Page tables** (`PageTableState`, `PageDirectory`): the two-level table as a map from pages to entries, entry
  formats as in section 3.7.6 of the IA-32 manual, volume 3A.
- **Library** (`Arithmetic`, `HashSpec`, `HashTable`, `Stdio`, `Ustar`, `Stdlib`): 64-bit division from a 32-bit
  divide, the resizing hash table, integer formatting, ustar headers ("ustar Interchange Format" in the pax utility of
  SUSv3), heap sort and binary search.

Integers are unbounded except where the code's width matters. Wrap-around is then written out: the loader, malloc's
page count, 64-bit arithmetic, and octal fields. Words that the code treats as bits are naturals with bitwise
operations defined in `BitWords`. Outcomes that come from elsewhere, such as whether memory is available or a map could
be written back, are arguments of the operation.

Some things the code's comments or design promise do not hold, and the model follows the code. The lemmas
named show where a promise fails and the exact condition under which it is met:

- `occupancy` goes wrong when the stack grows into page 0 (`VmRuns.PageZeroGrows`, `VmRuns.GrowthCountIffNotPageZero`)
  and when a file is too short for a page (`Loader.ShortFileUndercounts`, `VmRuns.LoadCountIffReadSucceeds`).
- Pages of some accepted segments have a file offset of 2^31 or more, which `file_seek` refuses by an assertion even
  though such a page reads no byte of a file that holds its segment (`Loader.SeekCanFail`, `Loader.AllSeekableIff`,
  `Loader.ReadersSeek`).
- Two faults that both look for a frame before either installs its page are given the same one, and the first page
  ends up with the second one's bytes (`VmInterleaving.OverlapOverwrites`); a search after the installation does no
  harm (`VmInterleaving.SerialKeepsBoth`).
- `malloc` of nearly 4 GB returns a single page (`HeapState.BigWraps`, `HeapSafety.EnoughIffNoWrap`,
  `HeapSafety.HeldIsEnough`). `realloc` to such a size copies past the new block unless the old one is small
  (`HeapResize.CopyFitsIff`), and `calloc`'s test for overflow misses some products (`HeapResize.ProductWraps`,
  `HeapResize.CallocEnoughIff`).
- `umod64` and `smod64` drop the high half of a remainder (`Arithmetic.UmodTruncates`, `Arithmetic.Umod64`,
  `Arithmetic.SmodTruncates`, `Arithmetic.Smod64`), and `sdiv64` wraps for the least value divided by -1 (`Arithmetic.Sdiv64`).
- `bitmap_scan_and_flip` for no bits returns its starting point, where its comment says 0 (`BitmapSpec.EmptyGroup`).
- A failed `filesys_create` can leave data sectors marked (`FsSafety.EmptyNameLeaks`,
  `FsSafety.FailedCreateLeaksIff`).
- A free map that could not be written in full is restored in memory but not in its file, and a release does not look
  at the outcome of the write (`FreeMap.FileCanDiffer`, `FreeMap.UndoneSyncIff`, `FreeMap.ReleasedSyncIff`).
- `dir_add` relies on short reads at the end of the directory only. A scan cut short by lack of memory can duplicate a
  name (`FsSafety.ShortScanDuplicates`, `FsSafety.AddKeepsNamesIff`) or overwrite an entry, whose name is lost
  (`FsSafety.ShortScanOverwrites`, `FsSafety.CreateThenLookup`). The file system stays consistent exactly when no other
  slot has the name and the overwritten file is not open (`FsSafety.CreateKeepsIff`).
- `thread_exit` reads the link of a child node after freeing it (`WaitExit.WalkCleanIffNoChildren`).
- A ustar header made for a regular file of negative size is refused by the parser (`Ustar.ParseInvertsMake`).

## Model

| member | source | states |
|---|---|---|
| `VmRuns.RunRefines` | src/vm/page.c:145-205 | over every run of reads, writes, faults, page records and process ends, the pages' contents go through a run of a flat map from pages to bytes with the same events, and the invariant holds throughout |
| `VmRuns.StepRefines` | src/vm/page.c:47-205 | every single step keeps the invariant and is a step of the flat memory |
| `VmRuns.RunKeepsInv` | src/vm/frames.c:55-186 | the invariant (one place per page, no sharing, exact occupancy) holds at every point of every run |
| `VmRuns.ReadsLastWrite` | src/vm/page.c:145-205 | a read returns the last value written to its address, whatever evictions and faults came between |
| `VmRuns.ReadsFileByte` | src/vm/page.c:100-123 | a file-backed page nobody wrote to reads as the file's bytes, then zeros |
| `VmRuns.ReadWasLoaded` | src/vm/page.c:100-123 | a page that is read was loaded in full: a record whose file is too short is never read from |
| `VmRuns.FaultMaps` | src/vm/page.c:145-205 | a fault that resumes leaves the page mapped, so the access can be retried |
| `VmRuns.FaultKeepsMemory` | src/vm/page.c:187-204 | a fault on an existing page changes the bytes of no page |
| `VmRuns.FaultOutside` | src/vm/page.c:159-183 | a fault off every page adds one stack page or kills the process, by the test of 32 bytes below the stack pointer |
| `VmRuns.StackTest` | src/vm/page.c:159-183 | off every page a fault resumes if and only if the address is at most 32 bytes below the stack pointer, in 32-bit arithmetic; otherwise it kills with -1 and changes nothing |
| `VmRuns.FaultPermission` | src/vm/page.c:125-143 | a resumed fault maps the page with its record's permission, a stack page writable |
| `VmRuns.SwapSlotReturned` | src/vm/page.c:188-197 | a page read back from swap gives its slot back; the slots of other pages stay marked |
| `VmRuns.AccessMarks` | src/vm/frames.c:150-175 | an access sets the accessed bit of its page, a write also the dirty bit, and no other entry changes |
| `VmRuns.DestroyRemoves` | src/userprog/pagedir.c:27-50 | destroying a page directory removes its entries and no others |
| `VmRuns.ReadRefines` | src/vm/page.c:145-205 | a read through a present mapping returns the flat memory's byte and changes no byte |
| `VmRuns.WriteRefines` | src/vm/page.c:145-205 | a write through a present mapping changes that byte of the flat memory and no other |
| `VmRuns.ClearAllRefines` | src/vm/page.c:56-75 | ending a process removes exactly its pages and gives back exactly its frames |
| `VmRuns.AddRecordRefines` | src/vm/page.c:47-98 | adding a page record adds one page with its file contents; a record already there stays |
| `VmRuns.GrowthCountIffNotPageZero` | src/vm/frames.c:77-107 | growing the stack keeps occupancy equal to the number of taken frames if and only if the page is not page 0 |
| `VmRuns.PageZeroGrows` | src/vm/page.c:160-178 | page 0 can be reached by a stack access, so the count can go wrong |
| `VmRuns.LoadCountIffReadSucceeds` | src/vm/page.c:100-123 | a load keeps occupancy exact if and only if the file holds all the bytes to be read |
| `VmRuns.InitialInv` | src/vm/frames.c:26-50 | the initial frame table over an empty memory satisfies the invariant |
| `VmRefinement.NoSharing` | src/vm/frames.c:76-107 | no two pages share a frame or a swap slot |
| `VmRefinement.ClockChoice` | src/vm/frames.c:144-186 | the victim is the first frame in clock order with a clear accessed bit, or the starting one; at most TOTAL_PAGES - 25 + 1 inspections; frames 0 to 24 never chosen; the hand stays in range |
| `VmRefinement.ClockBits` | src/vm/frames.c:144-186 | eviction clears exactly the accessed bits of the frames the hand passed |
| `VmRefinement.EvictionMovesOn` | src/vm/frames.c:155-183 | after an eviction the hand stands at the frame after the victim and the page is in the lowest unused swap slot |
| `VmRefinement.StopsAtSkipped` | src/vm/frames.c:144-186 | the hand passes over its first stops and meets a clear bit at the next one |
| `VmRefinement.EvictRefines` | src/vm/frames.c:144-186 | eviction keeps the invariant, frees the victim's frame and leaves every page's contents as they were |
| `VmRefinement.FindRefines` | src/vm/frames.c:112-141 | a table that is not full has a free frame, a full one yields its victim's, and no contents change |
| `VmRefinement.LowestFree` | src/vm/frames.c:118-130 | while the table is not full the lowest free frame is handed out and nothing changes |
| `VmRefinement.PlaceRefines` | src/vm/page.c:125-143 | filling a free frame and mapping a page to it sets that page's contents and no other's |
| `VmRefinement.FullCanEvict` | src/vm/frames.c:144-186 | in a full table an unused swap slot is all that eviction needs |
| `VmMachine.Machine.constructor` | src/vm/frames.c:26-50 | the new machine is in the initial state |
| `VmMachine.Machine.FrameFree` | src/vm/frames.c:55-73 | exactly the named frame becomes free and occupancy falls by one |
| `VmMachine.Machine.FrameInstall` | src/vm/frames.c:76-107 | maps the page and records it in the frame table; refuses a present page; dies on a taken frame |
| `VmMachine.Machine.EvictAtHand` | src/vm/frames.c:155-168 | moves the page under the hand to the first unused swap slot and frees its frame |
| `VmMachine.Machine.FrameEvict` | src/vm/frames.c:144-186 | reaches the state ClockChoice and EvictRefines speak of, within the stated number of inspections |
| `VmMachine.Machine.Inspect` | src/vm/frames.c:144-186 | one pass of the clock: evicts exactly at the stop ClockChoice names, otherwise clears one accessed bit and moves on |
| `VmMachine.Machine.FrameFindEmpty` | src/vm/frames.c:112-141 | returns the frame and reaches the state FindRefines speaks of |
| `VmMachine.Machine.PageInstallToFrame` | src/vm/page.c:125-143 | installs a page in a found frame and updates its record |
| `VmMachine.Machine.PageReadInstall` | src/vm/page.c:100-123 | loads a file-backed page, or dies on a short read |
| `VmMachine.Machine.PageFaultIdentifier` | src/vm/page.c:145-205 | reaches the outcome and state of the fault function the refinement is proved for |
| `VmMachine.Machine.PageClearAll` | src/vm/page.c:56-75 | reaches the state in which exactly the process's pages and frames are gone |
| `VmInterleaving.SecondSearchShares` | src/vm/frames.c:112-141 | a search for a frame right after another is given the same frame |
| `VmInterleaving.OverlapOverwrites` | src/vm/page.c:100-123 | two faults that both search before either installs: the first one's page ends up with the second one's bytes, and the frame is taken when the second comes to install |
| `VmInterleaving.SerialKeepsBoth` | src/vm/page.c:100-123 | a second fault that searches after the first has installed leaves both pages their own bytes |
| `FlatMemory.FlatReadsLastWrite` | src/vm/page.c:145-205 | in the flat memory a read returns the last value written there |
| `FlatMemory.FlatReadsFileByte` | src/vm/page.c:100-123 | in the flat memory an unwritten file page reads as file bytes then zeros |
| `Swap.SlotsUpdate` | src/vm/swap.c:45-58 | writing the eight sectors of one slot changes that slot only |
| `Swap.SwapDevice.GetFree` | src/vm/swap.c:21-28 | takes the lowest unused slot and marks it |
| `Swap.SwapDevice.Write` | src/vm/swap.c:45-58 | the slot then holds exactly the page written; other slots keep theirs |
| `Swap.SwapDevice.Read` | src/vm/swap.c:30-43 | returns the page last written to the slot and frees the slot |
| `Loader.SegmentExact` | src/userprog/process.c:361-391 | for an accepted segment no 32-bit step wraps and the pages are exactly the page-rounded region below PHYS_BASE |
| `Loader.AcceptedIff` | src/userprog/process.c:423-478 | the accepted segments, in numbers |
| `Loader.PagesTile` | src/userprog/process.c:480-516 | the pages of the records are exactly the page-aligned addresses of the region |
| `Loader.LoadSegment` | src/userprog/process.c:480-516 | the table gains exactly the records of the region's pages; a page that had a record keeps it |
| `Loader.LazyEqualsEager` | src/userprog/process.c:423-516 | at every address of the segment a faulted-in page holds the byte that loading the whole segment would have put there |
| `Loader.PaddingBytes` | src/userprog/process.c:480-516 | bytes of the last page past the segment are zero |
| `Loader.RecordsAccepted` | src/userprog/process.c:480-516 | the records are ones the paging layer accepts, for user pages other than page 0 |
| `Loader.AllReadableIff` | src/vm/page.c:100-123 | every page of a segment can be read if and only if the file holds the segment's bytes |
| `Loader.ShortFileUndercounts` | src/vm/page.c:100-123 | for every file of at least 84 bytes and less than a page: an accepted header that promises one byte more, the state that maps its page, and the fault that kills the process and leaves occupancy one too small |
| `Loader.AllSeekableIff` | src/vm/page.c:100-123 | every page of an accepted segment passes file_seek's assertion that the offset is not negative if and only if the file page plus the region's size is at most 2^31 |
| `Loader.ReadersSeek` | src/userprog/process.c:480-516 | pages that read bytes of a file that holds the segment always pass it, at the offset the segment asks for |
| `Loader.SeekCanFail` | src/userprog/process.c:423-516 | for every file of at least 84 bytes an accepted segment of zeros with a page that fails it |
| `Loader.SegmentPermission` | src/userprog/process.c:480-516 | a faulted-in page of a segment is mapped with the segment's permission |
| `KernelList.List.Sort` | src/lib/kernel/list.c:404-440 | leaves a well-formed list whose sequence is a sorted, stable permutation of the original, for any strict weak order |
| `KernelList.List.MergePass` | src/lib/kernel/list.c:404-440 | one pass merges neighbouring runs pairwise |
| `KernelList.List.MergeNext` | src/lib/kernel/list.c:426-434 | finds the next two runs and merges them in place |
| `KernelList.List.InplaceMerge` | src/lib/kernel/list.c:379-399 | the two neighbouring runs become their stable merge; the rest of the list keeps its place |
| `KernelList.List.FindEndOfRun` | src/lib/kernel/list.c:357-372 | returns the end of the longest nondecreasing run from the start |
| `KernelList.ListSplice` | src/lib/kernel/list.c:183-204 | within a list, moves exactly the given range before the given element and relinks both directions |
| `KernelList.SpliceFrom` | src/lib/kernel/list.c:183-204 | between lists, the range leaves one well-formed list and enters another at the given place |
| `KernelList.List.Insert` | src/lib/kernel/list.c:168-178 | the sequence gains the element at that place and no other change |
| `KernelList.List.Remove` | src/lib/kernel/list.c:248-255 | the sequence loses exactly that element |
| `KernelList.List.constructor` | src/lib/kernel/list.c:60-68 | a new list is empty and well formed |
| `ListTheory.MergeOrdered` | src/lib/kernel/list.c:379-399 | merging two ordered runs gives an ordered one |
| `ListTheory.MergeStable` | src/lib/kernel/list.c:379-399 | merging keeps equivalent elements in order |
| `ListTheory.MergeElements` | src/lib/kernel/list.c:379-399 | merging keeps the elements |
| `ListTheory.RunLenIff` | src/lib/kernel/list.c:357-372 | a run ends exactly before the first descent |
| `ListTheory.PassCountHalves` | src/lib/kernel/list.c:404-440 | a pass over r maximal runs makes half as many merges, rounded up |
| `ListTheory.PassRuns` | src/lib/kernel/list.c:404-440 | a pass leaves no more runs than it made merges, so more than one run strictly falls; after a single merge the list is ordered |
| `ListTheory.PassStable` | src/lib/kernel/list.c:404-440 | a pass keeps the order of equivalent elements |
| `HeapSafety.RunKeepsInv` | src/threads/malloc.c:89-294 | over every sequence of malloc and free each call is defined, free_cnt of each arena is the number of its blocks on the free list and below blocks_per_arena, and pages of others are untouched |
| `HeapSafety.MallocKeeps` | src/threads/malloc.c:89-154 | malloc keeps the invariant; the block it returns was not live; a null result changes nothing |
| `HeapSafety.SmallAnswer` | src/threads/malloc.c:100-153 | a small request is met if and only if its class has a free block or there is a free page, by the first block of the list or of the lowest free page |
| `HeapSafety.ClassExistsIff` | src/threads/malloc.c:100-104 | exactly sizes up to 1024 have a class |
| `HeapSafety.BigAnswer` | src/threads/malloc.c:105-120 | a larger request that does not wrap is met if and only if there is a run of pages for it and its header |
| `HeapSafety.NothingGiven` | src/threads/malloc.c:95-116 | nothing is given for size 0 and for a size that wraps only when rounded up to pages |
| `HeapSafety.FreeKeeps` | src/threads/malloc.c:218-264 | free keeps the invariant; exactly the freed block stops being live |
| `HeapSafety.LiveDisjoint` | src/threads/malloc.c:89-154 | the usable bytes of two live blocks never overlap |
| `HeapSafety.LiveClearOfHeaders` | src/threads/malloc.c:89-154 | no live block touches the header of any arena |
| `HeapSafety.LiveInside` | src/threads/malloc.c:285-294 | a live block lies inside its own arena's pages, past the header |
| `HeapSafety.ArenasApart` | src/threads/malloc.c:89-154 | arenas do not overlap |
| `HeapSafety.NothingLiveNoArenas` | src/threads/malloc.c:241-253 | with nothing live no arena is left |
| `HeapSafety.AllFreedAllReturned` | src/threads/malloc.c:218-264 | when every block has been freed, the page allocator has every page back |
| `HeapSafety.EnoughIffNoWrap` | src/threads/malloc.c:100-120 | the block returned holds the bytes asked for if and only if the size plus the header fits in 32 bits |
| `HeapSafety.MallocUsable` | src/threads/malloc.c:89-154 | a malloc changes the size of no live block |
| `HeapSafety.FreeUsable` | src/threads/malloc.c:218-264 | a free changes the size of no other live block |
| `HeapSafety.RunUsable` | src/threads/malloc.c:89-294 | over every sequence of calls a block's size stays the same while it is live |
| `HeapSafety.HeldIsEnough` | src/threads/malloc.c:89-294 | as long as a block is live it holds the bytes asked for, if and only if the size plus the header fits in 32 bits |
| `HeapSafety.HeldDisjoint` | src/threads/malloc.c:89-294 | the bytes asked for in two mallocs do not overlap while both blocks are live |
| `HeapSafety.BlockToArena` | src/threads/malloc.c:267-282 | rounding a live block's address down to a page gives its arena's address, and its offset passes the assertions on alignment |
| `HeapResize.ReallocKeeps` | src/threads/malloc.c:194-214 | realloc keeps the invariant; the new block was not live; a call that fails changes nothing, so the old block stays live |
| `HeapResize.ReallocAnswer` | src/threads/malloc.c:194-214 | realloc gives the block malloc gives for the size; without an old block it is malloc, to size 0 it is free |
| `HeapResize.ReallocCopies` | src/threads/malloc.c:205-211 | the new block starts with the bytes of the old one, as many as the smaller of the old block and the new size |
| `HeapResize.CopyFitsIff` | src/threads/malloc.c:205-211 | the copy stays inside the new block if and only if size plus header fits in 32 bits or the old block is no larger than what a page holds |
| `HeapResize.ReallocKeepsOthers` | src/threads/malloc.c:205-211 | a copy that fits changes no byte of any block that was live |
| `HeapResize.WrappedSize` | src/threads/malloc.c:107-120 | a block whose size wrapped with the header has exactly one page |
| `HeapResize.CallocEnoughIff` | src/threads/malloc.c:158-175 | a block from calloc holds a times b bytes if and only if that plus the header fits in 32 bits |
| `HeapResize.CallocAnswer` | src/threads/malloc.c:158-175 | calloc succeeds if and only if the 32-bit product is not below either factor and malloc gives a block for it |
| `HeapResize.ProductWraps` | src/threads/malloc.c:164-167 | a product that wraps and passes the test for overflow |
| `HeapState.BlockFits` | src/threads/malloc.c:285-294 | every block of an arena ends inside the arena's page |
| `HeapState.BlocksSpaced` | src/threads/malloc.c:285-294 | blocks of an arena are at least a block size apart |
| `HeapState.BigEnough` | src/threads/malloc.c:107-112 | a big block's pages suffice if and only if size plus header does not pass 2^32 |
| `HeapState.BigWraps` | src/threads/malloc.c:107-112 | a request of 2^32 - 1 bytes is given one page |
| `MallocHeap.DescriptorSizes` | src/threads/malloc.c:71-85 | the descriptors are the powers of two from 16 to 1024 |
| `MallocHeap.Allocator.constructor` | src/threads/malloc.c:71-85 | a new allocator holds no page and satisfies the invariant |
| `MallocHeap.Allocator.FindDescriptor` | src/threads/malloc.c:100-104 | the smallest descriptor that holds the size |
| `MallocHeap.Allocator.Malloc` | src/threads/malloc.c:89-154 | computes the specified state and block, and keeps the invariant |
| `MallocHeap.Allocator.SmallBlock` | src/threads/malloc.c:124-153 | takes the first free block, from a new arena if the list is empty |
| `MallocHeap.Allocator.PushBlocks` | src/threads/malloc.c:137-145 | all blocks of the new arena join the list in order |
| `MallocHeap.Allocator.RemoveBlocks` | src/threads/malloc.c:247-251 | removing the arena's blocks one by one leaves the list without that arena |
| `MallocHeap.Allocator.Free` | src/threads/malloc.c:218-264 | computes the specified state and keeps the invariant; a null pointer changes nothing |
| `MallocHeap.Allocator.FreeToArena` | src/threads/malloc.c:228-256 | puts a block back and releases its arena exactly when every block of it is free |
| `MallocHeap.Allocator.SizeOf` | src/threads/malloc.c:178-186 | the usable size of a live block |
| `MallocHeap.Allocator.Realloc` | src/threads/malloc.c:194-214 | computes the specified state, block and number of bytes copied, and keeps the invariant |
| `MallocHeap.Allocator.Calloc` | src/threads/malloc.c:158-175 | computes the specified state, block and number of bytes zeroed, and keeps the invariant |
| `ThreadSafety.RunKeepsInv` | src/threads/thread.c:271-413 | in every run exactly one thread is running, the ready list holds each ready non-idle thread once, and waiters are exactly the blocked threads of their semaphore |
| `ThreadSafety.StepKeeps` | src/threads/thread.c:271-413 | every atomic step keeps that invariant |
| `ThreadSafety.ScheduleKeeps` | src/threads/thread.c:605-681 | schedule hands the processor to exactly one thread and disturbs no list |
| `ThreadSafety.ListsDisjoint` | src/threads/synch.c:60-121 | a thread on a waiters list is on no other list, not running and not idle |
| `ThreadSafety.UpKeeps` | src/threads/synch.c:108-121 | an up keeps the invariant, including that no wakeup is lost |
| `ThreadSafety.TakeKeeps` | src/threads/synch.c:60-102 | a completed down keeps the invariant |
| `ThreadSafety.WaitingBetween` | src/threads/synch.c:69-73 | a thread that must wait joins the waiters and gives up the processor without breaking any list |
| `ThreadRuns.RunsAtItsTurn` | src/threads/thread.c:605-681 | a thread at place k of the ready list runs at exactly the (k+1)-th later call of schedule, and not before |
| `ThreadRuns.QueuePosition` | src/threads/thread.c:605-681 | a ready thread moves up one place at each call of schedule and otherwise stays |
| `ThreadRuns.ValueCounts` | src/threads/synch.c:44-121 | in every interleaving a semaphore's value is its initial value plus ups minus completed downs |
| `ThreadRuns.WaitPosition` | src/threads/synch.c:108-121 | a waiting thread moves up one place at each up of its semaphore |
| `ThreadRuns.WokenInOrder` | src/threads/synch.c:108-121 | a thread at place k of a waiters list is made ready by exactly the (k+1)-th later up |
| `ThreadRuns.DownWaits` | src/threads/synch.c:60-76 | a down of value 0 blocks the thread and puts it last in line |
| `ThreadRuns.UpWakes` | src/threads/synch.c:108-122 | an up raises the value and makes the first in line ready |
| `ThreadRuns.NewAndUnblock` | src/threads/thread.c:222-303 | a new thread is blocked; unblocking puts a thread last on the ready list |
| `ThreadRuns.YieldRotates` | src/threads/thread.c:399-416 | a yield runs the first ready thread and puts the yielder last, or goes on when nobody is ready |
| `ThreadRuns.IdleGivesWay` | src/threads/thread.c:486-515 | the idle thread blocks and lets the first ready thread run |
| `ThreadRuns.CanGoOn` | src/threads/synch.c:60-122 | the running thread can always go on: it repeats its wait loop, or may yield, use any semaphore and exit |
| `ThreadRuns.ExitFreesAfterSwitch` | src/threads/thread.c:630-658 | an exiting thread's page is freed only once another thread runs, and the initial thread's never |
| `Scheduler.Threads.constructor` | src/threads/thread.c:120-133 | the state after the idle thread has started satisfies the invariant |
| `Scheduler.Threads.NextThreadToRun` | src/threads/thread.c:605-612 | the head of the ready list, or the idle thread when it is empty |
| `Scheduler.Threads.Reschedule` | src/threads/thread.c:630-681 | computes the specified switch |
| `Scheduler.Threads.NewThread` | src/threads/thread.c:549-585 | a new thread starts blocked, on no list |
| `Scheduler.Threads.UnblockThread` | src/threads/thread.c:289-301 | computes the specified step and keeps the invariant |
| `Scheduler.Threads.YieldThread` | src/threads/thread.c:399-413 | computes the specified step and keeps the invariant |
| `Scheduler.Threads.IdleWait` | src/threads/thread.c:486-513 | the idle thread blocks itself without joining a list |
| `Scheduler.Threads.ExitThread` | src/threads/thread.c:387-394 | computes the specified step and keeps the invariant |
| `Scheduler.Threads.SemaInit` | src/threads/synch.c:44-51 | a fresh semaphore with the given value and no waiters |
| `Scheduler.Threads.SemaDownPass` | src/threads/synch.c:60-76 | one pass of the wait loop: completes exactly when the value is positive, else the thread waits and another runs |
| `Scheduler.Threads.SemaTryDown` | src/threads/synch.c:83-102 | succeeds exactly when the value is positive |
| `Scheduler.Threads.SemaUp` | src/threads/synch.c:108-121 | computes the specified step and keeps the invariant |
| `Monitor.MRunKeepsInv` | src/threads/synch.c:192-322 | the lock and condition variable invariant holds in every interleaving with any other kernel activity |
| `Monitor.ActKeeps` | src/threads/synch.c:192-322 | every step of a lock or condition operation, and every step of other activity, keeps it |
| `Monitor.AtMostOneHolder` | src/threads/synch.c:192-236 | at most one thread is between a lock's acquire and its release, and the holder field names no other |
| `Monitor.MutualExclusion` | src/threads/synch.c:192-236 | two threads inside the lock are the same thread |
| `Monitor.WakeMatchesSignal` | src/threads/synch.c:287-322 | a cond_wait wakes only after a signal popped its own entry, entries are popped in the order queued, and no entry wakes twice |
| `Monitor.SignalledOnce` | src/threads/synch.c:311-322 | the wait a signal pops has not been signalled before |
| `Monitor.SignalEffect` | src/threads/synch.c:311-322 | a signal pops the oldest waiter and raises its semaphore to 1, and a thread asleep on it is ready; with nobody waiting nothing changes |
| `Monitor.SignalsPop` | src/threads/synch.c:287-322 | over every run each wait begun is queued and each signal that finds somebody waiting pops exactly one |
| `Monitor.SignalledInOrder` | src/threads/synch.c:287-322 | the wait queued j-th has been signalled if and only if more than j such signals have come |
| `Monitor.LockEffect` | src/threads/synch.c:192-202 | lock_acquire enters if and only if nobody is inside; otherwise the thread sleeps, last in line |
| `Monitor.TryLockEffect` | src/threads/synch.c:209-224 | lock_try_acquire enters if and only if nobody is inside; otherwise nothing changes |
| `Monitor.HolderEffect` | src/threads/synch.c:192-240 | the holder is written after the down and cleared before the up |
| `Monitor.ReleaseEffect` | src/threads/synch.c:228-240 | after a release nobody is inside, the lock can be taken and the first in line is ready |
| `Monitor.StartWaitEffect` | src/threads/synch.c:287-302 | a wait queues its semaphore, of value 0, behind the others with the lock still held |
| `Monitor.WakesIff` | src/threads/synch.c:299-302 | a wait gets through if and only if it has been signalled and has not yet woken |
| `Monitor.NextActPossible` | src/threads/synch.c:192-322 | the running thread can always take the next step of the monitor operation it is in |
| `Monitor.WaitWakes` | src/threads/synch.c:287-302 | a wait wakes only when it has been signalled and has not yet woken |
| `Monitor.InitialMonitor` | src/threads/synch.c:175-182 | a lock of value 1 and an empty condition variable satisfy the invariant |
| `WaitExit.RunIsSafe` | src/userprog/process.c:119-155 | in every interleaving of waits and exits no step touches a thread page that has been freed, the search through the children included |
| `WaitExit.StepKeeps` | src/threads/thread.c:338-395 | every step of every thread keeps the invariant |
| `WaitExit.WaitIsExact` | src/userprog/process.c:119-155 | over every run a result is the status offered at the up and stays so, block_child is upped at most once, and a second wait returns -1 at once |
| `WaitExit.WaitStarts` | src/userprog/process.c:119-155 | process_wait waits if and only if the thread is a child on the list; otherwise it returns -1 at once and changes nothing |
| `WaitExit.WaitReturnsOffered` | src/userprog/process.c:136-152 | a thread that waits for a child on its list is active again only with that child's result, which is the status it offered |
| `WaitExit.WaitGetsLastStatus` | src/userprog/process.c:136-152 | what a wait returns is the last status the child set since it was spawned, or 0 |
| `WaitExit.NoChildLeftBehind` | src/threads/thread.c:356-368 | once a parent is past its own up, or gone, every child of it has been released |
| `WaitExit.WaitSteps` | src/userprog/process.c:138-151 | the steps of a wait, one by one |
| `WaitExit.ExitSteps` | src/threads/thread.c:356-369 | the steps of an exit, one by one |
| `WaitExit.ExitStarts` | src/threads/thread.c:338-358 | a call of exit starts the walk over the children and changes nothing else |
| `WaitExit.OnlyDownsHoldUp` | src/userprog/process.c:138-151 | a thread is held up only at a down of value 0; an active thread may wait for anyone, spawn and exit |
| `WaitExit.StatusAndSpawn` | src/threads/thread.c:165-204 | a spawn adds a fresh child last on its parent's list; setting a status changes that alone |
| `WaitExit.BeginWait` | src/userprog/process.c:131-140 | the search through the list decides as specified |
| `WaitExit.ReadKeeps` | src/userprog/process.c:142-143 | the status read is the one offered at the up |
| `WaitExit.RaiseKeeps` | src/userprog/process.c:149-151 | block_child has not been upped before the parent ups it |
| `WaitExit.ExitKidKeeps` | src/threads/thread.c:356-363 | an exiting parent ups block_child only of children nobody has released |
| `WaitExit.ExitUpKeeps` | src/threads/thread.c:364-365 | block_parent is upped once per thread and the status is fixed from then on |
| `WaitExit.DieKeeps` | src/threads/thread.c:648-657 | a thread's page is freed only when no parent still holds it |
| `WaitExit.StepsAreSafe` | src/userprog/process.c:119-155 | the pages the next step touches are still allocated |
| `WaitExit.InitialInv` | src/threads/thread.c:549-585 | a single thread without parent and children satisfies the invariant |
| `WaitExit.WalkCleanIffNoChildren` | src/threads/thread.c:357-363 | the walk of thread_exit over its child nodes stays off freed nodes if and only if there is no child left |
| `WaitExit.WalkChildren` | src/threads/thread.c:357-363 | the loop over the linked nodes reads and frees them in that order, and stays off freed nodes if and only if the list is empty |
| `WaitExit.FindChild` | src/userprog/process.c:131-136 | finds the first node of that thread exactly when there is one |
| `Arithmetic.Divl` | src/lib/arithmetic.c:25-37 | quotient of a 64-by-32-bit division; its precondition is that the instruction does not trap |
| `Arithmetic.Nlz` | src/lib/arithmetic.c:41-73 | the number of leading zero bits of a nonzero word |
| `Arithmetic.Udiv64` | src/lib/arithmetic.c:77-127 | floor of n/d for every n and every nonzero d, with no division trapping |
| `Arithmetic.UdivNarrow` | src/lib/arithmetic.c:80-112 | the two-step division for 32-bit divisors |
| `Arithmetic.UdivWide` | src/lib/arithmetic.c:113-126 | the normalised estimate corrected by at most one |
| `Arithmetic.WideNoTrap` | src/lib/arithmetic.c:121-123 | the estimate's division does not trap |
| `Arithmetic.WideEstimate` | src/lib/arithmetic.c:121-123 | the estimate is the quotient or one more |
| `Arithmetic.CorrectionExact` | src/lib/arithmetic.c:124 | the comparison after the estimate decides exactly which |
| `Arithmetic.NarrowDivision` | src/lib/arithmetic.c:80-112 | dividing high then low part gives the whole quotient |
| `Arithmetic.Umod64` | src/lib/arithmetic.c:131-135 | the remainder modulo 2^32, which is the remainder if and only if it is below 2^32 |
| `Arithmetic.UmodTruncates` | src/lib/arithmetic.c:131-135 | an input for which the returned remainder is not the remainder |
| `Arithmetic.Sdiv64` | src/lib/arithmetic.c:139-147 | the quotient truncated toward zero if and only if the operands are not the least 64-bit value and -1 |
| `Arithmetic.Smod64` | src/lib/arithmetic.c:150-154 | the remainder with the sign of the dividend if and only if it fits in 32 bits |
| `Arithmetic.SmodTruncates` | src/lib/arithmetic.c:150-154 | an input for which the returned remainder has the wrong sign |
| `Bitmap.Bitmap.constructor` | src/lib/kernel/bitmap.c:78-94 | a new bitmap is all false |
| `Bitmap.Bitmap.Set` | src/lib/kernel/bitmap.c:144-179 | sets one bit of the boolean sequence |
| `Bitmap.Bitmap.Test` | src/lib/kernel/bitmap.c:197-203 | the bit of the boolean sequence |
| `Bitmap.Bitmap.SetMultiple` | src/lib/kernel/bitmap.c:217-228 | fills exactly the run |
| `Bitmap.Bitmap.Contains` | src/lib/kernel/bitmap.c:250-263 | whether some bit of the run has the value |
| `Bitmap.Bitmap.Scan` | src/lib/kernel/bitmap.c:295-310 | the least start of a run of the value, or none if there is none |
| `Bitmap.Bitmap.ScanFlip` | src/lib/kernel/bitmap.c:319-326 | finds that run and flips exactly it |
| `Bitmap.Bitmap.Write` | src/lib/kernel/bitmap.c:355-360 | writes the words' bytes to the file |
| `Bitmap.Bitmap.Read` | src/lib/kernel/bitmap.c:340-351 | takes the words from the file, unused high bits cleared |
| `Bitmap.WriteThenRead` | src/lib/kernel/bitmap.c:340-360 | reading back what was written gives every bit |
| `Bitmap.FileBit` | src/lib/kernel/bitmap.c:356-360 | in the file bit k of the map is bit k mod 8 of byte k / 8 |
| `Bitmap.MaskLastKeepsBits` | src/lib/kernel/bitmap.c:65-70 | clearing the unused bits of the last word changes no bit of the map |
| `BitmapSpec.EmptyGroup` | src/lib/kernel/bitmap.c:291-326 | a group of no bits is found at the starting point itself, where the comment on bitmap_scan_and_flip says 0 |
| `Palloc.RunKeepsOwned` | src/threads/palloc.c:70-143 | over every sequence of requests live runs are disjoint, inside the pool, and exactly their pages are marked |
| `Palloc.GetKeepsOwned` | src/threads/palloc.c:70-101 | a run handed out overlaps no live run |
| `Palloc.FreeKeepsOwned` | src/threads/palloc.c:117-143 | a free unmarks exactly its run |
| `Palloc.NothingLive` | src/threads/palloc.c:117-143 | with nothing live every page is free |
| `Palloc.InitPoolFits` | src/threads/palloc.c:154-171 | the bitmap fits in front of the pages that remain |
| `Palloc.InitPoolIff` | src/threads/palloc.c:154-171 | a pool can be set up if and only if its region holds its bitmap |
| `Palloc.PoolsApart` | src/threads/palloc.c:45-62 | no page is in both pools |
| `Palloc.PoolsRunKeeps` | src/threads/palloc.c:45-143 | over every sequence of calls on both pools, every free of a live run finds its pool and index by address, and each map is exact |
| `Palloc.LiveRunsApart` | src/threads/palloc.c:70-143 | at every point of every such sequence two live runs, of one pool or of both, share no byte |
| `Palloc.FindsOwner` | src/threads/palloc.c:117-143 | a live run's address leads to its own pool and index |
| `Palloc.InitialPools` | src/threads/palloc.c:45-62 | the pools palloc_init sets up satisfy the invariant |
| `Palloc.PageAllocator.GetMultiple` | src/threads/palloc.c:70-101 | the lowest free run of the chosen pool, zeroed if asked, or null, or a panic exactly when one is asked for and there is no run; the other pool is untouched |
| `Palloc.PageAllocator.FreeMultiple` | src/threads/palloc.c:117-143 | finds the pool by address, overwrites the pages and releases exactly the run there |
| `Palloc.PageAllocator.GetRun` | src/threads/palloc.c:70-101 | a get is the call of the run model: both pools stay exact, and the address returned is that of a live run of that length |
| `Palloc.PageAllocator.FreeRun` | src/threads/palloc.c:117-143 | a free of a live run is the call of the run model: both pools stay exact |
| `Palloc.FilledPages` | src/threads/palloc.c:89-93 | filling a run changes exactly its pages |
| `Palloc.AddressInverts` | src/threads/palloc.c:117-143 | a run's address gives back its index |
| `InodeBytes.Device.ReadAt` | src/filesys/inode.c:200-250 | returns the file's bytes from the offset, as many as lie before the end; without a bounce buffer, whole sectors from an aligned offset |
| `InodeBytes.Device.WriteAt` | src/filesys/inode.c:257-318 | replaces exactly the bytes it reports, changes no other byte and no sector outside the file; a denied write does nothing |
| `InodeBytes.Device.WriteThenRead` | src/filesys/inode.c:200-318 | a write with writes allowed and a bounce buffer moves all the bytes that fit, and reading the same range returns them |
| `InodeBytes.Device.ZeroFill` | src/filesys/inode.c:93-100 | a new file's bytes are zero and other sectors are untouched |
| `InodeBytes.ChunkToMove` | src/filesys/inode.c:209-223 | a chunk stays inside the request, the file and one sector, and the loop stops exactly where the transfer ends |
| `InodeBytes.MovedCases` | src/filesys/inode.c:200-250 | all bytes inside the file, what is left at its end, none past it |
| `InodeBytes.SectorCountIs` | src/filesys/inode.c:25-31 | a file has as many sectors as its bytes need and not one more |
| `InodeBytes.ReadChunk` | src/filesys/inode.c:46-54 | part of one sector is the corresponding part of the file |
| `InodeBytes.WriteChunk` | src/filesys/inode.c:46-54 | patching one sector patches the file there and nowhere else |
| `InodeBytes.OtherFilesKeep` | src/filesys/inode.c:257-318 | a file whose sectors a write leaves alone keeps its bytes |
| `Bytes.PatchThenRead` | src/filesys/inode.c:200-318 | bytes written are the bytes read back there, and all others are as before |
| `FsSafety.RunKeepsInv` | src/filesys/filesys.c:45-91 | over every run of create, open, reopen, deny, allow, remove and close in which no create duplicates a name or overwrites an open file's entry: one open inode per sector, exact counts, unique names, no sector owned twice, every owned sector marked |
| `FsSafety.CreateKeepsIff` | src/filesys/directory.c:141-179 | a successful create keeps the invariant if and only if no other used slot has the name and an entry it overwrites is not open |
| `FsSafety.DoKeeps` | src/filesys/filesys.c:45-91 | every call keeps that invariant |
| `FsSafety.DeniersBounded` | src/filesys/inode.c:322-338 | deny_write_cnt is between 0 and open_cnt |
| `FsSafety.CreateTakesUnowned` | src/filesys/free-map.c:27-41 | a create takes no sector of a live file and leaves every live file's sectors marked; every live file stays live except one whose entry is overwritten while it is not open |
| `FsSafety.CreateThenLookup` | src/filesys/filesys.c:45-59 | a created file's entry has its size; its name leads there if and only if no earlier slot has it; other names stay except that of an overwritten entry |
| `FsSafety.CreateSucceedsIff` | src/filesys/filesys.c:45-59 | a create succeeds if and only if memory and map writes last, there is a free sector and then a free run for the data, the name is valid and in no slot read, and there is an unused slot or the search for one is cut short |
| `FsSafety.FailedCreateLeaksIff` | src/filesys/filesys.c:54-55 | a failed create gives back every sector if and only if it had taken none for data |
| `FsSafety.EmptyNameLeaks` | src/filesys/filesys.c:45-59 | a create with an empty name fails and leaves data sectors marked |
| `FsSafety.AddKeepsNamesIff` | src/filesys/directory.c:141-179 | adding an entry keeps names unique if and only if no other used slot has the name |
| `FsSafety.ShortScanDuplicates` | src/filesys/directory.c:141-179 | a directory in which a scan cut short leads to a duplicate name |
| `FsSafety.ShortScanOverwrites` | src/filesys/directory.c:159-175 | a directory in which the search for a slot cut short overwrites an entry, whose name is lost |
| `FsSafety.OpenIsOfName` | src/filesys/filesys.c:66-77 | an opened file is a handle on the inode of that name |
| `FsSafety.OpenSucceedsIff` | src/filesys/filesys.c:66-77 | open succeeds if and only if the directory opens, the name is in a slot read, and memory suffices; a failure changes nothing |
| `FsSafety.OpenCloseIsNothing` | src/filesys/inode.c:111-186 | opening an inode and closing it again leaves no trace |
| `FsSafety.RemoveThenLookup` | src/filesys/filesys.c:83-91 | a removed name is gone and other names stay |
| `FsSafety.RemoveSucceedsIff` | src/filesys/filesys.c:83-91 | remove succeeds if and only if the directory opens, the name is in a slot read, memory suffices and the entry can be written; a failure changes nothing |
| `FsSafety.RemoveOpenEffect` | src/filesys/directory.c:184-216 | removing an open file takes its name and leaves its sectors |
| `FsSafety.RemoveClosedEffect` | src/filesys/directory.c:184-216 | removing a file nobody has open releases its sectors at once |
| `FsSafety.CloseReleases` | src/filesys/inode.c:163-186 | a close changes the free map if and only if it is the last of a removed file, and then releases exactly that file's sectors |
| `FsSafety.ReleaseAssertions` | src/filesys/free-map.c:45-50 | the sectors released for a live inode pass free_map_release's assertion that they are marked |
| `FsSafety.CloseKeeps` | src/filesys/file.c:45-54 | closing a file keeps the invariant, denied writes included |
| `FsSafety.CloseEffect` | src/filesys/file.c:45-54 | a close drops the file; the inode leaves the list if and only if that was its last file |
| `FsSafety.ReopenKeeps` | src/filesys/file.c:38-42 | reopening keeps the invariant |
| `FsSafety.ReopenEffect` | src/filesys/file.c:38-42 | reopen succeeds if and only if there is memory and adds a file of the same inode that denies nothing |
| `FsSafety.DenyKeeps` | src/filesys/file.c:118-141 | denying and allowing writes keep the counts exact |
| `FsSafety.DenyEffect` | src/filesys/file.c:118-141 | the file's flag is set as asked, nothing else of the files changes, and the inode's count is the number of its denying files |
| `FsSafety.DeniedIff` | src/filesys/inode.c:322-338 | the count is positive if and only if some file of the inode denies writes |
| `FsSafety.FormatInv` | src/filesys/filesys.c:94-103 | formatting succeeds if and only if nothing fails and the free map's file and one directory sector fit, and then leaves the invariant true |
| `FreeMap.FreeMap.Allocate` | src/filesys/free-map.c:27-41 | the map in memory is the specified one; a file that agreed with memory still does if and only if there was no run, the write was complete, or the run lies behind what was written |
| `FreeMap.FreeMap.Release` | src/filesys/free-map.c:45-50 | a file that agreed with memory still does if and only if the write was complete or the run lies in what was written |
| `FreeMap.FreeMap.Write` | src/lib/kernel/bitmap.c:356-360 | a write replaces the bits of the words that were moved and no others; it succeeds exactly when all were moved |
| `FreeMap.WriteMerges` | src/lib/kernel/bitmap.c:356-360 | writing the first words of the map to the file changes exactly their bits |
| `FreeMap.UndoneSyncIff` | src/filesys/free-map.c:31-37 | an allocation undone for a failed write leaves the file as memory if and only if the run lies behind the part written |
| `FreeMap.ReleasedSyncIff` | src/filesys/free-map.c:45-50 | a release leaves the file as memory if and only if the run lies in the part written |
| `FreeMap.ReadGives` | src/lib/kernel/bitmap.c:341-351 | reading the file into any bitmap of that size gives the bits it is said to read as |
| `FreeMap.FileCanDiffer` | src/filesys/free-map.c:27-41 | a map size for which a failed write leaves a sector marked in the file that is free in memory |
| `FileSystem.FileSystem.FindEntry` | src/filesys/directory.c:91-112 | the slot of the name among those that can be read |
| `FileSystem.FileSystem.AddEntry` | src/filesys/directory.c:141-179 | computes the specified directory and success |
| `FileSystem.FileSystem.AllocateSectors` | src/filesys/free-map.c:27-41 | on the bitmap's words: the lowest free run, marked; nothing when the map cannot be written back |
| `FileSystem.FileSystem.MakeInode` | src/filesys/inode.c:72-106 | computes the specified inode and map; the file is all zeros and no other data sector is written |
| `FileSystem.FileSystem.OpenInode` | src/filesys/inode.c:111-142 | shares an inode that is open, else adds one |
| `FileSystem.FileSystem.CloseInode` | src/filesys/inode.c:163-186 | computes the specified close |
| `FileSystem.FileSystem.CreateFile` | src/filesys/filesys.c:45-59 | computes the specified state; a success keeps the invariant if and only if CreateKeepsIff's condition holds; the file is all zeros and no sector in use is written |
| `FileSystem.FileSystem.OpenFile` | src/filesys/filesys.c:66-77 | computes the specified state and keeps the invariant |
| `FileSystem.FileSystem.ReopenFile` | src/filesys/file.c:38-42 | computes the specified state and keeps the invariant |
| `FileSystem.FileSystem.DenyWrite` | src/filesys/file.c:118-141 | computes the specified state and keeps the invariant |
| `FileSystem.FileSystem.WriteFile` | src/filesys/file.c:109-115 | nothing is written while any file of the inode denies writes; otherwise exactly the bytes that reach, and no other file's sector changes |
| `FileSystem.FileSystem.ReadFile` | src/filesys/file.c:81-86 | the file's bytes from the offset, as many as there are |
| `FileSystem.FileSystem.CloseFile` | src/filesys/file.c:45-54 | computes the specified state and keeps the invariant |
| `FileSystem.FileSystem.RemoveFile` | src/filesys/filesys.c:83-91 | computes the specified state and keeps the invariant |
| `Ustar.ParseInvertsMake` | src/lib/ustar.c:82-227 | parsing a made header gives the stripped name, the type and the size (0 for a directory) for every int size, except that a regular file of negative size is refused as too large |
| `Ustar.OctalRoundTrip` | src/lib/ustar.c:129-162 | an octal field is read back as the value it was made from |
| `Ustar.HeaderChecksum` | src/lib/ustar.c:114-115 | the checksum field holds the checksum of the finished header |
| `Ustar.SumIgnoresField` | src/lib/ustar.c:36-54 | the checksum does not depend on the checksum field |
| `Ustar.StripTwice` | src/lib/ustar.c:65-73 | stripping is idempotent |
| `Ustar.StripIsSafe` | src/lib/ustar.c:65-73 | a stripped name is not empty, not "..", and starts with none of "/", "./", "../" |
| `Ustar.StripIsLongest` | src/lib/ustar.c:57-77 | the stripped name is the longest suffix that is not antisocial, or "." where that is empty or ".." |
| `Ustar.GoodNameKept` | src/lib/ustar.c:57-77 | a name is its own stripped name if and only if it is not antisocial, not empty and not ".." |
| `Ustar.ParsedNameIsSafe` | src/lib/ustar.c:181-227 | a name that parsing yields is a stripped name |
| `Ustar.EntryIff` | src/lib/ustar.c:181-227 | an entry is read if and only if magic, version, checksum, name, type and size are right, and is then these fields |
| `Ustar.EofIff` | src/lib/ustar.c:181-190 | the end is reported if and only if the header is all zeros |
| `Ustar.OneByteDetected` | src/lib/ustar.c:36-54 | a header with one byte changed outside the checksum field is not read as an entry |
| `Ustar.ReadsOctal` | src/lib/ustar.c:129-162 | an octal field is its digits up to a space or null, whatever follows |
| `Ustar.RefusesOctal` | src/lib/ustar.c:129-162 | a field that does not start with an octal digit is refused |
| `Ustar.OtherFields` | src/lib/ustar.c:99-112 | mode, owner, group and names of a made header |
| `Ustar.MakeHeader` | src/lib/ustar.c:82-118 | fails exactly when the stripped name is over 99 characters, and then leaves the buffer alone |
| `Ustar.FillHeader` | src/lib/ustar.c:99-112 | every field of the header but the checksum |
| `Ustar.CalculateChecksum` | src/lib/ustar.c:36-54 | the checksum of the buffer |
| `Ustar.ParseOctalField` | src/lib/ustar.c:129-162 | the field's value, or failure, as specified |
| `Ustar.IsAllZeros` | src/lib/ustar.c:166-173 | whether every byte is zero |
| `Ustar.ParseHeader` | src/lib/ustar.c:181-227 | the specified result, its tests in order |
| `Stdio.FormatInteger` | src/lib/stdio.c:469-547 | the specified text for every flag, width, precision and base |
| `Stdio.FillDigits` | src/lib/stdio.c:501-513 | the digits of any 64-bit value, grouped or not, take at most 44 of the 64 bytes |
| `Stdio.FillZeros` | src/lib/stdio.c:515-524 | zeros up to the precision never pass the buffer |
| `Stdio.FormattedOctal` | src/lib/stdio.c:469-547 | a zero-padded octal conversion prints the value's octal digits filled up with zeros |
| `Stdio.TextLayout` | src/lib/stdio.c:469-547 | where sign, prefix, zeros, digits and padding stand for every flag |
| `Stdio.TextLength` | src/lib/stdio.c:526-547 | the text is as long as the width asks for or its contents need |
| `Stdio.SignIs` | src/lib/stdio.c:480-500 | a negative signed value prints a minus sign |
| `Stdio.PrecisionZeros` | src/lib/stdio.c:515-524 | zeros fill the digits up to the precision; octal with # starts with a zero |
| `Stdio.DigitsAreOfValue` | src/lib/stdio.c:501-513 | in every base the ungrouped digits, output in order, are the value's digits and read back as the value |
| `Stdio.TextDeterminesValue` | src/lib/stdio.c:501-513 | two values with the same ungrouped digits are equal, when the base's digit characters differ |
| `Stdio.GroupingAddsSeparators` | src/lib/stdio.c:501-513 | removing the separators of a grouped number gives the ungrouped one |
| `Stdio.RenderValue` | src/lib/stdio.c:506-513 | reading digits back inverts rendering |
| `Stdio.RenderLength` | src/lib/stdio.c:506-513 | a value below base^n has at most n digits |
| `HashTable.HashTable.constructor` | src/lib/kernel/hash.c:24-42 | a new table is valid and empty |
| `HashTable.HashTable.Init` | src/lib/kernel/hash.c:24-42 | a valid empty table, or failure if and only if there is no memory |
| `HashTable.HashTable.Find` | src/lib/kernel/hash.c:131-135 | an equal element of the whole table, or none if there is none |
| `HashTable.HashTable.Insert` | src/lib/kernel/hash.c:98-110 | adds the element unless an equal one is there, which is returned; the table stays valid whether or not the rehash gets memory |
| `HashTable.HashTable.Replace` | src/lib/kernel/hash.c:114-127 | the element takes the place of any equal one |
| `HashTable.HashTable.Delete` | src/lib/kernel/hash.c:144-154 | removes exactly the equal element |
| `HashTable.HashTable.Rehash` | src/lib/kernel/hash.c:351-413 | same elements, right buckets; with memory the bucket count is the largest power of two at most max(4, elem_cnt/2), without it nothing changes |
| `HashTable.HashTable.FindElem` | src/lib/kernel/hash.c:314-326 | the first equal element of a bucket |
| `HashTable.NewBucketCount` | src/lib/kernel/hash.c:364-372 | turning off low bits ends at the largest power of two |
| `HashTable.Next` | src/lib/kernel/hash.c:218-235 | the next element not yet returned, or none once all have been |
| `HashTable.Walk` | src/lib/kernel/hash.c:199-235 | a full walk returns every element once |
| `HashSpec.FindIsComplete` | src/lib/kernel/hash.c:305-326 | searching one bucket finds an equal element of the table if there is one |
| `HashSpec.OnlyOne` | src/lib/kernel/hash.c:98-127 | equal elements of a table are one element |
| `HashSpec.FlattenUnique` | src/lib/kernel/hash.c:199-235 | no two elements of the iteration are equal |
| `HashSpec.DistributeValid` | src/lib/kernel/hash.c:394-410 | redistributing gives a valid table of exactly those elements |
| `HashSpec.PushValid` | src/lib/kernel/hash.c:416-421 | inserting a new element keeps the table valid |
| `HashSpec.CutValid` | src/lib/kernel/hash.c:424-429 | removing an element keeps the table valid |
| `HashSpec.BucketInRange` | src/lib/kernel/hash.c:305-310 | masking with the bucket count less one is the remainder and a bucket index |
| `HashSpec.PowerIff` | src/lib/kernel/hash.c:328-340 | a number is a power of two if and only if turning off its lowest bit leaves zero |
| `HashSpec.OffKeepsTop` | src/lib/kernel/hash.c:328-333 | turning off the lowest of several bits keeps the highest and makes the number smaller |
| `PageTableState.SplitJoin` | src/threads/pte.h:32-39 | joining the three parts of a 32-bit address gives the address |
| `PageTableState.JoinSplit` | src/threads/pte.h:32-39 | splitting a joined address gives the parts |
| `PageTableState.AddressParts` | src/threads/vaddr.h:24-26 | the masks pick out the table index and the page offset |
| `PageTableState.SamePage` | src/threads/pte.h:32-39 | two addresses share a page if and only if both indices agree |
| `PageTableState.EntryRoundTrip` | src/threads/pte.h:87-104 | a user entry decodes to the page and flags it was made from |
| `PageTableState.DirectoryRoundTrip` | src/threads/pte.h:71-81 | a directory entry leads back to its table and is not zero |
| `PageTableState.DecodeSet` | src/userprog/pagedir.c:174-217 | setting a flag changes that flag of the entry and nothing else |
| `PageTableState.DecodeClear` | src/userprog/pagedir.c:145-217 | clearing a flag changes that flag of the entry and nothing else |
| `PageDirectory.WriteOne` | src/userprog/pagedir.c:58-121 | writing one table word changes the entry of one page |
| `PageDirectory.NewTable` | src/userprog/pagedir.c:71-80 | a new page table changes no page's entry |
| `PageDirectory.PageDirectory.constructor` | src/userprog/pagedir.c:16-23 | a copy of the kernel's directory |
| `PageDirectory.PageDirectory.Create` | src/userprog/pagedir.c:16-23 | kernel pages have the kernel's entries and user pages none; fails if and only if there is no memory |
| `PageDirectory.PageDirectory.LookupPage` | src/userprog/pagedir.c:58-88 | finds or makes the place of the page's entry without changing any entry |
| `PageDirectory.PageDirectory.SetPage` | src/userprog/pagedir.c:100-121 | maps the page to the frame with its flags and changes no other page; fails exactly when a table is needed and there is no memory |
| `PageDirectory.PageDirectory.GetPage` | src/userprog/pagedir.c:127-139 | the frame's address plus the offset, if and only if the page is present |
| `PageDirectory.PageDirectory.ClearPage` | src/userprog/pagedir.c:145-159 | the page stops being present, keeps frame and flags, and other pages are untouched |
| `PageDirectory.PageDirectory.IsFlagged` | src/userprog/pagedir.c:165-199 | the accessed or dirty bit of the page, false without a table |
| `PageDirectory.PageDirectory.SetFlagged` | src/userprog/pagedir.c:174-217 | changes that bit of that page and nothing else |
| `PageDirectory.PageDirectory.SetThenGet` | src/userprog/pagedir.c:100-139 | a page that has been set is found at every address in it |
| `Stdlib.Sort` | src/lib/stdlib.c:131-152 | leaves a sorted permutation of the input for any lawful comparison |
| `Stdlib.Heapify` | src/lib/stdlib.c:96-123 | restores heap order from a position on, permuting only the heap |
| `Stdlib.BuildHeap` | src/lib/stdlib.c:142-144 | any array becomes a heap of the same elements |
| `Stdlib.HoleMoves` | src/lib/stdlib.c:101-122 | swapping with the larger child moves the one violation down |
| `Stdlib.RootIsLargest` | src/lib/stdlib.c:96-123 | the first element of a heap is the largest |
| `Stdlib.BinarySearch` | src/lib/stdlib.c:184-207 | finds an element equal to the key if and only if the sorted array has one |
| `Stdlib.Split` | src/lib/stdlib.c:184-207 | comparing with one element of a sorted sequence decides one side of it |

## Left out

- VmRuns.RunRefines: a fault is one atomic step; VmInterleaving shows what two overlapping ones can do; a full frame table needs a free swap slot and a page to be loaded an offset below 2^31, which the code demands by assertions; addresses on page 0 are excluded for the reason GrowthCountIffNotPageZero states; the bytes a new stack page starts with are not specified, because the code does not clear them.
- VmMachine.Machine.PageClearAll: swap slots of an ended process stay marked, as in the code; the order of the walk is left open.
- Loader.LoadSegment: reading and checking ELF headers other than the PT_LOAD arithmetic, and `setup_stack`.
- Scheduler.Threads.Reschedule: the ready list and the waiters are sequences and not linked elements.
- KernelList.List.Sort: `list_reverse`, `list_unique`, `list_min`, `list_max` and `list_insert_ordered` would only add easy members.
- HeapSafety.RunKeepsInv: descriptor locks and the filling of freed blocks with 0xcc.
- ThreadRuns.ValueCounts: a semaphore's value is unbounded; the wrap after 2^32 ups without a down is not modelled.
- ThreadSafety.RunKeepsInv: time slices and priorities have no effect on scheduling; a timer preemption is a yield that can come between any two steps; runs start after the idle thread has started.
- Monitor.MRunKeepsInv: one lock and one condition variable among any other kernel activity; `cond_broadcast` is a series of signals; a thread does not exit while it is inside the lock or waiting.
- WaitExit.RunIsSafe: starts with registered children; semaphores are counters whose down is enabled while positive, which is what ThreadRuns.ValueCounts and Scheduler.Threads.SemaDownPass give; the walk over the child list visits every child, although the code reads each link from a freed node.
- Arithmetic.Divl: the divide instruction itself is its quotient with the no-trap condition as precondition.
- Palloc.PageAllocator.GetMultiple: the pool locks.
- InodeBytes.Device.WriteAt: offsets are not negative, as the callers assert; the allocation of the bounce buffer is an argument.
- FsSafety.RunKeepsInv: calls are atomic; the directory is its sequence of slots and not their bytes; runs have no create that breaks CreateKeepsIff's condition; inode sectors are the map `disk` and not their bytes; whether the free map could be written is an argument, and FreeMap says what its file then holds; the root directory's inode is opened and closed within each call, which OpenCloseIsNothing shows to leave no trace.
- FsSafety.DoKeeps: as FsSafety.RunKeepsInv, creates that break CreateKeepsIff's condition, which is exact.
- Ustar.ParseInvertsMake: the message printed for a long name.
- Stdio.FormatInteger: parsing of format strings, string conversions and human-readable sizes.
- HashTable.HashTable.Rehash: `hash_clear`, `hash_destroy`, `hash_apply` and the FNV hash functions are left out.
- PageDirectory.PageDirectory.SetPage: the check against the amount of memory, TLB invalidation, CR3, and `pagedir_destroy`.
- Stdlib.Sort: elements are values of any type, so the byte-wise swap of elements of a given size is one assignment.
- Device drivers, assembly, interrupt dispatch, system call argument fetching, `partition.c`, `string.c`, `random.c` and the test programs: hardware access or easy members.
