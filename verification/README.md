# Luna OS kernel core: model and proofs

A Dafny model of the Ring 0 core of Luna OS and proofs about it. Everything is
checked by `dafny verify dfyconfig.toml`.

The model follows the kernel's files and keeps their form: objects with mutable
fields, arrays updated in place, the same loops. Each operation is proved against
a specification on values, and what the kernel promises is proved about those.

| file | models | main results |
|---|---|---|
| `FrameAllocator.dfy`, `Bitmap.dfy` | `kernel/pmm.c` | exact counter, next fit, lowest run, conservation over all runs |
| `PageTables.dfy` | `kernel/vmm.c` | two levels refine a page-to-entry map; tables are never aliased |
| `SharedSurfaces.dfy` | `ipc/shared_surface.c` | ownership, unique ids, create and destroy cancel |
| `KernelMemory.dfy` | frames, tables, heap pages and surfaces together | one owner for every frame |
| `HeapPages.dfy`, `SlabHeap.dfy` | `kernel/heap.c` | live blocks never overlap, free lists are acyclic, blocks are mapped, growth fails only when it must |
| `LedgerQueue.dfy`, `QueueInterleaving.dfy` | `kernel/ledger_queue.c` | under every interleaving of single memory accesses what is popped is what was pushed, and no call blocks |
| `Sha256Spec.dfy`, `Sha256Standard.dfy`, `Sha256.dfy` | `kernel/hash.c` | equals FIPS 180-4 |
| `LedgerBlocks.dfy`, `LedgerChain.dfy`, `Ledger.dfy` | `kernel/ledger.c` | chain invariants, verification, tamper evidence, no lost event |
| `SchedulerModel.dfy`, `Scheduler.dfy` | `kernel/scheduler.c` | circular rings, greatest priority first, one runner, proportional share |
| `Compositor.dfy` | `compositor/compositor.c`, `drivers/gfx/framebuffer.c` | each pixel shows the topmost opaque word under it |
| `Formatting.dfy`, `FormatLaws.dfy` | `kernel/string.c` | bounded prefix, formats compose, print and parse cancel |

Conventions. Machine arithmetic is written out where it can wrap. A kernel panic is
a `None`, a `false` or a constructor of its own; what holds after one is stated only
where the code leaves the state alone. `LEDGER_QUEUE_SIZE` and `LEDGER_MAX_BLOCKS`
are parameters. Invariants are `Valid()` predicates (for the heap, `Sound` and
`Valid`); every operation requires them and states when it restores
them, so a lemma that assumes one speaks about every reachable state.

## Where the code differs from its comments, or fails its purpose

Each is proved, with the exact condition.

- `kernel/pmm.c:61-66` counts a frame twice if two map entries name it; the counter
  is right exactly for frame-disjoint entries (`Init`, `OverlapMiscounts`).
- `kernel/pmm.c:70` wraps for a kernel that ends above 0xFFFFF000: then nothing of it
  is reserved (`KernelFramesAre`, `KernelImageIsReserved`).
- `ipc/shared_surface.c:26-27` wraps: large surfaces get too few pages
  (`PagesHoldThePixels`, `OversizedSurfaceIsShort`).
- `kernel/ledger.c:11` says parent 0 is the previous block; it is the head of the
  block's own stream (`FirstParentIsPrevious`, `FirstParentCanSkip`).
- `kernel/ledger.c:85-89` recycles without resetting `stream_head`; verification
  then passes exactly if the event's stream had no block yet, up to collisions
  (`RecycledLedgerVerifies`, `RecyclingCanFail`).
- `kernel/ledger.c:138` starts at block 1; slot 0 is never rehashed
  (`SlotZeroIsUnchecked`).
- `kernel/scheduler.c:46-49` leaves the last link dangling exactly when the head of
  several is removed (`Remove`); the running process can be that head
  (`ArriveThenBlock`).
- `kernel/scheduler.c:57` promises the highest non-empty queue; it is served exactly
  if its head is ready (`TopRingIsServed`), and the running process is not
  (`SoleTopProcessYields`).
- `kernel/ledger_queue.c:66` loads two indices; a thread that is neither producer nor
  consumer can be told a number never held (`ObserverCanMiscount`);
  `DepthIsExactForItsThreads` says exactly when an answer is right.
- `kernel/heap.c:136-146` means to find the matching class; class 0 divides every
  block address, so every slab block goes there (`KFree`, `FreeThenReuse`).
- `kernel/heap.c:129` takes any word with the magic value for a header; freeing a slab
  block then clears the word, harming a live block exactly if the word is in one
  (`KFree`).
- `kernel/heap.c:42` puts the heap at 0xD0000000, inside the 1 GB that
  `kernel/vmm.c:57` reaches by adding 0xC0000000: frames of 256 MB and above are
  shadowed (`DirectMapMeetsHeap`, `ReachBesideHeap`, `HeapShadowsFrame`).
- `kernel/heap.c:114-115` wraps for sizes of 2^32 - 4103 and more
  (`LargeBlockHoldsRequest`).
- `kernel/string.c:261` negates INT32_MIN to itself; `%d` then prints
  18446744071562067968 after the sign (`DecimalUnlessMostNegative`).

## Model

| member | source | states |
|---|---|---|
| FrameAllocator.FrameBitmap.FrameSet | kernel/pmm.c:23-25 | the bit operation removes exactly its frame from the set of clear bits, across all 2^20 frames |
| FrameAllocator.FrameBitmap.FrameClear | kernel/pmm.c:26-28 | the bit operation adds exactly its frame to the set of clear bits |
| FrameAllocator.FrameBitmap.FrameTest | kernel/pmm.c:29-31 | reads back exactly membership in that set |
| FrameAllocator.FrameBitmap.MarkAllUsed | kernel/pmm.c:40 | filling the bitmap with ones leaves no frame free |
| FrameAllocator.FrameBitmap.FreeEntry | kernel/pmm.c:45-66 | one map entry frees the whole frames it names above 1 MB and counts each clearing, whether or not the bit was set |
| FrameAllocator.FrameBitmap.Init | kernel/pmm.c:38-74 | the free set becomes the frames of the available entries minus the kernel's; the counter equals the number of clear bits if and only if no frame is named by two entries |
| FrameAllocator.ClearingsCountFrames | kernel/pmm.c:61-66 | the number of clearings is the number of distinct frames if and only if the entries are frame-disjoint |
| FrameAllocator.OverlapMiscounts | kernel/pmm.c:61-66 | a memory map with one repeated entry, on which the counter exceeds the free frames |
| FrameAllocator.AvailableFramesAreUsableRam | kernel/pmm.c:44-67 | with page-aligned entries, every freed frame lies wholly inside some available entry and above 1 MB |
| FrameAllocator.EntryFramesAreUsable | kernel/pmm.c:45-66 | for a page-aligned entry the frames cleared are exactly its whole frames above 1 MB and below 4 GB |
| FrameAllocator.KernelFramesAre | kernel/pmm.c:69-73 | by address: reserved are the frames from 1 MB up to the one past the kernel's last; none if the kernel's end plus 4095 wraps |
| FrameAllocator.KernelImageIsReserved | kernel/pmm.c:69-73 | every frame of the kernel image is reserved if and only if that sum does not wrap |
| FrameAllocator.BootFrees | kernel/pmm.c:38-74 | by address: a frame is free after boot if and only if some available entry holds all of it, above 1 MB and past the kernel |
| FrameAllocator.FrameBitmap.AllocFrame | kernel/pmm.c:77-93 | returns 4096 times the cyclically first clear frame from the next-fit hint and flips only that bit; panics exactly if nothing is free, so the second panic is unreachable |
| FrameAllocator.FrameBitmap.AllocFrames | kernel/pmm.c:96-114 | returns the lowest start of a run of n clear frames and takes exactly that run; panics exactly if n is 0 or no such run exists anywhere |
| FrameAllocator.FrameBitmap.FindRun | kernel/pmm.c:96-114 | the scan stops at the lowest start of n clear frames in a row, or finds that there is none |
| FrameAllocator.FrameBitmap.FreeFrame | kernel/pmm.c:117-123 | frees the addressed frame, leaves the state alone on a double free, and keeps the counter exact |
| FrameAllocator.Serve | kernel/pmm.c:77-123 | each call the allocator answers is one step of those runs |
| FrameAllocator.FramesAreConserved | kernel/pmm.c:77-123 | over every run of allocations and frees by owners, held and free frames stay disjoint and together are the frames there were at boot |
| FrameAllocator.ReservedFramesNeverHandedOut | kernel/pmm.c:50-73 | over every such run a frame held by a caller starts above 1 MB and, if the kernel's end does not wrap, past the kernel's end |
| PageTables.MasksAreArithmetic | kernel/vmm.c:19-21 | the shifts and masks on addresses and entries are the divisions and remainders the model writes |
| PageTables.MappedTarget | kernel/vmm.c:66-106 | an entry built from a physical address translates the page back to that address, whatever the flags below 0x1000 |
| PageTables.DirectoryEntryFields | kernel/vmm.c:59 | a directory entry is present and writable, leads back to its table, and carries the user bit exactly if the flags do |
| PageTables.PageEntryFields | kernel/vmm.c:66 | a page entry is present, holds the frame of its address, and keeps the flags' user bit, writable bit and every bit above the lowest |
| PageTables.AddressSpaces.Init | kernel/vmm.c:34-38 | the kernel directory is the allocator's next frame and translates no page; a frame the direct map does not reach is refused |
| PageTables.AddressSpaces.UserTablesArePrivate | kernel/vmm.c:54-60 | in every reachable state a page table below 0xC0000000 serves one directory only |
| PageTables.AddressSpaces.SlotsAreUnaliased | kernel/vmm.c:54-60 | no page table is reached through two different slots, in one directory or in two |
| PageTables.AddressSpaces.TableFor | kernel/vmm.c:54-64 | allocating and zeroing a missing page table changes no translation anywhere; the frame is the allocator's next, refused exactly if the direct map does not reach it |
| PageTables.AddressSpaces.StoreEntry | kernel/vmm.c:66-77 | storing an entry changes one page, in exactly the directories that share the table |
| PageTables.AddressSpaces.MapPage | kernel/vmm.c:48-68 | after mapping, the page resolves to the new entry in the directories sharing its table and every other translation is as before; below 0xC0000000 no other directory sees it; user reach needs both levels, writing exactly the page's own flag; one frame is taken exactly if the table was missing, it is the allocator's next, and the page fails exactly if there is none or the direct map does not reach it |
| PageTables.AddressSpaces.UnmapPage | kernel/vmm.c:71-78 | exactly one translation disappears |
| PageTables.AddressSpaces.CreateUserPd | kernel/vmm.c:81-91 | a new directory is empty below 0xC0000000, resolves above it as the kernel's through the same tables, changes no existing translation, and costs exactly the allocator's next frame |
| PageTables.AddressSpaces.VirtToPhys | kernel/vmm.c:100-107 | returns what the page-to-entry map says, and 0 for an unmapped page |
| SharedSurfaces.PagesHoldThePixels | ipc/shared_surface.c:26-27 | the pages allocated hold w*h pixels if and only if w*h*4 + 4095 fits 32 bits, and then they are the fewest that do |
| SharedSurfaces.OversizedSurfaceIsShort | ipc/shared_surface.c:26-27 | a surface of 65536 by 65537 pixels gets 64 pages |
| SharedSurfaces.SurfaceTable.Create | ipc/shared_surface.c:15-44 | the first inactive slot gets the next id and a run of frames that were free; fails exactly if all slots are active, panics only if there is no such run or the size comes to no page |
| SharedSurfaces.SurfaceTable.Get | ipc/shared_surface.c:46-53 | finds an active surface exactly if one bears the id; before ids wrap it is the only one |
| SharedSurfaces.SurfaceTable.Destroy | ipc/shared_surface.c:55-66 | deactivates that slot only and returns exactly the frames it took |
| SharedSurfaces.OwningAfterCreate | ipc/shared_surface.c:15-44 | creation keeps the frame ranges of active surfaces pairwise disjoint and marked used |
| SharedSurfaces.OwningAfterDestroy | ipc/shared_surface.c:55-66 | so does destruction |
| SharedSurfaces.NumberedAfterCreate | ipc/shared_surface.c:19 | ids of active surfaces stay distinct until 2^32 - 1 have been issued |
| SharedSurfaces.CreateThenDestroy | ipc/shared_surface.c:15-66 | creating a surface and destroying it restores every bitmap bit, the free count and the set of active slots |
| HeapPages.HeapWindow.AllocPage | kernel/heap.c:49-55 | one page more, on the allocator's next frame, mapped writable in the kernel directory; the window is full exactly at 2^32; out of frames exactly if fewer are free than the page and its missing table need; out of reach exactly for a missing table whose frame, the allocator's next after the page's own, the direct map does not reach |
| HeapPages.HeapWindow.AllocPages | kernel/heap.c:46-58 | n pages at the cursor, each on its own frame, taking exactly the allocator's next n frames and one more per missing table; what refuses any page refused all n: too few frames, a missing table whose frame's turn falls out of reach, or the end of the window |
| HeapPages.OneMoreTable | kernel/heap.c:49-55 | a further page needs one frame, and a second exactly if its slot has no table and no page before it brought one |
| HeapPages.NewTablesSplit | kernel/heap.c:46-58 | frames needed for n + m pages are those for n and then those for m more |
| HeapPages.EnoughFrames | kernel/heap.c:46-58 | n pages need at most one table per 4 MB slot they touch |
| HeapPages.BootNeeds | kernel/heap.c:61-82 | boot needs 33 frames, or 32 if the first slot has a table |
| HeapPages.RefusedForWantOnly | kernel/heap.c:46-58 | with every free frame in reach, n pages are refused if and only if there are too few frames or too little window |
| HeapPages.RefusedOnward | kernel/heap.c:46-58 | a refusal after some pages is a refusal of the whole request at its start |
| HeapPages.GrewIsNotRefused | kernel/heap.c:46-58 | pages that were added could not have been refused for any of these reasons |
| HeapPages.DirectMapMeetsHeap | kernel/heap.c:41-43 | the direct-map address of a frame is page k of the heap window if and only if the frame is 0x10000 + k |
| HeapPages.ReachBesideHeap | kernel/vmm.c:56-63 | a frame's direct-map address neither wraps nor lies in the heap window if and only if the frame is below 256 MB |
| HeapPages.HeapWindow.HeapShadowsFrame | kernel/vmm.c:56-63 | once page k of the window is in use, a kernel store to frame 0x10000 + k lands in the frame behind that page, through a writable mapping closed to user code |
| SlabHeap.KernelHeap.Init | kernel/heap.c:61-82 | after boot list i holds the 16 KB at 0xD0000000 + 16 KB * i cut into its objects, in order, and the heap invariant holds; the boot takes the frames 32 pages need and stops exactly for one of the reasons to refuse them |
| SlabHeap.SizesDouble | kernel/heap.c:14-16 | the object sizes are 8 and its doubles |
| SlabHeap.KernelHeap.CarveAll | kernel/heap.c:74-80 | threading fresh pages pushes their objects one by one, past everything that existed, and changes no other list, cell or word |
| SlabHeap.KernelHeap.AllocSmall | kernel/heap.c:88-111 | from a stocked list its head, the window untouched; from an empty one the last object of a new slab at the cursor, the others becoming the list, all other lists untouched and the cursor 16 KB on |
| SlabHeap.KernelHeap.KMalloc | kernel/heap.c:85-121 | a block is new, every live block stays live with its size and its words, and the block holds the request if and only if size + 8 + 4095 fits 32 bits; small blocks come zeroed from the smallest fitting class as AllocSmall says, large ones at the cursor behind a header with the magic and their bytes; NULL exactly for size 0; a fault exactly if the size wraps to no page; it stops only for a reason to refuse the pages it needs, none of which holds when it succeeds |
| SlabHeap.KernelHeap.KFree | kernel/heap.c:124-147 | a freed block goes to class 0 whatever its class, unless the word before it is the large-block magic, which every large block has: then that word becomes 0 and the block is never reused; the other live blocks keep their words if and only if the word cleared is in none of them; the heap invariant holds in every case |
| SlabHeap.HeaderIsInNoBlock | kernel/heap.c:128-133 | the magic word of a large block lies in no other live block, so freeing large blocks harms no data |
| SlabHeap.KernelHeap.FreeThenReuse | kernel/heap.c:85-147 | a freed slab block of any class is what the next request of at most 8 bytes gets |
| SlabHeap.KernelHeap.StoreInBlock | kernel/heap.c:105-109 | a caller writing inside a live block cannot break the heap invariant |
| SlabHeap.LargeBlockHoldsRequest | kernel/heap.c:114-115 | the rounding of large sizes is enough if and only if it does not wrap; then it has no page too many, otherwise one page or none is left |
| SlabHeap.LiveBlocksAreApart | kernel/heap.c:85-147 | in every reachable state a live block shares no byte with another live block or a free node |
| SlabHeap.FreeListIsAcyclic | kernel/heap.c:18-28 | in every reachable state following a list from its head visits each of its free cells once, each at least the class's size, and ends in NULL |
| SlabHeap.KernelHeap.BlockIsMapped | kernel/heap.c:46-121 | every byte of a live block lies in a page mapped to a frame of its own, writable, and closed to user code |
| SlabHeap.PushKeepsSound | kernel/heap.c:76-79 | linking a node in front keeps cells apart, lists threaded and large headers intact |
| SlabHeap.PopKeepsSound | kernel/heap.c:105-106 | so does taking the first node |
| SlabHeap.DropKeepsSound | kernel/heap.c:129-133 | so does clearing the magic word, even if it was a data word that happened to hold the magic |
| KernelMemory.KernelMemory.CreateSurface | ipc/shared_surface.c:15-44 | creating a surface fills a slot as the table says and keeps the one-owner invariant over surfaces, directories, page tables and heap pages |
| KernelMemory.KernelMemory.DestroySurface | ipc/shared_surface.c:55-66 | so does destroying one: no frame it returns backs the heap or a table |
| KernelMemory.KernelMemory.MapPage | kernel/vmm.c:48-68 | so does mapping a page below the heap window, which then resolves to its entry unless its table's frame is missing or out of reach |
| KernelMemory.KernelMemory.UnmapPage | kernel/vmm.c:71-78 | so does unmapping one, which then resolves to nothing |
| KernelMemory.KernelMemory.CreateUserPd | kernel/vmm.c:81-91 | so does a new directory, on a frame that was free |
| KernelMemory.KernelMemory.GrowHeap | kernel/heap.c:46-58 | so does growing the heap by n pages, refused only for the reasons there are |
| KernelMemory.KernelMemory.OneOwner | kernel/pmm.c:77-123 | under that invariant a surface's frame is not free, not a directory or table, not behind the heap and not another surface's |
| LedgerQueue.MaskIsRemainder | kernel/ledger_queue.c:11 | for the kernel's queue size of 1024 the mask is the remainder, and of a possibly wrapped 32-bit difference of two positions it is their cyclic distance |
| LedgerQueue.CyclicDifference | kernel/ledger_queue.c:66 | the remainder the depth query computes is that same cyclic distance, for every size |
| LedgerQueue.LapTest | kernel/ledger_queue.c:32-38 | positions coincide modulo the size exactly a full lap apart, which is what the full test relies on |
| LedgerQueue.Ring.Push | kernel/ledger_queue.c:30-46 | appends and returns true exactly if fewer than SIZE - 1 events are held, else changes nothing |
| LedgerQueue.Ring.Pop | kernel/ledger_queue.c:49-62 | takes the oldest event; fails exactly if the queue is empty |
| LedgerQueue.Ring.Depth | kernel/ledger_queue.c:65-67 | is the number of events held |
| QueueInterleaving.FilledSlotIsFree | kernel/ledger_queue.c:40 | at every point the slot being written holds no event still to be read |
| QueueInterleaving.RefusedOnlyWhenFull | kernel/ledger_queue.c:34-38 | the producer's test refuses exactly if SIZE - 1 events are held at that step |
| QueueInterleaving.EmptyOnlyWhenEmpty | kernel/ledger_queue.c:52-54 | the consumer's test fails exactly if nothing is held at that step |
| QueueInterleaving.StepKeeps | kernel/ledger_queue.c:30-62 | each single read, word copy or write of either thread keeps the queue's consistency |
| QueueInterleaving.RunKeeps | kernel/ledger_queue.c:30-62 | so does every interleaving of them, of any length |
| QueueInterleaving.EveryInterleavingIsFifo | kernel/ledger_queue.c:30-62 | under every interleaving the popped events are a prefix of the accepted ones, at most SIZE - 1 are held, the indices are that far apart, and a slot is never written while it is read |
| QueueInterleaving.StepAccepts | kernel/ledger_queue.c:30-46 | each step leaves the accepted events and the one in flight alone, but a call adds its argument and a refusal takes the last one back |
| QueueInterleaving.PopsWhatWasPushed | kernel/ledger_queue.c:30-62 | in every run the accepted events and the one in flight are the events callers passed to push, whole and in order, without the refused ones; the popped events are a prefix of those |
| QueueInterleaving.NeverStuck | kernel/ledger_queue.c:30-62 | whatever the others are doing, producer and consumer each have a step to take |
| QueueInterleaving.PushReturns | kernel/ledger_queue.c:30-46 | a push left alone returns, having appended its event unless SIZE - 1 were held |
| QueueInterleaving.PopReturns | kernel/ledger_queue.c:49-62 | a pop left alone returns, with the oldest event if there was one |
| QueueInterleaving.DepthIsExactForItsThreads | kernel/ledger_queue.c:65-67 | the two loads of the depth query are steps of their own, in either order: the answer is the number held at the load of the tail if and only if a multiple of SIZE events was pushed between the loads, at the load of the head if and only if a multiple was popped; so producer and consumer are always told the number held at their load of the other's index |
| QueueInterleaving.ObserverCanMiscount | kernel/ledger_queue.c:65-67 | a run in which a third thread is told SIZE - 1 although nothing is held at either load |
| Sha256Spec.PaddedLength | kernel/hash.c:130-144 | the padding of FIPS 180-4 section 5.1.1 makes a whole number of blocks |
| Sha256Spec.ZeroCountIsLeast | kernel/hash.c:144 | with the least number of zero bytes that does |
| Sha256Standard.ConstantsAreCubeRoots | kernel/hash.c:41-60 | round constant t is the first 32 fractional bits of the cube root of prime t, by integer bounds |
| Sha256Standard.InitialHashIsSquareRoots | kernel/hash.c:62-67 | the initial hash value is that of the square roots of the first eight primes |
| Sha256Standard.ChooseBit | kernel/hash.c:70-78 | bit by bit Ch takes y where x is set and z elsewhere |
| Sha256Standard.MajorityBit | kernel/hash.c:70-78 | bit by bit Maj is the majority of its three words |
| Sha256Standard.BigSigma0Bit | kernel/hash.c:70-78 | each bit is the parity of the bits 2, 13 and 22 places up, round the word |
| Sha256Standard.BigSigma1Bit | kernel/hash.c:70-78 | of those 6, 11 and 25 places up |
| Sha256Standard.SmallSigma0Bit | kernel/hash.c:70-78 | of those 7 and 18 places up round the word and 3 places up inside it |
| Sha256Standard.SmallSigma1Bit | kernel/hash.c:70-78 | of those 17 and 19 places up round the word and 10 places up inside it |
| Sha256Standard.PlusCounts | kernel/hash.c:86-111 | addition counts on from its first word, all the way round |
| Sha256Standard.BytesOfWord | kernel/hash.c:86-90 | the bytes a word is written as are read back as that word |
| Sha256.BuildSchedule | kernel/hash.c:86-95 | the 64-word array is the message schedule of section 6.2.2 step 1 |
| Sha256.Mix | kernel/hash.c:97-107 | eight variables updated one after the other, 64 times, hold what section 6.2.2 steps 2 and 3 say |
| Sha256.AddInto | kernel/hash.c:109-111 | the eight additions are step 4 of section 6.2.2 |
| Sha256.Transform | kernel/hash.c:81-112 | one call is the compression function of section 6.2.2 |
| Sha256.FoldNext | kernel/hash.c:124-128 | folding the compression over blocks one more at a time is folding over the message |
| Sha256.LengthFieldIsBigEndian | kernel/hash.c:146-154 | the eight shifted bytes are the 64-bit big-endian bit length |
| Sha256.TailIsPadding | kernel/hash.c:130-155 | the full blocks followed by the one or two tail blocks are the padded message |
| Sha256.Finish | kernel/hash.c:130-155 | the buffered tail, with or without the extra flush, folds exactly that padding |
| Sha256.Emit | kernel/hash.c:157-163 | the digest bytes are the state words in big-endian order |
| Sha256.Hash | kernel/hash.c:114-164 | equals the FIPS 180-4 digest for every message whose length fits size_t |
| LedgerBlocks.Fields | kernel/ledger.h:28-39 | the hashed bytes are the fields before block_hash at their x86 offsets, the reserved byte being zero |
| LedgerBlocks.LittleEndianBytes | kernel/ledger.h:29-30 | index and timestamp are stored lowest byte first |
| LedgerBlocks.BlankIsZero | kernel/ledger.c:94 | a cleared block is 176 zero bytes |
| LedgerBlocks.PreimageInjective | kernel/ledger.h:28-39 | those bytes determine every field of the block but its hash |
| LedgerBlocks.TargetSurvivesCopy | kernel/ledger.c:70-100 | the second bounded copy of a target changes nothing, and it stays NUL-terminated |
| LedgerBlocks.FieldShape | kernel/ledger.c:70-71 | the stored target is the first 63 bytes up to the NUL, then zeros |
| LedgerChain.GenesisIs | kernel/ledger.c:33-47 | the genesis block is all zeros but for its name, LUNA_OS_GENESIS and zeros, and its own hash |
| LedgerChain.HeadsShape | kernel/ledger.c:118 | after n events the larger stream head is n, and both differ once n is at least 1 |
| LedgerChain.ReachedRecords | kernel/ledger.c:84-121 | in every ledger reached below the block limit block i is the block built from event i with the stream heads of that moment |
| LedgerChain.PreviousBlockIsParent | kernel/ledger.c:102-113 | every block i >= 1 has block i - 1 as a parent; block 1 has one parent and zeros for the other, later blocks two, the head of their stream's parity first |
| LedgerChain.HeadReachesEveryBlock | kernel/ledger.c:102-122 | parent links lead from any block down to any earlier one |
| LedgerChain.FirstParentIsPrevious | kernel/ledger.c:11-12 | without collisions prev_hash[0] of block i is the previous block's hash if and only if block i is the first or the previous block has its stream; the header comment claims it always is |
| LedgerChain.FirstParentCanSkip | kernel/ledger.c:104-112 | after any two events of different streams block 2 names genesis first and block 1 second |
| LedgerChain.BlockRecordsEvent | kernel/ledger.c:91-100 | block i carries the action, stream, time and target of event i |
| LedgerChain.RecordedChainsVerify | kernel/ledger.c:135-164 | such a ledger passes verification |
| LedgerChain.RecycledLedgerVerifies | kernel/ledger.c:85-121 | just after the recycling branch verification passes if and only if the event's stream had no block yet, or only block 1, now zeroed, and the genesis hash is all zeros (no collisions) |
| LedgerChain.RecyclingCanFail | kernel/ledger.c:85-121 | a ledger of three blocks and three events of one stream, which fails |
| LedgerChain.DifferentBlocksDifferentHashes | kernel/ledger.c:115-116 | without collisions the blocks of a recorded ledger have different hashes |
| LedgerChain.SlotZeroIsUnchecked | kernel/ledger.c:138 | replacing block 0 by any block of the same stored hash changes no verification result |
| LedgerChain.EditIsDetected | kernel/ledger.c:141-147 | changing anything but the hash of a verified block makes verification fail, unless the contents collide |
| LedgerChain.SameHashSameBlock | kernel/ledger.c:141-147 | without collisions two rehashing blocks with one hash are identical |
| LedgerChain.WalkFollowsFirstParents | kernel/ledger.c:149-160 | each hop of a walk follows the first parent link to the earliest block bearing that hash, until slot 0 or a block without parents |
| LedgerChain.AgreeingHeadsAgreeBelow | kernel/ledger.c:135-164 | tamper evidence: two verified ledgers without hash collisions that share a head hash agree on the block k links down parent 0, for every k at which both walks are still above slot 0 |
| LedgerChain.SealedGenesisAgrees | kernel/ledger.c:135-164 | if slot 0 of both also rehashes and has no parents, they agree all the way down |
| Ledger.SealBlock | kernel/ledger.c:115-116 | stores the SHA-256 of the fields before the hash |
| Ledger.GenesisBlock | kernel/ledger.c:33-47 | builds the genesis block |
| Ledger.Ledger.constructor | kernel/ledger.c:56-59 | after init the ledger holds genesis alone and the queue is empty |
| Ledger.Ledger.Enqueue | kernel/ledger.c:62-77 | an event is accepted exactly if fewer than SIZE - 1 are waiting, with its target cut to 63 bytes |
| Ledger.Ledger.Flush | kernel/ledger.c:82-122 | terminates with an empty queue, every accepted event finalised in order, and the block array as the recursive definition says, recycling included |
| Ledger.Ledger.Finalise | kernel/ledger.c:85-120 | one event extends the chain by one block |
| Ledger.Ledger.VerifyChain | kernel/ledger.c:135-164 | for any contents of the block array, tampered or not, true if and only if blocks 1..count-1 rehash and each one with a parent has an earlier block bearing prev_hash[0] |
| Ledger.VerifyBoth | kernel/ledger.c:135-164 | two ledgers of any contents that both pass and share a hash agree k links down parent 0, unless blocks collide or a link has reached slot 0 |
| Ledger.ReachableLedgerVerifies | kernel/ledger.c:33-164 | every ledger reached by any events below the block limit passes verification |
| Ledger.NoEventIsLost | kernel/ledger.c:62-122 | blocks after genesis followed by the queued events correspond one for one, in order and content, to the accepted events |
| SchedulerModel.PickIsHighestReadyHead | kernel/scheduler.c:58-67 | a pick returns the head of the highest ring whose head is ready, and turns that ring and every non-empty one above it once |
| SchedulerModel.PickKeepsRings | kernel/scheduler.c:58-67 | rings keep their members, without duplicates, in the same cyclic order |
| SchedulerModel.TickKeepsWellFormed | kernel/scheduler.c:74-101 | a tick keeps rings duplicate-free and processes known, and turns rings at most once |
| SchedulerModel.TickKeepsOneRunner | kernel/scheduler.c:85-88 | after a tick only the current process can be RUNNING |
| SchedulerModel.TickStates | kernel/scheduler.c:79-88 | across a tick only the dispatched process becomes RUNNING, the one before it READY if it was RUNNING; a BLOCKED one stays BLOCKED |
| SchedulerModel.ArriveAndBlock | kernel/scheduler.c:19-55 | who arrives is last in its ring and READY, who is blocked is in none and BLOCKED, nobody else moves or changes state |
| SchedulerModel.SliceRuns | kernel/scheduler.c:77-88 | a slice lasts exactly ticks_alloc ticks and ends with the next process of the ring dispatched |
| SchedulerModel.ProportionalShare | kernel/scheduler.c:58-101 | over each period of sum(ticks_alloc) ticks every process of a shared top ring is dispatched once, in ring order, gains exactly its ticks_alloc, and the state is as before otherwise |
| SchedulerModel.StartBeginsSharing | kernel/scheduler.c:109-115 | starting with an aligned, ready top ring of two or more establishes the conditions of that theorem |
| SchedulerModel.AtMostOneRunning | kernel/scheduler.c:19-127 | over all ticks, adds, unblocks and list-preserving blocks from a start, at most one process is RUNNING and it is the current one |
| SchedulerModel.SoleTopProcessYields | kernel/scheduler.c:57-83 | a process alone in the highest ring hands over to a lower ring at the end of its slice, contrary to the comment on pick_next |
| SchedulerModel.TopRingIsServed | kernel/scheduler.c:57-67 | a pick serves the highest non-empty ring if and only if the head of that ring is ready |
| SchedulerModel.WithoutAt | kernel/scheduler.c:42-50 | removing a process keeps the order of the others |
| Scheduler.RingIsPriority | kernel/scheduler.c:20 | below 16 the list of a process is the one its priority names |
| Scheduler.RingsAreOrdered | kernel/scheduler.c:20 | of two processes below 16 the one of greater priority is in the higher list |
| Scheduler.Scheduler.Add | kernel/scheduler.c:19-32 | appends at the tail of the process's ring, marks it READY, and keeps every ring circular |
| Scheduler.Scheduler.Tail | kernel/scheduler.c:26-27 | the walk to the tail terminates at the last process |
| Scheduler.Scheduler.Remove | kernel/scheduler.c:35-55 | removes the process from its ring; the rings stay circular if and only if it was not the head of several, in which case the last link dangles |
| Scheduler.Scheduler.PickNext | kernel/scheduler.c:58-67 | returns a READY list head such that no READY head has a greater priority, NULL exactly if there is none, and refines the pick on ring sequences |
| Scheduler.Scheduler.Tick | kernel/scheduler.c:74-101 | refines the tick on ring sequences; a process switched to was a READY head of greatest priority |
| Scheduler.Scheduler.Start | kernel/scheduler.c:109-115 | starts a READY head of greatest priority; panics exactly if no list head is READY |
| Scheduler.Scheduler.Block | kernel/scheduler.c:119-122 | marks BLOCKED and removes, with the same exact condition; otherwise the last link dangles |
| Scheduler.Scheduler.ArriveThenBlock | kernel/scheduler.c:119-122 | the condition fails for a running process that was alone when another arrived: blocking it strands the list |
| Scheduler.Scheduler.Unblock | kernel/scheduler.c:124-127 | marks READY and appends |
| Scheduler.AppendCircular | kernel/scheduler.c:28-29 | the two link writes of an append close the longer circle |
| Scheduler.CutCircular | kernel/scheduler.c:46-49 | the link writes of a removal behind the head close the shorter circle |
| Compositor.WordOfPixel | drivers/gfx/framebuffer.c:25 | a framebuffer word belongs to exactly one pixel position |
| Compositor.Framebuffer.PutPixel | drivers/gfx/framebuffer.c:22-27 | writes exactly the word of that visible pixel, nothing when it is off-screen or unmapped |
| Compositor.Framebuffer.FillRect | drivers/gfx/framebuffer.c:29-35 | colours exactly the visible pixels of the rectangle, with the far edges wrapped at 32 bits |
| Compositor.Framebuffer.Clear | drivers/gfx/framebuffer.c:37-39 | colours every visible pixel and no other word |
| Compositor.ClipIsGeometric | compositor/compositor.c:41 | for sizes and screens up to 2^31 the unsigned wrap clips as signed geometry does, negative positions included |
| Compositor.ContributionIsWordUnder | compositor/compositor.c:36-42 | a window contributes to a pixel exactly where its surface lies over it and the word there, row by row from the surface's corner, is not 0xFF00FF; it contributes that word |
| Compositor.WordUnderIs | compositor/compositor.c:38 | the word is number (py - y) * width + (px - x) when that fits 32 bits |
| Compositor.PaintSurface | compositor/compositor.c:36-45 | a surface contributes its colour at the pixels it covers, except where the colour is the key |
| Compositor.TopmostWins | compositor/compositor.c:30-32 | the painted colour is that of the last layer in (z, slot) order that contributes, otherwise the background |
| Compositor.TopmostOpaqueShows | compositor/compositor.c:25-49 | the screen shows the word under the pixel of a window over it unless it is the key, if no window painted later is over the pixel |
| Compositor.BackgroundShows | compositor/compositor.c:27 | where no active window of a depth below 16 is over the pixel, 0x00223344 shows |
| Compositor.Render | compositor/compositor.c:25-49 | every visible pixel shows the topmost layer's colour, a layer being the surface found for an active window of that depth, live and mapped; no word outside the visible area changes |
| Formatting.WriteChar | kernel/string.c:210-212 | the buffer holds the longest prefix of the text so far that leaves room for NUL |
| Formatting.WriteStr | kernel/string.c:214-219 | so after a string padded on the left to its width |
| Formatting.DigitsFitTheBuffer | kernel/string.c:223-226 | a 64-bit number has at most 20 digits, so the 24-byte buffer never overflows |
| Formatting.CollectDigits | kernel/string.c:223-226 | the buffer receives the numeral backwards |
| Formatting.WriteUint | kernel/string.c:221-230 | writes the padded numeral |
| Formatting.WriteConversion | kernel/string.c:250-297 | each conversion letter appends its text |
| Formatting.Snprintf | kernel/string.c:232-303 | for every well-formed format writes exactly the first min(size - 1, L) characters of the expansion of length L, then NUL, returns that count, and touches nothing at or past size; size 0 writes nothing |
| Formatting.DecimalUnlessMostNegative | kernel/string.c:259-264 | %d prints the decimal numeral if and only if the int is not INT32_MIN |
| Formatting.LongDecimalAlways | kernel/string.c:284-288 | %ld prints it for every 64-bit value |
| Formatting.Strtoul | kernel/string.c:189-205 | reads blanks, an optional 0x in base 16, then digits below the base; the value wraps at 32 bits |
| Formatting.Atoi | kernel/string.c:172-179 | reads blanks, a sign and decimal digits, with no overflow on the way if the number fits an int |
| Formatting.NumeralValue | kernel/string.c:221-230 | the numeral of a number has that number's value |
| Formatting.UnsignedRoundTrip | kernel/string.c:189-230 | strtoul recovers every 32-bit number from its numeral with any padding |
| Formatting.SignedRoundTrip | kernel/string.c:172-264 | atoi recovers every int but INT32_MIN from its padded numeral if and only if no blanks follow a minus sign |
| Formatting.PrintedUnsignedParses | kernel/string.c:189-278 | the same for what any single %u, %x, %X or %p directive prints, with every flag and width |
| Formatting.PrintedSignedParses | kernel/string.c:172-264 | the same for any single %d directive, with the exact condition on flag and width |
| FormatLaws.DigitsReadAreDigitsPrinted | kernel/string.c:195-198 | exactly the characters printed as digits are read as digits |
| FormatLaws.DigitCharIs | kernel/string.c:224 | digits above nine are letters, of the case asked for |
| FormatLaws.NoLeadingZero | kernel/string.c:225-226 | no numeral but 0 starts with the digit 0 |
| FormatLaws.PaddingIs | kernel/string.c:227-229 | padding is only pad characters, in front, and just enough |
| FormatLaws.SpecIsRead | kernel/string.c:244-248 | a flag and a width written as a numeral are read as that flag and width |
| FormatLaws.PrintsText | kernel/string.c:251-255 | %s pads with blanks even under the flag 0, and prints (null) for NULL |
| FormatLaws.PrintsCharacter | kernel/string.c:256-258 | %c prints its byte whatever the width, %% a percent sign, an unknown letter a question mark; the last two take no argument |
| FormatLaws.PrintsUnsigned | kernel/string.c:265-278 | %u, %x, %X print the padded numeral in their base and case; %p 0x and eight digits at least |
| FormatLaws.PrintsSigned | kernel/string.c:259-264 | %d prints sign and padded magnitude, for INT32_MIN that of 2^64 - 2^31 |
| FormatLaws.PrintsLong | kernel/string.c:279-290 | %lu, %lx and %ld do so for 64-bit values; another letter after l prints and takes nothing |
| FormatLaws.FormatsCompose | kernel/string.c:241-298 | two formats one after the other print their texts one after the other, each from its own arguments |
| FormatLaws.ExpandShifts | kernel/string.c:241-298 | what precedes the rest of a format does not change what the rest prints |
| FormatLaws.AtoiReads | kernel/string.c:172-179 | blanks and tabs, one sign or none, a numeral and anything else read as that number, negative exactly after a minus |
| FormatLaws.StrtoulReads | kernel/string.c:189-205 | blanks, 0x or 0X in base 16, a numeral and anything else read as that number modulo 2^32, up to the numeral's end |

## Left out

- Port I/O, interrupt controllers, timers, UART, keyboard, mouse and all assembly: hardware effects.
- `context_switch`, CR3 loads, `invlpg` and the TSS: a switch is the change of the current process and of the two states.
- 4 MB PSE pages and the mappings inherited from boot: the lookup code does not handle them.
- What follows once a directory or page table is a frame the direct map does not reach: the source stores to other memory, the model stops with the frame (`OutOfReach`, `TableOutOfReach`).
- What follows once the heap cursor passes the end of the address space: the source goes on at address 0, the model stops (`WindowFull`).
- Surface mappings: `virt_addr_kernel` is a recorded number, also where it meets the heap window or wraps; which memory it reads is a parameter of the compositor, and the framebuffer does not overlap surface pixels or the frame bitmap.
- The heap's words are one array indexed by virtual address; that this is faithful rests on the proved fact that each page has a frame of its own. Its word below 0xD0000000, read when the first object is freed, is arbitrary; the fault if it is unmapped is not modelled.
- The heap's `total` and `used` statistics, `k_realloc`, and returning large blocks to the frame allocator: unfinished in the source.
- Block contents are words, not bytes; a caller's stores are stores of words inside its block.
- x86 store buffering: the queue's reads and writes are single atomic steps in program order, as the volatile indices and compiler barriers intend; events are copied word by word.
- The FNV node id and partial hash of an event: no block contains them.
- LedgerChain.AgreeingHeadsAgreeBelow: says nothing once either walk reaches slot 0, which the code does not rehash; LedgerChain.SealedGenesisAgrees covers ledgers whose slot 0 does rehash.
- The chain invariants cover runs below the block limit; beyond it the exact behaviour of `Flush` is stated and the verification of the first recycled block is decided.
- SchedulerModel.ProportionalShare: asks that the tick counters of the period stay below 2^32 and that no process is added, removed, blocked or yields meanwhile.
- `scheduler_yield`, `kernel/process.c`, `kernel/syscall.c`, `kernel/vfs.c`: processes are objects with a fixed priority and `ticks_alloc` of at least 1.
- Precision, `%i`, `%o` and floating point do not exist in the formatter; a dangling `%`, a width of 2^31 or more, an argument of the wrong kind and a number too large for `luna_atoi` are undefined in C and excluded.
- A negative base of `luna_strtoul`: it reads no digits.
- `luna_sprintf`, `luna_atoll`, the other string helpers, arenas, FNV-1a, hex dumps, descriptor packing: they would add only easy members.
- AI core, lexer, parser, shell, font, window manager and LVGL bridge: stubs or user interface.
