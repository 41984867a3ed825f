# McpgOS kernel: memory and scheduling

A Dafny 4.11 model of the hardest parts of the McpgOS kernel, with proofs. `dafny verify dfyconfig.toml` checks all of it.

* **The liballoc heap.** `HeapModel.dfy` and `HeapCalls.dfy` describe `malloc` and the commented-out `free` on a value: the list of majors (page runs), each with its ordered minors (allocations), the best-bet hint and the two running totals. `HeapMemory.dfy` lays such a value out as doubly linked headers in memory. `LibAlloc.dfy` is the code itself, a class whose methods assign the statics and header fields in the order of the source: the search with its hint, restart and five cases, `ALIGN`, `calloc`, `realloc`, `free`. Each method is proved against the value, and the invariant `Consistent` ties headers, alignment bytes and backing pages together. `Bytes.dfy` holds `liballoc_memset` and `liballoc_memcpy`. `ALIGNMENT` and `USE_CASE4` are parameters; the shipped build is `Config(4096, false)`.
* **The memory stack below it.** `PhysicalMemory.dfy` (the packed two-bit frame map and its search hint), `VirtualMemory.dfy` (first-fit pages backed by frames), `Paging.dfy` (two-level page tables; Intel SDM Vol. 3A, section 4.3). `KernelMemory.dfy` joins heap, page allocator, frame allocator and page walk into one ownership theorem: bytes of two live allocations, reached through any two directories, are different bytes of physical memory whenever the pages they are found on belong to the heap, which is so for all of them with the intended base.
* **The scheduler.** `SchedModel.dfy` is the state machine (timer interrupts, sleep calls, creation of processes and threads); `SchedRuns.dfy` proves context isolation, the fate of sleepers and exact round robin over whole runs; `Scheduler.dfy` is the code on linked process and thread records, proved against the machine.
* **The intrusive list.** `LinkedList.dfy`. `Words.dfy` has the 32-bit arithmetic.

The code is modelled as written. Where it does not do what its documentation or evident intent says, the model keeps the code and states exactly when the promise holds:

* the setter of the frame map does not complement its mask, and `MmPmFree` shifts by 10; both are parameters of one model. `SecondFrameWasFree`, `WrittenHintKeptIff`, `ReleaseFreesSlot` and `FreeReachesFrame` say exactly what that costs. `AllocateReturnsLeast` and `HintSurvivesRuns` are about the intended code from a map in order, and the map `MmPmInitAllocator` builds never is (`InitialHintFails`);
* the initial frame map marks one slot in four, so it protects a kernel image of at most one page (`InitProtectsImage`), and frames of any larger image are handed out to back other pages (`ImageIsHandedOut`);
* `ALIGN` keeps the skipped distance in one byte: `UNALIGN` undoes it if and only if that distance is below 256, for every pointer exactly up to an alignment of 128 (`UnalignInvertsAlign`, `ByteSufficesForAlignment`; `ShippedUnalignIff` for the shipped alignment and any block address, `ShippedReallocIff` for the `realloc` of such a block);
* a request that wraps the 32-bit size arithmetic gets less than it asked for, the one that wraps to zero and is served as `malloc(1)` included, and no other does (`ResultFitsIff`, `BlockHoldsRequest`); the alignment byte of such an allocation can even lie behind it (`AlignByteCanMiss`);
* after a major is appended, the hint need not be the roomiest earlier major: CASE 5 visits the new, still empty major, which may take the hint (`HintAfterAppend` gives the exact condition, `HintCanMiss` a family of runs from the empty heap);
* `MmVmAllocate` adds to the address of the variable `VirtualAddress`, which lies in `.data` above 0xE0000000. The heap's own invariant holds for every base (`LibAlloc`), but the addresses are backed by the pages filled for them if and only if the base is 0xE0000000 (`RunIsBackedIff`, `BlockTranslatesIff`); `BytesBackedIff` says which bytes are for other bases, and as written the end of a fresh run faults (`WrittenBaseFaults`). `MmVmFree` subtracts the variable's value, and the two agree exactly when the bases do (`IndexInvertsAddress`);
* `kernel/include/MM/VirtualMemory.h` promises 0 when no pages are found, the code panics;
* `MmKernelPhysToVirt` returns the physical address. The page walk is modelled with the lookup its declaration promises; `WrittenTableIff` says exactly when the code reaches the same table, and `WrittenKernelWalk` that it does for kernel addresses;
* `MmAllocPageDirectory` leaves slots 1 to 895 as it finds them, so no statement about walks assumes anything of slots it does not use;
* a sleep ends only for a thread that puts itself to sleep for exactly one tick (`SleepWakes`, `SleepIsForEver`), and if no thread runs the dispatch loop never ends (`DispatchNeverEnds`; `HandlerReturnsIff` for the handler as a whole).

A kernel panic is a `None` or `false` result.

## Model

| member | source | states |
|---|---|---|
| LinkedList.LListGetFirst | kernel/src/Utils/LinkedList.c:21-28 | from any node of a list, its first node |
| LinkedList.LListGetLast | kernel/src/Utils/LinkedList.c:30-37 | from any node of a list, its last node |
| LinkedList.LListGet | kernel/src/Utils/LinkedList.c:3-19 | the index-th node of the whole list, or NULL past its end, wherever the search starts |
| LinkedList.LListGetSize | kernel/src/Utils/LinkedList.c:81-91 | the length of the suffix from the given node, in a 32-bit counter |
| LinkedList.LListPushFront | kernel/src/Utils/LinkedList.c:39-49 | the new node followed by the old ones is again one doubly linked list |
| LinkedList.LListPushBack | kernel/src/Utils/LinkedList.c:51-61 | the old nodes followed by the new one are again one doubly linked list |
| LinkedList.LListPopFront | kernel/src/Utils/LinkedList.c:63-70 | the first node comes off a list of at least two, the rest stay a list, the popped node keeps its stale link |
| LinkedList.LListPopBack | kernel/src/Utils/LinkedList.c:72-79 | the same at the back |
| LinkedList.PopUndoesPush | kernel/src/Utils/LinkedList.c:39-79 | popping after pushing at the same end returns the pushed node and restores every link |
| LinkedList.ListThroughNodeIsUnique | kernel/src/Utils/LinkedList.c:3-91 | a node's links determine the whole list it is on, and its place in it |
| PhysicalMemory.GetAfterSet | kernel/src/MM/PhysicalMemory.c:12-22 | over all indices: as written a set ors into its slot and zeroes the other three of the byte; with the complemented mask the map obeys the array laws |
| PhysicalMemory.AllocateMarks | kernel/src/MM/PhysicalMemory.c:35-56 | for both masks the whole outcome of an allocation: the first frame from the hint on that reads as free then reads as used, the hint is behind it, the other slots of its byte are free as written and unchanged when complemented, and every other byte is unchanged |
| PhysicalMemory.WrittenSetterLosesMarks | kernel/src/MM/PhysicalMemory.c:12-17 | as written, the frame after an allocated one in the same byte is handed out next whatever the map said of it |
| PhysicalMemory.SecondFrameWasFree | kernel/src/MM/PhysicalMemory.c:35-56 | the second of two allocations returns a frame that was free at the start, if and only if the mask is complemented, or the first ended its byte, or the neighbour was free |
| PhysicalMemory.AllocateReturnsLeast | kernel/src/MM/PhysicalMemory.c:35-56 | intended mask, hint in order: the least free frame of all is returned, exactly it is taken, the hint stays in order |
| PhysicalMemory.FreeKeepsHint | kernel/src/MM/PhysicalMemory.c:58-69 | intended mask and shift: exactly the released frame becomes free and the hint stays in order |
| PhysicalMemory.FreeReachesFrame | kernel/src/MM/PhysicalMemory.c:60 | the shift: releasing the address of a frame computes its slot always with the intended shift, and only for frame 0 as written (ReleaseFreesSlot has the mask) |
| PhysicalMemory.ReleaseFreesSlot | kernel/src/MM/PhysicalMemory.c:58-69 | for both masks the whole outcome of a release: it frees the computed slot if and only if the mask is complemented; as written the slot stays used and the other three of its byte become free; every other byte is unchanged, and the hint is the lower of itself and the slot |
| PhysicalMemory.FreeUndoesAllocate | kernel/src/MM/PhysicalMemory.c:35-69 | release after allocation restores the map bit for bit, and the same frame comes out next |
| PhysicalMemory.HintSurvivesRuns | kernel/src/MM/PhysicalMemory.c:35-69 | over every run of the intended code from a map with no free frame below the hint, none appears there |
| PhysicalMemory.WrittenHintKeptIff | kernel/src/MM/PhysicalMemory.c:35-56 | as written an allocation keeps the hint in order if and only if the first free frame from the hint on is the first of its byte |
| PhysicalMemory.InitialHintFails | kernel/src/MM/PhysicalMemory.c:24-33 | the map and hint of MmPmInitAllocator are never in order |
| PhysicalMemory.WrittenHintBreaks | kernel/src/MM/PhysicalMemory.c:12-56 | a whole map in order whose first written allocation keeps the hint and whose second breaks it, with a frame in use marked free, for every place of the hint |
| PhysicalMemory.InitProtectsImage | kernel/src/MM/PhysicalMemory.c:24-33 | the initial map marks every frame of the kernel image used if and only if the image has at most one page |
| PhysicalMemory.ImageIsHandedOut | kernel/src/MM/PhysicalMemory.c:24-56 | from the initial state, allocating over and over as written hands out a frame of the kernel image if and only if the image has at least two pages |
| PhysicalMemory.FreeIsHandedOut | kernel/src/MM/PhysicalMemory.c:35-56 | every frame that reads as free at or above the hint is handed out some time, whatever the setter does to its neighbours |
| PhysicalMemory.MarkedIsKept | kernel/src/MM/PhysicalMemory.c:35-56 | a marked first frame of a byte never is |
| PhysicalMemory.FrameAllocator.constructor | kernel/src/MM/PhysicalMemory.c:24-33 | the value of every slot after MmPmInitAllocator, and the hint |
| PhysicalMemory.FrameAllocator.MmPmAllocate | kernel/src/MM/PhysicalMemory.c:35-56 | takes the first frame at or above the hint that reads as free, which then reads as used, with exactly the other changes AllocateMarks names; panics, changing nothing, exactly when there is none |
| PhysicalMemory.FrameAllocator.MmPmFree | kernel/src/MM/PhysicalMemory.c:58-69 | runs the setter with the value for free on the slot the address maps to and lowers the hint to it; panics exactly when the slot does not read as used |
| PhysicalMemory.FrameAllocator.SetBitmapValue | kernel/src/MM/PhysicalMemory.c:12-17 | the in-place byte updates are the setter of the map |
| VirtualMemory.KernelPages.FindPages | kernel/src/MM/VirtualMemory.c:14-47 | finds the least run of that many non-present entries from entry 1 on; fails only when there is none, or when asked for none |
| VirtualMemory.KernelPages.MmVmAllocate | kernel/src/MM/VirtualMemory.c:12-58 | exactly the entries of the first fit become present, supervisor and writable, with strictly increasing frames between the old and the new hint; panics only without a run or without a frame |
| VirtualMemory.KernelPages.MmVmFree | kernel/src/MM/VirtualMemory.c:60-74 | exactly the entries of the computed run become non-present with frame 0, all their other bits kept |
| VirtualMemory.FirstFitIsUnique | kernel/src/MM/VirtualMemory.c:19-44 | the first fit is one place |
| VirtualMemory.MapRunMaps | kernel/src/MM/VirtualMemory.c:49-55 | the filling loop maps exactly its run, each page with a larger frame than the one before |
| VirtualMemory.RunTakesFrames | kernel/src/MM/VirtualMemory.c:49-55 | exactly which frames the filling loop takes, and how the frame map reads after it: those between the old hint and the new that read as free, and as written also each neighbour of a frame taken in the same byte, of which only the last of a byte stays marked |
| VirtualMemory.PanicCutsRun | kernel/src/MM/VirtualMemory.c:49-55 | a panic comes at the first page for which no frame at or above the hint reads as free; the pages before it are mapped, its entry is present with its old frame number, and nothing else changes |
| VirtualMemory.MappingKeepsExclusive | kernel/src/MM/VirtualMemory.c:49-55 | an allocation's entries are new, and every owned entry still holds a frame no other owned entry holds |
| VirtualMemory.PanicKeepsExclusive | kernel/src/MM/VirtualMemory.c:49-55 | so does an allocation cut short by a panic |
| VirtualMemory.UnmappingKeepsExclusive | kernel/src/MM/VirtualMemory.c:60-74 | so does a release |
| VirtualMemory.UnmapUndoesMap | kernel/src/MM/VirtualMemory.c:12-74 | releasing an allocation restores every present bit, so the same request is granted at the same place; the entries keep frame 0 and the flags of the allocation, and the frame map is untouched |
| VirtualMemory.RunsKeepExclusive | kernel/src/MM/VirtualMemory.c:12-74 | over every run, different owned entries hold different frames, although the setter destroys its neighbours' marks |
| VirtualMemory.IndexInvertsAddress | kernel/src/MM/VirtualMemory.c:57-64 | the index MmVmFree computes from an allocated address is the allocated one if and only if the two bases agree up to the page offset |
| VirtualMemory.RunsApart | kernel/src/MM/VirtualMemory.c:57 | runs of different pages have disjoint addresses for every base, if neither runs over the end of the address space |
| VirtualMemory.OnlyHighBasesBreak | kernel/src/MM/VirtualMemory.c:57 | no run does for a base up to 0xE0000000 |
| Paging.StoreChangesPlace | kernel/src/MM/Paging.c:45-63 | writing an address's entry changes the lookup of exactly the addresses that share the entry |
| Paging.OthersKeptIff | kernel/src/MM/Paging.c:45-63 | no write to a page's entry ever changes another page, if and only if no other directory entry names the same table |
| Paging.MapUpdatesPage | kernel/src/MM/Paging.c:206-232 | MmMap into an existing table: frame plus offset and the whole entry as asked at every address of the page, its unnamed flag bits kept, every other page and the directory unchanged |
| Paging.UnmapClearsPage | kernel/src/MM/Paging.c:234-248 | MmUnmap clears presence, frame, User and Writable of the page's entry and keeps its other flag bits, every other page and the directory unchanged |
| Paging.MapCreatesTable | kernel/src/MM/Paging.c:211-229 | MmMap that creates a table, malloc included: the directory entry has the new frame and the flags asked for; nothing changes outside its 4 MiB slot but the kernel entries malloc filled; inside, only the mapped page is as asked, the rest is what the memory held |
| Paging.MallocChangesRun | kernel/src/MM/Paging.c:217 | what malloc does to translations (MallocLeavesTables derives the tables it leaves): the run of kernel entries it filled, and nothing else |
| Paging.KernelWalk | kernel/src/MM/Paging.c:23-63 | in every directory MmAllocPageDirectory filled, whatever its other slots hold, the walk of a kernel address ends at the KernelPageTables entry of its page |
| Paging.KernelTranslationIsShared | kernel/src/MM/Paging.c:6-43 | switching between such directories never changes the translation of a kernel address |
| Paging.KernelViewKeptIff | kernel/src/MM/Paging.c:226-229 | a write keeps the kernel's view whatever it writes, if and only if it does not go to a kernel table |
| Paging.Mmu.FindEntry | kernel/src/MM/Paging.c:45-63 | the two-level lookup in the current directory |
| Paging.Mmu.MmVirtToPhys | kernel/src/MM/Paging.c:65-76 | frame plus offset, 0 without a table |
| Paging.Mmu.MmFlags | kernel/src/MM/Paging.c:176-204 | the three flag queries agree with the looked-up entry and are false without a table |
| Paging.Mmu.MmMap | kernel/src/MM/Paging.c:206-232 | the assignments are the map operations the lemmas speak about, and change exactly one entry of an existing table; when a table was missing, they work on the tables as malloc left them, and the directory entry is present with the flags asked for and the frame the returned pointer translates to |
| Paging.Mmu.MmUnmap | kernel/src/MM/Paging.c:234-248 | the assignments are the unmap operation and change exactly one entry; false and no change exactly without a table |
| Paging.Mmu.MmAllocPageDirectory | kernel/src/MM/Paging.c:13-43 | in the frame that the pointer from malloc translates to, slots 896 to 1023 and slot 0 are filled, slots 1 to 895 keep the stale memory; besides, only the kernel entries malloc filled change; the pointer is returned, NULL without any change |
| Paging.Mmu.SwitchPageDirectory | kernel/src/MM/Paging.c:6-11 | the given directory becomes current, with the physical address the old one translates it to |
| Paging.MmKernelPhysToVirt | kernel/src/MM/Paging.c:78-89 | as written: the address it was given if some kernel page is backed by its frame, 0 otherwise |
| Paging.ReturnedAddressReaches | kernel/src/MM/Paging.c:78-89 | the returned address, used as a virtual one, leads to the physical byte if and only if its page is mapped to itself: below 4 MiB always, in kernel space by its own entry, in between by the process |
| Paging.WrittenTableIff | kernel/src/MM/Paging.c:45-52 | MmGetTable as written reaches the table the entry names if and only if its frame is not 0, backs some kernel page, and is mapped to itself |
| Paging.WrittenKernelWalk | kernel/src/MM/Paging.c:45-63 | so it does for every kernel address when the kernel's tables are backed kernel pages below 4 MiB, as the boot code lays them out |
| HeapModel.AlignedPointer | kernel/src/MM/LibAlloc.c:27-40 | ALIGN's result is aligned, past the stored byte and less than one alignment further |
| HeapModel.UnalignInvertsAlign | kernel/src/MM/LibAlloc.c:27-51 | UNALIGN returns to ALIGN's argument if and only if the skipped distance is below 256, and otherwise stops 256 bytes behind it for each time the distance overflows the byte |
| HeapModel.UnalignBelieves | kernel/src/MM/LibAlloc.c:43-51 | on any byte at all UNALIGN moves the pointer by it if and only if the alignment is more than 1 and the byte is a distance by which ALIGN moves some pointer, or smaller than all of those |
| HeapModel.ByteSufficesForAlignment | kernel/src/MM/LibAlloc.c:13-51 | for a power of two it does so for every pointer if and only if the alignment is at most 128 |
| HeapModel.ShippedUnalignMisses | kernel/src/MM/LibAlloc.c:13-51 | on a page boundary the first allocation of a block is missed by 3840 bytes |
| HeapModel.ShippedUnalignIff | kernel/src/MM/LibAlloc.c:13-51 | at 4096, for a block at any address, UNALIGN finds its first allocation if and only if the address stands more than 3792 and at most 4032 bytes into its page |
| HeapModel.BlockHoldsRequest | kernel/src/MM/LibAlloc.c:195-236 | in 32-bit arithmetic a new major holds the request it was made for if and only if nothing wraps, and then no smaller one of at least 16 pages does |
| HeapModel.GapWithinFree | kernel/src/MM/LibAlloc.c:340-354 | every gap of a major is at most size minus usage, so CASE 1 rejects no major that has room |
| HeapModel.MinorsInOrder | kernel/src/MM/LibAlloc.c:457-547 | the minors of a major are address-sorted without overlap |
| HeapModel.InsertKeepsMajor | kernel/src/MM/LibAlloc.c:389-547 | placing a minor at the start of a gap that fits it keeps order, disjointness and usage |
| HeapModel.RemoveKeepsMajor | kernel/src/MM/LibAlloc.c:681-693 | so does removing one |
| HeapModel.FirstSlot | kernel/src/MM/LibAlloc.c:386-549 | a major's slot is its first gap that fits; without CASE 4 only the front gap counts |
| HeapCalls.SearchIsExhaustive | kernel/src/MM/LibAlloc.c:323-578 | the search from the hint with restart misses only when no major at all has a slot, and then the hint is the roomiest major |
| HeapCalls.SearchFindsFirst | kernel/src/MM/LibAlloc.c:323-578 | the search starts at the hint exactly if that has more room than the request and a header, goes on to the end and then from the root, and takes the first major with a slot |
| HeapCalls.SearchMovesHint | kernel/src/MM/LibAlloc.c:340-348 | the hint goes to the roomiest major the search met, the first of them, exactly if that has more room than the hint |
| HeapCalls.TooFull | kernel/src/MM/LibAlloc.c:351-382 | a major CASE 1 skips has no slot |
| HeapCalls.InsertKeepsWellFormed | kernel/src/MM/LibAlloc.c:386-549 | a placement keeps the whole heap well formed, totals included |
| HeapCalls.MallocKeepsWellFormed | kernel/src/MM/LibAlloc.c:251-594 | malloc keeps the heap well formed; it returns NULL if and only if no major had a slot and the page source failed, changing no block; a success appends at most one major and adds exactly one minor, in the first slot, and returns its aligned payload |
| HeapCalls.MallocKeepsNoneEmpty | kernel/src/MM/LibAlloc.c:251-594 | between calls no major is empty |
| HeapCalls.MallocAddsOneLive | kernel/src/MM/LibAlloc.c:386-549 | the live allocations after a success are the old ones and the new one |
| HeapCalls.ResultIsInsideMinor | kernel/src/MM/LibAlloc.c:260-266 | for a minor of the adjusted size: the result is aligned; its alignment byte is never below the payload, and inside the minor if and only if the distance to the aligned address is below the minor's size; the requested bytes are inside if and only if the size did not wrap |
| HeapCalls.AlignByteCanMiss | kernel/src/MM/LibAlloc.c:27-40 | in the shipped build a request that wraps to size 1, with its payload on a page boundary, has its alignment byte 4079 bytes past the end of its minor |
| HeapCalls.LiveMinorsApart | kernel/src/MM/LibAlloc.c:251-594 | live allocations, headers included, are disjoint from each other and from every major's header |
| HeapCalls.HintAfterAppend | kernel/src/MM/LibAlloc.c:323-373 | the exact condition under which the hint is the roomiest earlier major after an append to a non-empty list |
| HeapCalls.HintMovesOrStays | kernel/src/MM/LibAlloc.c:340-348 | the hint after an append, exactly: the new major if it was visited and roomier while empty, and otherwise where the search left it; and the free space it then names |
| HeapCalls.HintWithoutAppend | kernel/src/MM/LibAlloc.c:323-593 | without an append the hint is where the search left it |
| HeapCalls.HintCanMiss | kernel/src/MM/LibAlloc.c:554-577 | in the shipped build, from the empty heap, malloc(1) and malloc(10000) leave the hint at the smaller major, whatever two runs of kernel pages they get |
| HeapCalls.FreeKeepsWellFormed | kernel/src/MM/LibAlloc.c:681-718 | free keeps the heap well formed, and the hint and the root never name a released major |
| HeapCalls.HintAfterRelease | kernel/src/MM/LibAlloc.c:698-718 | the hint after free, exactly: lost with its major, else on the same major, unless the major freed into then has more room, compared as signed 32-bit values |
| HeapCalls.FreeTakesOneLive | kernel/src/MM/LibAlloc.c:681-693 | free takes away exactly the given allocation |
| HeapCalls.FreeUndoesMalloc | kernel/src/MM/LibAlloc.c:251-727 | freeing what malloc just made restores every major and both totals |
| HeapCalls.StepKeepsWellFormed | kernel/src/MM/LibAlloc.c:251-727 | one call of either kind keeps the heap well formed with no empty major |
| HeapCalls.RunsKeepWellFormed | kernel/src/MM/LibAlloc.c:251-727 | any interleaving of malloc and free, with or without CASE 4, does |
| HeapCalls.WithReqKeepsWellFormed | kernel/src/MM/LibAlloc.c:823-828 | shrinking in place records the new request in that minor, changes nothing else, and keeps the heap well formed |
| HeapCalls.ShippedStep | kernel/src/MM/LibAlloc.c:19-23 | without CASE 4 and free no old major ever has a slot, so CASE 3 never fires and a success takes a new major of at least 16 pages |
| HeapCalls.ShippedRuns | kernel/src/MM/LibAlloc.c:19-23 | over every such run there is one minor per major, right behind its header, as many majors as successful calls, and l_allocated grew by at least 65536 for each |
| HeapMemory.LinkMinorStores | kernel/src/MM/LibAlloc.c:389-545 | the header writes of CASE 2, 3 and 4 turn the memory image of the heap into that of the heap with the minor inserted |
| HeapMemory.LinkMajorStores | kernel/src/MM/LibAlloc.c:227-236 | the header writes of an append turn it into that of the heap with the new major |
| HeapMemory.UnlinkMinorStores | kernel/src/MM/LibAlloc.c:683-691 | free's writes around a minor turn it into that of the heap without the minor |
| HeapMemory.UnlinkMajorStores | kernel/src/MM/LibAlloc.c:698-704 | free's writes around an emptied major turn it into that of the heap without the major |
| Bytes.MemSet | kernel/src/MM/LibAlloc.c:117-124 | exactly the n bytes become the value |
| Bytes.MemCpy | kernel/src/MM/LibAlloc.c:125-148 | the word-then-byte copy equals a bytewise copy for every target that does not start inside the source, and changes nothing else |
| Bytes.CopiedInPieces | kernel/src/MM/LibAlloc.c:132-145 | copying in pieces is copying in one piece for such targets |
| LibAlloc.InsertKeepsConsistent | kernel/src/MM/LibAlloc.c:386-549 | a placement keeps links, totals, alignment bytes and backing pages consistent |
| LibAlloc.AppendKeepsConsistent | kernel/src/MM/LibAlloc.c:195-245 | appending a major on fresh first-fit pages keeps all of it consistent, for every base |
| LibAlloc.FreshPagesGrantableIff | kernel/src/MM/LibAlloc.c:215 | pages new to the heap are a major clear of all others, for every base, if and only if their addresses do not run over the end of the address space |
| LibAlloc.PagesApart | kernel/src/MM/LibAlloc.c:195-245 | no page belongs to two majors |
| LibAlloc.DropKeepsConsistent | kernel/src/MM/LibAlloc.c:698-706 | so does releasing an emptied major with its pages |
| LibAlloc.PanicKeepsConsistent | kernel/src/MM/LibAllocStubs.c:18-21 | a page source that fails half way leaves the heap consistent |
| LibAlloc.NewPayload | kernel/src/MM/LibAlloc.c:251-594 | every earlier allocation is still live after malloc and disjoint from the new one |
| LibAlloc.ResultFitsIff | kernel/src/MM/LibAlloc.c:251-594 | for every call that returns a pointer: the request and the size its header records; it has room for the bytes asked for if and only if the size did not wrap, a request that wraps to size zero and is recorded as 1 included; the alignment byte is inside the minor under the condition above |
| LibAlloc.UnalignedHeader | kernel/src/MM/LibAlloc.c:43-51 | UNALIGN from a live pointer reaches its header if the distance fits the byte, and otherwise an address strictly inside the allocation |
| LibAlloc.HeaderFromPointer | kernel/src/MM/LibAlloc.c:765-774 | so the magic check accepts a live pointer exactly when UNALIGN reached its header, and then reads its recorded request |
| LibAlloc.ShippedReallocIff | kernel/src/MM/LibAlloc.c:765-799 | in the shipped build realloc accepts the pointers of the heap if and only if the variable the page allocator counts from stands more than 3792 and at most 4032 bytes into its page |
| LibAlloc.PayloadWriteKeepsConsistent | kernel/src/MM/LibAlloc.c:742 | a write inside a payload disturbs no alignment byte of any allocation |
| LibAlloc.Liballoc.Lock | kernel/src/MM/LibAllocStubs.c:5-10 | taken only when free: no call of the heap's code waits for itself |
| LibAlloc.Liballoc.Align | kernel/src/MM/LibAlloc.c:27-40 | the aligned pointer, and one byte of memory changed to the cut distance |
| LibAlloc.Liballoc.PagesNeeded | kernel/src/MM/LibAlloc.c:200-213 | the page count of a new major, which BlockHoldsRequest shows to be the least of at least 16 that suffices |
| LibAlloc.Liballoc.AppendBlock | kernel/src/MM/LibAlloc.c:195-245 | the result is what the page source answers for the first fit: on success a new empty major behind the last one, on exactly those pages; 0 only if no run was large enough, the frames ran out or the pages begin at address 0, and then the heap is unchanged |
| LibAlloc.Liballoc.CompareWithHint | kernel/src/MM/LibAlloc.c:340-354 | bestSize is the hinted major's free space all along, and a major too small for the request has no slot |
| LibAlloc.Liballoc.InsertFirst | kernel/src/MM/LibAlloc.c:386-452 | CASE 2 and CASE 3 put the minor in the front gap |
| LibAlloc.Liballoc.InsertBetween | kernel/src/MM/LibAlloc.c:457-549 | CASE 4 puts the minor in the first later gap that fits, and does nothing only when there is none |
| LibAlloc.Liballoc.TryBlock | kernel/src/MM/LibAlloc.c:386-549 | one major is used exactly when it has a slot, at its first one |
| LibAlloc.Liballoc.Advance | kernel/src/MM/LibAlloc.c:361-381 | next major, restart from the root, or a new major, in the order of the source; it asks for pages exactly in the last case, returns 0 exactly when refused, and otherwise leaves the pages alone |
| LibAlloc.Liballoc.Begin | kernel/src/MM/LibAlloc.c:285-336 | the first major of an empty heap, or 0 when the pages for it are refused, and where the search starts; a heap that is not empty asks for no pages |
| LibAlloc.Liballoc.Search | kernel/src/MM/LibAlloc.c:285-593 | the loop terminates (new major pending, restart pending, majors left) with exactly the outcome of the specified search and placement, and asks for pages, once, exactly when no major has a slot |
| LibAlloc.Liballoc.Malloc | kernel/src/MM/LibAlloc.c:251-594 | malloc computes the specified call, keeps the invariant, changes at most the alignment byte of its result, and releases the lock on every exit; it returns NULL if and only if no major had a slot and the page source refused, and page tables and frame map are unchanged if some major had a slot, and otherwise changed exactly as the page source's answer says |
| LibAlloc.Liballoc.Calloc | kernel/src/MM/LibAlloc.c:733-745 | malloc of the 32-bit product, with the same effect on the pages, and exactly those bytes cleared |
| LibAlloc.Liballoc.Realloc | kernel/src/MM/LibAlloc.c:749-838 | size 0, NULL, refused header, shrink in place, or a larger allocation that begins with the old request's bytes; the pages change as malloc changes them where it is called and not at all otherwise; the lock is free for the inner malloc and at the end |
| LibAlloc.Liballoc.Resize | kernel/src/MM/LibAlloc.c:765-837 | the same for the pointer of a live allocation |
| LibAlloc.Liballoc.DropBlock | kernel/src/MM/LibAlloc.c:698-706 | the emptied major leaves list, root, hint and total, and exactly its pages become non-present |
| LibAlloc.Liballoc.Release | kernel/src/MM/LibAlloc.c:680-720 | the specified release; the major's pages go back if and only if it held this minor alone, and otherwise no page changes |
| LibAlloc.Liballoc.Free | kernel/src/MM/LibAlloc.c:604-727 | free computes the specified release, or nothing for NULL and refused headers, keeps the invariant and releases the lock; the pages of the major it empties, and no others, become free |
| KernelMemory.RunIsBackedIff | kernel/src/MM/VirtualMemory.c:57 | every address of a returned run is backed by the run's own pages if and only if the base is 0xE0000000 |
| KernelMemory.WrittenBaseInstance | kernel/src/MM/VirtualMemory.c:57 | an instance with the base in .data |
| KernelMemory.WrittenBaseFaults | kernel/src/MM/VirtualMemory.c:49-57 | for every base above that, a run with nothing mapped behind it ends in a byte without a page |
| KernelMemory.BlockTranslatesIff | kernel/src/MM/LibAllocStubs.c:18-21 | the bytes of a major are all found on their own pages if and only if the base is 0xE0000000 |
| KernelMemory.BytesBackedIff | kernel/src/MM/VirtualMemory.c:57 | for a base in kernel space whose run does not go over the end of the address space: which bytes of a run are backed by its own pages, those below 0xE0000000 plus the run's end |
| KernelMemory.HeapByteIsOwned | kernel/src/MM/LibAllocStubs.c:18-21 | and with that base, on present pages of the heap |
| KernelMemory.IntendedBaseOwns | kernel/src/MM/LibAlloc.c:251-594 | in particular every byte of every allocation |
| KernelMemory.BlockByteIsBacked | kernel/src/MM/LibAllocStubs.c:18-21 | every byte of a major lies on a page the allocator filled for the heap, counted from the base |
| KernelMemory.HeapBytesHaveOwnPlaces | kernel/src/MM/VirtualMemory.c:49-57 | different bytes of majors are meant for different places of physical memory, whatever the base |
| KernelMemory.HeapByteTranslates | kernel/src/MM/Paging.c:23-76 | with base 0xE0000000 the page walk finds that place in every directory MmAllocPageDirectory filled |
| KernelMemory.AllocationsOwnTheirMemory | kernel/src/MM/LibAlloc.c:251-594 | for every base: bytes of two live allocations that are found on pages of the heap, through any two directories, are different bytes of physical memory |
| KernelMemory.MallocLeavesTables | kernel/src/MM/LibAllocStubs.c:18-21 | what Liballoc.Malloc promises of the pages is the effect on the page tables that MmMap and MmAllocPageDirectory take it to have |
| SchedModel.RingIsAll | kernel/src/Scheduler/Scheduler.c:56-77 | the flattened list of all threads holds each of them once |
| SchedModel.DispatchIs | kernel/src/Scheduler/Scheduler.c:103-110 | the dispatch goes to the nearest running thread ahead in the ring, with a fresh slice |
| SchedModel.TickKeepsWellFormed | kernel/src/Scheduler/Scheduler.c:85-136 | the handler keeps lists and threads in order and leaves a running thread current |
| SchedModel.ApplyKeepsWellFormed | kernel/src/Scheduler/Scheduler.c:85-267 | so does every step |
| SchedRuns.TickResumes | kernel/src/Scheduler/Scheduler.c:96-125 | the handler never resumes a sleeping thread and leaves the resumed one 1 or 2 ticks |
| SchedRuns.RunsKeepBoundary | kernel/src/Scheduler/Scheduler.c:85-267 | over every run of ticks, sleeps and creations |
| SchedRuns.TickKeepsOthers | kernel/src/Scheduler/Scheduler.c:91-125 | the handler writes the registers of the interrupted thread only, and wakes it exactly when its counter is at one |
| SchedRuns.TickCounts | kernel/src/Scheduler/Scheduler.c:91-125 | every counter after the handler: one tick less for a thread that goes on, 2 for one that wakes or is dispatched, 0 for one whose slice is over, one less modulo 2^32 for the sleepers between the old thread and the new, and all others unchanged |
| SchedRuns.SleepWakes | kernel/src/Scheduler/Scheduler.c:167-174 | after a sleep call its thread is awake if and only if it put itself to sleep for one tick, and no other thread falls asleep or wakes |
| SchedRuns.SleepCounts | kernel/src/Scheduler/Scheduler.c:167-174 | every counter after a sleep call: that of the sleeper is the number of ticks asked for, less one modulo 2^32 exactly if it was current or the dispatch passed it, and 2 if it woke at once |
| SchedRuns.SleepersNeverWake | kernel/src/Scheduler/Scheduler.c:96-125 | a thread asleep between two steps is asleep after every run |
| SchedRuns.SleepIsForEver | kernel/src/Scheduler/Scheduler.c:167-174 | every other sleep lasts for ever |
| SchedRuns.RegistersAreKept | kernel/src/Scheduler/Scheduler.c:5-45 | over every run each thread keeps the registers it last left the processor with, or was created with |
| SchedRuns.TickSwitches | kernel/src/Scheduler/Scheduler.c:127-131 | after the handler the current directory is that of the current process if it has one, and otherwise unchanged |
| SchedRuns.ResumedContext | kernel/src/Scheduler/Scheduler.c:85-136 | context isolation: whatever the run did, the resumed thread gets back exactly those registers, in its own directory |
| SchedRuns.RunnersAreAll | kernel/src/Scheduler/Scheduler.c:56-77 | the round consists of the running threads, each once |
| SchedRuns.GapIsNextRunner | kernel/src/Scheduler/Scheduler.c:103-109 | skipping sleepers in the ring is going to the next of the runners, cyclically |
| SchedRuns.RoundRobin | kernel/src/Scheduler/Scheduler.c:96-112 | without sleeps and creations the current thread and its remaining ticks after n ticks, exactly |
| SchedRuns.ResumedExactlyTwice | kernel/src/Scheduler/Scheduler.c:54-112 | with R running threads, in any 2 R ticks each of them is resumed at exactly two |
| SchedRuns.DispatchEnds | kernel/src/Scheduler/Scheduler.c:103-109 | there is a nearest running thread ahead if and only if there is a running thread |
| SchedRuns.DispatchNeverEnds | kernel/src/Scheduler/Scheduler.c:103-109 | every iteration of the dispatch loop asks for another, for ever, if and only if no thread runs; otherwise the last one is within one round |
| SchedRuns.HandlerReturnsIff | kernel/src/Scheduler/Scheduler.c:85-136 | the handler as a whole comes back if and only if some thread runs, or the current one's counter stands at one; a sleeping current thread with any other counter is lost with the rest when no thread runs |
| SchedRuns.IterationsPassOver | kernel/src/Scheduler/Scheduler.c:103-109 | the iterations up to the first running thread are the pass the machine's dispatch makes |
| SchedRuns.DispatchCounts | kernel/src/Scheduler/Scheduler.c:107-108 | exactly the sleepers between the old and the new thread lose one tick each, modulo 2^32 |
| Scheduler.SchedSaveFrame | kernel/src/Scheduler/Scheduler.c:5-24 | the sixteen registers one by one, the stack pointer from the processor's field |
| Scheduler.SchedLoadFrame | kernel/src/Scheduler/Scheduler.c:26-45 | the inverse, register by register, leaving the other frame fields alone |
| Scheduler.NewFrame | kernel/src/Scheduler/Scheduler.c:219-254 | a new thread begins at its entry point on its stack with interrupts enabled, all general registers 0, in segments 0x08 and 0x10 in kernel mode and 0x1B and 0x23 in user mode |
| Scheduler.Scheduler.PickNextThread | kernel/src/Scheduler/Scheduler.c:56-77 | refines index + 1 mod n on the flattened list, over empty processes |
| Scheduler.Scheduler.PickNextProcess | kernel/src/Scheduler/Scheduler.c:63-75 | its loop ends at the next process that has a thread |
| Scheduler.Scheduler.PickNextTask | kernel/src/Scheduler/Scheduler.c:103-110 | the dispatch loop terminates given a running thread, and refines the dispatch of the machine |
| Scheduler.Scheduler.ChooseNext | kernel/src/Scheduler/Scheduler.c:96-125 | the running and sleeping branches, with the jump into the dispatch loop |
| Scheduler.Scheduler.SchedIrqHandler | kernel/src/Scheduler/Scheduler.c:85-136 | one handler call is one tick of the machine, and the returned frame holds the resumed thread's registers |
| Scheduler.Scheduler.SchedSleep | kernel/src/Scheduler/Scheduler.c:167-174 | one sleep step of the machine, whose counters and states SleepCounts and SleepWakes give |
| Scheduler.Scheduler.SchedCreateProcess | kernel/src/Scheduler/Scheduler.c:176-210 | a creation step of the machine: a new last process with the next id, 32 bits wide, the given directory and no threads, and no other change |
| Scheduler.Scheduler.SchedCreateThread | kernel/src/Scheduler/Scheduler.c:213-267 | a creation step of the machine: a new last thread of the process, running, with 2 ticks and the registers NewFrame describes, and no other change |
| Scheduler.Scheduler.SchedInit | kernel/src/Scheduler/Scheduler.c:149-165 | the two kernel threads with their entry points and stacks, the first of them current: a state from which all run theorems apply |

## Left out

- Header memory: liballoc's headers are records in maps from their addresses, one map for each field, with address 0 for NULL, and not bytes of the modelled memory; a magic word is modelled by the record's presence, so stale bytes that happen to spell the magic, and the overrun heuristics in `realloc`, are not captured.
- LibAlloc.Liballoc.Malloc: excludes requests whose adjusted size wraps to something other than zero or whose major would not hold them; ResultFitsIff and BlockHoldsRequest say exactly which those are and that they get too little.
- LibAlloc.Liballoc.Calloc: excludes the same products, and a product whose adjusted size is zero; without memory the bytes at address 0 are cleared, as in the source, and the invariant is then not claimed.
- LibAlloc.Liballoc.Realloc: takes NULL or the pointer of a live allocation; without memory the bytes are copied to address 0, as in the source, and the invariant is then not claimed. Its call of `free` is the shipped no-op.
- LibAlloc.Liballoc.Free: needs the two uses of VirtualAddress to agree up to the page offset, which IndexInvertsAddress shows to be necessary for releasing the right pages.
- LibAlloc.HeaderFromPointer: a magic word is the presence of a record, so stale bytes that spell the magic are not captured.
- LibAlloc.Liballoc.AppendBlock: excludes pages whose addresses run over the end of the address space, which only a base above 0xE0000000 can yield and FreshPagesGrantableIff shows to make no major; the calls above it carry the condition for the case that they have to ask for pages.
- Contents of the heap's memory are kept for each address as if it had memory of its own; RunIsBackedIff says when it does.
- LibAlloc.Liballoc.Lock: the test-and-set is atomic; preemption inside it is not modelled.
- The heap's totals are unbounded integers (64 bits wide in the source), and its warning counters and diagnostics are dropped.
- VirtualMemory.KernelPages.MmVmFree: needs the computed run inside KernelPageTables, which the source does not check.
- PhysicalMemory.FrameAllocator.MmPmFree: needs the computed index inside the map, beyond which the source's behaviour is undefined.
- PhysicalMemory.FrameAllocator.constructor: needs the kernel image's marks to fit the map.
- LinkedList: the cast between a list element and the record it is the first field of is modelled by an element that holds its record; the NULL checks are types, and popping from a list of one, a NULL access in the source, is excluded.
- Paging: directories and tables are named by the physical frame they occupy instead of by pointers into the tables they map, with the lookup `MmKernelPhysToVirt` promises; a walk through a slot that names no table is not defined.
- Paging.Mmu.MmMap: what malloc does is a parameter, the tables it left and the pointer it returned; MallocLeavesTables derives from Liballoc.Malloc what is taken of the tables; a table that does not lie in one frame, or in the frame of another table, is excluded.
- Paging.Mmu.MmAllocPageDirectory: the same.
- Paging.Mmu.FindEntry: takes the table lookup its declaration promises; WrittenTableIff says when the code agrees.
- Paging.Mmu.SwitchPageDirectory: the `cr3` write is left out.
- Scheduler.Scheduler.SchedSleep: the two assignments and the software interrupt are one step; an interrupt between them is not modelled, and neither is a sleep that leaves no running thread, for which DispatchNeverEnds shows that the handler never returns.
- Scheduler.Scheduler.SchedCreateProcess: the address of a new page directory is a parameter; memory for the records is always there, where the source panics otherwise.
- Scheduler.Scheduler.SchedCreateThread: stacks and entry points are parameters; thread names and the tick counter are dropped.
- `MmMmap`: its loops do not advance the variable they test, and it is marked as not working.
- Hardware and assembly: descriptor tables, boot paging, interrupt controller and timer ports.
- TTY, RAM disk, device and virtual file systems, driver manager, system calls, keyboard, interrupt table, `Kprintf` and the C string functions: thin tables, callbacks and simple loops next to the rest.
