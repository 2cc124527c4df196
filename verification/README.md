# A verified model of the RJK kernel for IA-32

RJK is a small kernel for the 80386. This project models four of its parts in Dafny and proves what
they keep over all inputs and all runs.

**Memory manager** (`arch/ia32/memory.c`). Physical memory is one array of 2^30 words, and the page
tables and linear tables are words in its frames. `Machine` holds the memory and the kernel's global
variables. `FrameAllocator` models the next-fit frame allocator with its three zones and its
wrap-around, `FrameSearch` and `FrameRuns` say what it finds for one frame and for several;
`PageTables` models the recursive `set_virtual_entry`; `IdentityMap`, `IdentityBoot` and `Boot` the
boot sequence and the identity map; `HeapPaging`, `VirtualHeap` and `DemandPaging` the virtual heap,
its lists and the page-fault handler. `FlatMemory` is what a client is meant to see: isolated pages
that keep what is stored. Every operation refines one step of it, and `Clients.PerformAll` composes
them: any sequence of client requests is a run of flat memory. `Ownership` states what the invariant
means for the owners of frames. The image loader is modelled twice: `ImageLoad` has the page tables
and linear entries of its first pass, `Elf` the bytes of both passes. `ElfFile` is the file format as
its writer sees it. `Basics` holds what several components share.

**Threads** (`arch/ia32/thread.c`, `arch/ia32/entry.S`). `Threads` holds the thread blocks as objects
linked in a circle, and `Ring` the same circle as a sequence, with runs of creations, switches and
status changes. `Context` models the pushes and pops of the switch code on a stack.

**Locks and timers** (`arch/ia32/rwlock.c`, `arch/ia32/timer.c`). `RwLock` models the packed word and
the protocol of any number of threads over it; `Timers` the linked list of timers, and `TimerQueue`
its runs.

**Printing and calendar** (`arch/ia32/printf.c`, `arch/ia32/time.c`). `Numbers` models the digit
printer with its buffer, `Format` the format interpreter, `Calendar` the day count. `Directives` says
what each directive writes, from its characters and argument words alone.

The frame allocator and the search for the next thread never return when they find nothing: the code
loops for ever. The methods report this as `found` or `ok` being false, or as the outcome `Spins`.
Sections under a spinlock are single steps. The predicate `HeapOk` is the invariant of the memory
manager; `Boot.Setup` establishes it, and the requests of `Clients` keep it, among them the loading of
an image and stores to its pages, so it covers the states in which module code runs. The operations that may break it
say exactly when they keep it (`VirtualHeap.Allocate`, `DemandPaging.HandlePageFault`).

Where the code falls short of what its names or comments promise, the code is modelled as it is, and
a lemma says exactly when it does what it should:

- Freed frames never come back: over any run of requests no frame but frame 0 becomes available
  (`Clients.PerformAll`). The call that should make frame f available rewrites the entry of frame 0,
  which has that effect exactly when f is 0 (`Ownership.ScrapReclaimsIff`).
- A run of several frames is contiguous unless, before the search, the way from the cursor to the end
  of the zone has no such run and the last available frames before the wrap make one up together with
  the first ones of the zone (`FrameRuns.RunContiguousIff`, `FrameRuns.StraddlingRun`). Only the
  last page of a run is marked as taken (`FrameRuns.OnlyLastPageMarked`), so the others can become page
  tables while the run is being mapped (`IdentityMap.LinearPageAllocate`).
- ZONE_DMA is meant for frames below 16 MiB. Its search goes on to the end of the 4 MiB table that
  begins there; `FrameSearch.DmaAboveIff` says exactly when the frame found lies above, also when the
  search falls back to ZONE_KERNEL, and `Boot.FirstDma` gives a state of boot in which it does.
- When `mem_upper` is a multiple of 4 MiB one frame too many is offered (`Boot.OfferedExactly`). At
  256 MiB that frame has the first page of the heap as its identity page, so memory must end below
  256 MiB (`Ownership.IdentityBelowHeapIff`).
- A call of `set_virtual_entry` that creates tables takes the frames that the predicate `Takes` tells
  from page tables, linear tables and cursors before the call. It leaves the last table without its
  identity entry exactly when that frame is not the page to be mapped and lies in a slot that had no
  table before the call (`PageTables.SetVirtualEntry`, `PageTables.WipedIff`). The first mapping of boot
  does so when the tables end below 16 MiB and two frames there are free (`Boot.FirstMapping`);
  `IdentityBoot.VirtualSetup` says which tables are without one when boot ends.
- `read_elf` shares the pages below the heap with the identity map: mapping page g to itself overwrites
  a page of an image exactly when it is page g or has the number of a frame that is taken for a page
  table (`ImageLoad.OverwrittenIff`, `ImageLoad.RunMappedIff`).
- `kmemory_virtual_page_allocate` keeps the invariant of the heap exactly when it is asked for a page
  and either a free range fits or `virtual_address` does not wrap (`VirtualHeap.Allocate`). A count of
  0 assigns every page up to the end of the address space.
- `handle_page_fault` tests a bit that mapped entries have too. The processor does not fault on them;
  if it did, the page would lose its contents, and below the heap its identity mapping
  (`DemandPaging.HandlePageFault`).
- `thread_list` is never assigned, so a thread can only be suspended, resumed, killed or put to sleep
  by itself, and a suspended thread never runs again (`Ring.StoppedNeverRuns`). A thread that
  dies asleep is picked once more when its time has come (`Ring.DueSleeperPicked`).
- Writers that overlap can be inside together, or beside a reader (`RwLock.TwoWriters`,
  `RwLock.ReaderBesideWriter`); `RwLock.BreaksExclusionIff` says which steps do it. The writer count is
  right exactly up to 2^15 - 1 writers: the next one carries into bit 31, the spinlock of the word
  (`RwLock.StepKeepsCountsIff`, `RwLock.EnterFields`).
- The comment in `printf.c` lists a field width and a flag for padding with spaces. The width is read
  and not used (`Format.WidthIgnored`), and the flag has no effect: numbers that are not padded with
  zeros are padded with spaces to their precision.
- The date arithmetic counts minutes in 32 bits and seconds in 64. It is exact from 1970-01-01 00:00:00
  to 10136-02-16 04:15:59, so on a clock of decimal digits from 1970 on (`Calendar.ExactIff`,
  `Calendar.ExactOnClockIff`); before 1970 it is not (`Calendar.BeforeEpochFails`).

## Model

| member | source | states |
|---|---|---|
| FrameAllocator.SearchTable | arch/ia32/memory.c:551-574 | The inner loop finds the first position at which a run of `count` available frames is complete, with the run counter carried in, or shows that this table completes none. |
| FrameAllocator.SearchPass | arch/ia32/memory.c:548-578 | The same for one pass over tables, skipping absent ones. |
| FrameAllocator.SearchZone | arch/ia32/memory.c:543-588 | Both passes over a zone find the first complete run in the order of the search, or there is none. |
| FrameAllocator.GetFreePages | arch/ia32/memory.c:526-594 | The first zone that has a run is used, the run is the first in search order, exactly one linear entry is rewritten and exactly that zone's cursor moves; on failure nothing changes and no zone has a run. |
| FrameSearch.GetFreePage | arch/ia32/memory.c:526-594 | A search for one frame gives exactly the pick that memory, zones and cursors before it tell: the first available frame in the order of the first zone that has one, with the cursor behind it. It is never frame 0 and only its linear entry changes; from ZONE_NORMAL the search fails only when every frame but frame 0 is taken. |
| FrameSearch.SingleFrameSound | arch/ia32/memory.c:554-565 | A successful single-frame search keeps the zones sound, takes a frame that was available and marks it allocated, keeps every other linear entry and puts the cursor just behind the frame. |
| FrameSearch.AllocatesPicked | arch/ia32/memory.c:534-588 | Whatever zone and position a search for one frame succeeds at, it is what the pick told before it. |
| FrameSearch.SingleFrameComplete | arch/ia32/memory.c:534-591 | The search from ZONE_NORMAL fails if and only if no frame from 1 on is available, across cursors, wrap-around and zone fallback. |
| FrameSearch.SingleDmaComplete | arch/ia32/memory.c:534-591 | The search for one frame from ZONE_DMA fails if and only if no frame that its two zones visit is available. |
| FrameSearch.DmaLimitLow | arch/ia32/memory.c:114-124 | That limit is at least 16 MiB, or the end of memory. |
| FrameSearch.DmaAboveIff | arch/ia32/memory.c:534-588 | The frame that a search from ZONE_DMA gives lies at 16 MiB or above if and only if, in the zone that it comes from, ZONE_DMA or ZONE_KERNEL, no frame from the cursor to 16 MiB was available, and one from there to the end of the sweep was or none of the second sweep below 16 MiB was. |
| FrameSearch.DmaBeyond | arch/ia32/memory.c:541-588 | With the DMA cursor at 16 MiB the search gives the frame that begins there, when it is available. |
| FrameSearch.FrameIsVisited | arch/ia32/memory.c:534-588 | The three zones together visit every frame of the present tables but frame 0, wherever the cursors stand. |
| FrameRuns.RunContiguousIff | arch/ia32/memory.c:554-588 | A run that is found is a block of consecutive frames if and only if it is not the case, before the search, that the frames before the wrap hold no such run and the last of them and the first of the zone make one up. |
| FrameRuns.StraddlingRun | arch/ia32/memory.c:580-587 | A search for two frames whose answer is not contiguous: the last frame before the wrap and the first of the zone. |
| FrameRuns.WillWrap | arch/ia32/memory.c:534-588 | Whether the run that a search will find goes across the wrap of its zone is decided without taking anything. |
| FrameRuns.RunSound | arch/ia32/memory.c:534-591 | A search whose run does not go across the wrap takes a block of available frames, none of them frame 0, rewrites the linear entry of the last one alone and keeps the zones sound. |
| FrameRuns.CursorBehind | arch/ia32/memory.c:560-566 | A search leaves the cursor of its zone behind the run it gives, and every other cursor where it was. |
| FrameRuns.OneFrameNeverWraps | arch/ia32/memory.c:580-587 | A search for one frame never goes across the wrap. |
| FrameRuns.NoStraddle | arch/ia32/memory.c:550-588 | When the last frame before the wrap is not available no run straddles it. |
| FrameRuns.OnlyLastPageMarked | arch/ia32/memory.c:560-564 | Of a contiguous run every page was available and all but the last still are afterwards. |
| FrameRuns.PagesBelowCursor | arch/ia32/memory.c:543-565 | A search that does not wrap takes pages between the old cursor and the new one. |
| FrameRuns.ForwardRunsDisjoint | arch/ia32/memory.c:543-565 | Over any sequence of searches of a zone that do not wrap, no page of an earlier run is handed out again. |
| PageTables.SetLinearEntry | arch/ia32/memory.c:522-524 | Exactly the linear entry of the frame is rewritten. |
| PageTables.AdoptFrame | arch/ia32/memory.c:508-510 | The frame taken for a new table is the one the pick tells before the call, was free, and is in the directory slot before the recursion. |
| PageTables.SealTable | arch/ia32/memory.c:512-516 | After the recursion the new table's linear entry names its frame, and the table is cleared. |
| PageTables.SetVirtualEntry | arch/ia32/memory.c:504-520 | The call ends (the empty directory slots shrink), installs the entry, keeps the invariant, and changes nothing else in tables that existed but the identity entries of the tables it created. It takes the frames told by the state before it, fails exactly when that state tells none, and wipes an identity entry if and only if that state tells so. |
| PageTables.TakesUnique | arch/ia32/memory.c:504-520 | The frames that a call will take are determined by page tables, linear tables and cursors before it. |
| PageTables.WipedIff | arch/ia32/memory.c:504-520 | A table that the call created is left without its identity entry if and only if, before the call, the last of the frames it was to take was not the page to be mapped and lay in a slot without a table. |
| PageTables.FirstFrameDecides | arch/ia32/memory.c:504-520 | When the first pick lies in the slot of the page to be mapped, or in one with a table, it is the only frame taken, and its identity entry is wiped if and only if it lies in that slot and is not the page. |
| PageTables.TwoFramesWipe | arch/ia32/memory.c:504-520 | With the two frames at the cursor available and in one slot without a table, a call for a page of another such slot takes both and wipes the identity entry of the second. |
| PageTables.EmptySlotsShrink | arch/ia32/memory.c:504-520 | Adopting a table makes the set of empty directory slots strictly smaller, the measure of the recursion. |
| IdentityMap.MapIdentity | arch/ia32/memory.c:200-204 | A page is mapped to itself and its linear entry names it, also when the call takes that very frame for a page table; the tables it creates and which of them keep their identity entry are those told before the call; the heap is untouched, no frame becomes available and the invariant is kept. |
| IdentityMap.ClaimFrame | arch/ia32/memory.c:171-171 | A frame taken for the kernel's own use leaves the paging invariant and the heap intact. |
| IdentityMap.ClaimRun | arch/ia32/memory.c:171-171 | A run of frames is taken: all were available and lie in the sweeps of the zone searched, the zones before it had no such run, and only the last frame is out of the allocator's hands afterwards. |
| IdentityMap.LinearPageAllocate | arch/ia32/memory.c:163-186 | A run of any length that does not go across the wrap: every frame was available and is mapped to its own address, and is then reserved unless it has become a page table meanwhile; the heap is untouched. With the DMA flag the frames lie in the sweeps of ZONE_DMA or ZONE_KERNEL, without it in those of ZONE_NORMAL unless that has no such run. It fails only when the zones searched have no such run or no frame is left; for one frame without the flag, only when no frame is left. |
| IdentityMap.LinearPageMap | arch/ia32/memory.c:192-211 | Every page of the range is mapped to itself although mapping one may create tables, even in frames of the range; the heap is untouched. |
| IdentityBoot.MapAtBoot | arch/ia32/memory.c:147-148 | One step of the boot loops maps a claimed frame to itself and keeps the progress of the loops. |
| IdentityBoot.VirtualSetup | arch/ia32/memory.c:138-161 | Every frame claimed at entry is mapped to itself at exit, although the tables the loops read are changed by the tables they create. A table created meanwhile is mapped to itself at exit if and only if no call left it without its identity entry after the loops had passed it; which calls do is told from the states before them. |
| Boot.FillTable | arch/ia32/memory.c:95-101 | The inner loop marks as available exactly the frames of the table that begin below the end of memory, or at it for a table boundary. |
| Boot.BuildTables | arch/ia32/memory.c:81-102 | Directory and tables stand one behind the other, and their entries offer the frames as `Boot.OfferedExactly` says. |
| Boot.LinearBlock | arch/ia32/memory.c:663-679 | Exactly the frames that the byte range touches get a linear entry that names them. |
| Boot.TouchesIff | arch/ia32/memory.c:663-679 | The frames of a region are those that hold one of its bytes. |
| Boot.BlockTables | arch/ia32/memory.c:104-112 | The frames of the directory and of all tables are claimed, and no others. |
| Boot.TakeDma | arch/ia32/memory.c:126-130 | At boot the DMA search returns the frames at its cursor. |
| Boot.ClaimAtBoot | arch/ia32/memory.c:126-132 | Frames are taken, cleared and claimed, and the linear tables offer exactly the remaining ones. |
| Boot.FirstClaims | arch/ia32/memory.c:126-133 | Page directory and heap block are the three frames behind the tables (or from 1 MiB on), and the page directory is empty. |
| Boot.LinearSetup | arch/ia32/memory.c:75-136 | The whole of kmemory_linear_setup: where everything lies, which frames are offered, where the three cursors stand, an empty heap. |
| Boot.ZonesAtBoot | arch/ia32/memory.c:114-124 | The three cursors and the first frame claimed, told from the first byte behind the tables. |
| Boot.BootAvailable | arch/ia32/memory.c:95-132 | After boot a frame is available if and only if it is offered, lies outside the kernel's structures and has not been claimed. |
| Boot.OfferedExactly | arch/ia32/memory.c:95-101 | A frame of the present tables is offered if and only if it begins below the end of memory, or exactly at it when that is a multiple of 4 MiB. |
| Boot.BootRooted | arch/ia32/memory.c:75-136 | The state kmemory_linear_setup leaves is sound: every table in a frame of its own, every offered frame unused. |
| Boot.BlockRegions | arch/ia32/init.c:61-75 | Claiming the kernel image and the boot modules keeps the boot state sound and claims exactly those frames besides. |
| Boot.ClaimAll | arch/ia32/init.c:59-75 | Before the identity map is made, exactly the kernel's structures and the frames of the regions are claimed, and exactly the other offered frames are available. |
| Boot.FirstMapping | arch/ia32/memory.c:138-148 | In every boot with memory above 16 MiB + 8 KiB, tables below 16 MiB and no region at the two frames there, the first mapping takes both, and the second, a page table, is left without its identity entry. |
| Boot.FirstDma | arch/ia32/memory.c:126-130 | In every boot in which the kernel's own frames end at 16 MiB, the next DMA search gives the frame at 16 MiB. |
| Boot.Setup | arch/ia32/init.c:59-77 | The boot sequence establishes the heap invariant with no live page, and maps the kernel's structures and all claimed regions to themselves; it fails only when no frame is left. |
| HeapPaging.MakeHeapTable | arch/ia32/memory.c:269-281 | A table for heap pages is created in a fresh frame; no heap page's entry changes. |
| HeapPaging.AssignPages | arch/ia32/memory.c:260-296 | The two-index walk gives exactly the pages of the range the requested entry, once each, or, for a count of 0 or one that is too large, all pages to the end of the address space; it creates tables as needed and changes no other heap page. |
| HeapPaging.ReleasePage | arch/ia32/memory.c:352-358 | One page is emptied; no other heap page changes. |
| HeapPaging.ReleasePages | arch/ia32/memory.c:343-370 | The walk empties exactly the pages of the range. |
| VirtualHeap.FindFit | arch/ia32/memory.c:225-236 | The walk stops at the first free range that is large enough, with the pointer that leads to it, or at the end when there is none. |
| VirtualHeap.FindUsed | arch/ia32/memory.c:323-335 | The walk stops at the first used range that begins at the page, or at the end when there is none. |
| VirtualHeap.ClaimRecordPage | arch/ia32/memory.c:238-250 | A page for records is taken and cleared without touching the heap. |
| VirtualHeap.TakeRecord | arch/ia32/memory.c:225-256 | The first free range that fits is unlinked, or a new record is cut at the end of the heap, which moves past range and guard page in 32 bits. |
| VirtualHeap.PushRecord | arch/ia32/memory.c:300-301 | The record is put on the used list; the two lists again partition all records. |
| VirtualHeap.Allocate | arch/ia32/memory.c:217-314 | For any count: the heap invariant is kept if and only if a page is asked for and a free range fits or virtual_address does not wrap; allocation is first fit; the pages of the range become assigned, and for a count of 0 all pages from the returned one on; it fails only when no frame is left. |
| VirtualHeap.Unallocate | arch/ia32/memory.c:316-384 | The heap invariant is kept; the range is found if and only if it is in use; exactly its pages are emptied and it joins the free list. |
| VirtualHeap.ReturnRecord | arch/ia32/memory.c:328-375 | The record is unlinked and put on the free list; the two lists again partition all records. |
| VirtualHeap.ReuseShape | arch/ia32/memory.c:229-231 | Reusing a free range keeps all ranges disjoint with a guard page behind each. |
| VirtualHeap.ReturnShape | arch/ia32/memory.c:374-375 | Freeing a range keeps all ranges disjoint with a guard page behind each. |
| VirtualHeap.ExtendShape | arch/ia32/memory.c:252-256 | A new range at the end keeps all ranges disjoint with a guard page behind each. |
| DemandPaging.HandlePageFault | arch/ia32/memory.c:773-808 | For any page: a fault on a page whose entry has the tested bit maps a fresh frame, zeroed if asked, and changes no other page; the invariant is kept if and only if the page lies in the heap; a fault on any other page kills and changes nothing; it spins only when no frame is left. |
| DemandPaging.Touch | arch/ia32/memory.c:773-808 | An access to a live page ends at a frame that holds what the page is known to hold, with at most one fault. |
| DemandPaging.LoadWord | arch/ia32/memory.c:773-808 | A client's load is a step of flat memory; it fails only on a page that is not live or when no frame is left. |
| DemandPaging.StoreWord | arch/ia32/memory.c:773-808 | A client's store is a step of flat memory; it fails only on a page that is not live or when no frame is left. |
| DemandPaging.AllocatePages | arch/ia32/memory.c:217-314 | kmemory_virtual_page_allocate is a step of flat memory (fresh pages that were not live, all others unchanged) whenever it keeps the heap invariant, and it does so if and only if there is room. |
| DemandPaging.UnallocatePages | arch/ia32/memory.c:316-384 | kmemory_virtual_page_unallocate is a step of flat memory: exactly one allocation's pages die, all others are unchanged. |
| DemandPaging.AllocationStep | arch/ia32/memory.c:217-314 | The page-table effect of an allocation is the flat step, for any lists, ranges and flags. |
| DemandPaging.ReleaseStep | arch/ia32/memory.c:341-375 | The page-table effect of a release is the flat step. |
| FlatMemory.RunKeepsWord | arch/ia32/memory.c:217-384 | Over any run a word keeps its value until it is stored to or its page is freed. |
| FlatMemory.LoadReturnsLastStore | arch/ia32/memory.c:217-384 | Over any run a load returns the word of the last store to that place. |
| FlatMemory.ZeroPageReadsZero | arch/ia32/memory.c:264-264 | Over any run a page allocated with the zero flag reads as zeros until it is stored to. |
| FlatMemory.LoadsAgree | arch/ia32/memory.c:791-796 | Over any run two loads of an unchanged word agree, also of a page that was never zeroed. |
| FlatMemory.OtherPagesKept | arch/ia32/memory.c:217-384 | No operation changes a page it is not about. |
| FlatMemory.RunKeepsBlocked | arch/ia32/memory.c:217-384 | Over any run the live pages are exactly the pages of the allocations, which never overlap. |
| Clients.AllocateLinear | arch/ia32/memory.c:163-186 | Taking a run of identity-mapped frames keeps the heap invariant and is invisible to clients of the heap, and no frame becomes available; from which zones the frames come and what a failure means is stated with and without the DMA flag. |
| Clients.MapLinear | arch/ia32/memory.c:192-211 | Mapping identity pages keeps the heap invariant and is invisible to clients of the heap, and no frame becomes available; it fails only when no frame is left. |
| Clients.CanMap | arch/ia32/memory.c:192-211 | Decides whether a range can be mapped: every page has a linear entry, and its frame may still be handed out or is mapped to itself. |
| Clients.MappableIff | arch/ia32/memory.c:192-211 | A page can be mapped if and only if its frame is available, or has a linear entry and is mapped to itself. |
| Clients.LoadImage | arch/ia32/memory.c:720-736 | Mapping a segment of an image keeps the heap invariant and is invisible to clients of the heap, and no frame becomes available; what a failure means is stated. |
| Clients.StoreImage | arch/ia32/memory.c:461-482 | A store to a page writes one word of its frame exactly if the page is mapped as that of an image; it keeps the heap invariant and is invisible to clients of the heap. |
| Clients.Perform | arch/ia32/memory.c:163-384 | Every request keeps the heap invariant and is the step of flat memory that its reply stands for: a live page is loaded or stored, an allocation that begins at the page is freed, and only the other accesses kill or do nothing; no frame but frame 0 becomes available; what can stop it is named. |
| Clients.Survived | arch/ia32/memory.c:217-384 | As long as one frame is available, no load, store or release ends a run, and no allocation that finds room. |
| Clients.PerformAll | arch/ia32/memory.c:163-384 | Any sequence of requests, the loading of images and stores to them included, is a run of flat memory in which each event is what request and reply mean in the state before it, up to the first request that the kernel does not survive; over the whole run no frame but frame 0 becomes available. |
| Clients.LoadRepliesLastStore | arch/ia32/memory.c:163-384 | In any such run a load of a live page is answered with the word last stored there. |
| Clients.AllocationServed | arch/ia32/memory.c:217-314 | An allocation that is served gives a range of pages that were not live and are afterwards, each fresh, and leaves all other pages as they were. |
| Clients.ReleaseServed | arch/ia32/memory.c:316-384 | A release ends the allocation that begins at the page and all its pages, and no other page; without such an allocation it changes nothing. |
| Clients.DeadAccess | arch/ia32/memory.c:773-808 | An access to a page that is not live has no effect and no answer. |
| Ownership.ReverseMap | arch/ia32/memory.c:504-524 | After boot and any client requests, images loaded or not, the linear entry of a mapped frame names the page that maps it. |
| Ownership.PresentOpen | arch/ia32/memory.c:504-520 | Every present page, of the heap, an image or the identity map, is writable and open to user code. |
| Ownership.SingleOwner | arch/ia32/memory.c:504-594 | After boot and any client requests, images loaded or not, no two present pages share a frame. |
| Ownership.HeapFramePrivate | arch/ia32/memory.c:791-796 | The frame of a heap page is no table or directory, is not frame 0 and cannot be handed out again. |
| Ownership.GuardPageEmpty | arch/ia32/memory.c:256-256 | Behind every range, free or used, lies a page without an entry. |
| Ownership.BelowHeapInvisible | arch/ia32/memory.c:720-736 | Changes to pages below the heap are no event of flat memory. |
| Ownership.IdentityMappingInvisible | arch/ia32/memory.c:163-211 | Changes that keep the heap entries are no event of flat memory. |
| Ownership.ScrapReclaimsIff | arch/ia32/memory.c:354-356 | The call meant to make a frame available does so if and only if it is frame 0. |
| Ownership.IdentityBelowHeapIff | arch/ia32/memory.c:135-135 | All offered frames have their identity pages below the heap if and only if memory ends below 256 MiB. |
| Ownership.HeapEndMovesIff | arch/ia32/memory.c:256-256 | virtual_address grows past the new range if and only if the 32-bit sum does not wrap. |
| ImageLoad.MapImagePage | arch/ia32/memory.c:729-735 | One step of the loop: the page is mapped to its frame, the linear entry names the page, the frame is cleared; the tables created are those told before the step, and other pages change only as their identity pages. A frame that has become a page table meanwhile is found out. |
| ImageLoad.MapImage | arch/ia32/memory.c:720-736 | For any segment below the heap whose run does not go across the wrap: every page gets a frame of its own, full of zeros, that was available; it is mapped to it unless a later step has taken the frame of its number for a page table; the invariant is kept and nothing else changes. It fails only when there is no such run or no frame is left. |
| ImageLoad.RunMappedIff | arch/ia32/memory.c:729-735 | The segment is translated to its run of frames, as `Elf.Space` takes it, if and only if no frame with the number of one of its pages is taken for a page table after that page was mapped. |
| ImageLoad.OverwrittenIff | arch/ia32/memory.c:200-204 | Mapping page g to itself overwrites a page of an image if and only if it is page g or the state before tells that the call takes the frame of its number for a page table; the frame it had keeps its contents. |
| Elf.Space.ReadElf | arch/ia32/memory.c:685-771 | An image is accepted if and only if its file header is; then every loadable segment holds its bytes of the file and zeros around them, the image itself and all other pages and frames are untouched; a rejected image changes nothing. |
| Elf.Space.Check | arch/ia32/memory.c:692-705 | The condition on the file header, field by field in little-endian order. |
| ElfFile.FileHeaderRead | arch/ia32/memory.c:692-747 | For every file laid out field by field: read_elf takes it if and only if its identification, type, machine, version, entry point and header offset are as demanded, and finds the entry point, the number of program headers and their places. |
| ElfFile.ProgramHeaderRead | arch/ia32/include/elf32.h:49-58 | For every program header laid out field by field, the type, offset, virtual address, file size and memory size that read_elf sees are those of the writer. |
| ElfFile.HeaderThere | arch/ia32/memory.c:711-716 | Program header i is found at the offset and entry size of the file header, and taken for a segment if and only if its type is 1. |
| ElfFile.EveryFileBegins | arch/ia32/include/elf32.h:32-47 | Every file of 52 bytes or more begins with the header of some fields. |
| ElfFile.EveryHeaderLies | arch/ia32/include/elf32.h:49-58 | Any 32 bytes are a program header of some fields. |
| Elf.Space.MapSegments | arch/ia32/memory.c:711-745 | The first pass maps and clears every segment without disturbing the image or another segment. |
| Elf.Space.FillSegments | arch/ia32/memory.c:747-761 | The second pass fills every segment and keeps the ones filled and the ones still to be filled. |
| Elf.Space.MapRun | arch/ia32/memory.c:729-735 | The pages are mapped to consecutive frames that read as zeros; no other page or frame changes. |
| Elf.Space.Copy | arch/ia32/memory.c:461-482 | The copy in words, a half word and a byte moves exactly `size` bytes, across page boundaries, and leaves the rest of the frames as it was. |
| Elf.Space.LoadedByte | arch/ia32/memory.c:716-760 | Byte k of a loaded segment's memory is byte k of its part of the file below p_filesz, and zero from there to p_memsz. |
| ElfFile.SegmentLoaded | arch/ia32/memory.c:711-760 | In the fields of the writer: byte k from p_vaddr of a loaded segment is byte p_offset + k of the file below p_filesz and zero from there to p_memsz. |
| Elf.CountExact | arch/ia32/memory.c:717-719 | The 32-bit page count is the number of pages of the segment modulo 2^20, also for a segment that runs past the end of the address space. |
| Elf.CountTouched | arch/ia32/memory.c:717-719 | The pages of a segment with memory are exactly those that hold one of its bytes. |
| Elf.EmptyCountIff | arch/ia32/memory.c:717-720 | A segment without memory has page count 0 if and only if it begins on a page boundary, page 0 included. |
| Threads.Scheduler.Setup | arch/ia32/thread.c:41-54 | The first thread is a cycle of one with tid 1. |
| Threads.Scheduler.Create | arch/ia32/thread.c:56-125 | The new thread, alive, awake and not suspended, comes right behind the current one, and all others keep their order; when memory is short nothing changes. |
| Threads.Scheduler.Link | arch/ia32/thread.c:95-109 | Relinking keeps one cycle through all threads, each once, and gives the next tid. |
| Threads.Scheduler.FindThread | arch/ia32/thread.c:332-346 | The current thread, or else one on the list behind thread_list; null exactly when neither has the tid. |
| Threads.Scheduler.Suspend | arch/ia32/thread.c:180-188 | Only the current thread can be suspended; its suspend bit is set, and its other bits, its other fields and all other threads are as before. |
| Threads.Scheduler.Resume | arch/ia32/thread.c:197-205 | Only the current thread can be resumed; its suspend bit is cleared, and its other bits, its other fields and all other threads are as before. |
| Threads.Scheduler.Kill | arch/ia32/thread.c:163-171 | Only the current thread can be killed; its alive bit is cleared, and its other bits, its other fields and all other threads are as before. |
| Threads.Scheduler.Sleep | arch/ia32/thread.c:137-150 | Only the current thread can be put to sleep; its sleep bit is set and its deadline is now plus the delay, and everything else is as before. |
| Threads.Scheduler.Schedule | arch/ia32/thread.c:268-296 | The search ends if and only if some thread is eligible, and returns the first eligible one behind the current thread, woken if it was a due sleeper; otherwise it has come round with nothing changed. |
| Threads.Scheduler.Switch | arch/ia32/thread.c:298-318 | A switch is possible if and only if some thread is alive and neither asleep nor suspended, or asleep with a deadline that has come; then the stack pointer is saved, the first such thread behind the current one becomes current and its stack pointer is returned; the cycle is kept. |
| Threads.TidsDistinctIff | arch/ia32/thread.c:107-107 | Tids are 1 to the counter, each given once, if and only if the 32-bit counter has not gone round. |
| Ring.SearchEndsIff | arch/ia32/thread.c:275-293 | The search of schedule_thread ends if and only if some thread is eligible. |
| Ring.SearchStopsIff | arch/ia32/thread.c:275-293 | In terms of status bits and deadlines: the search ends if and only if some thread, the current one included, is alive and neither asleep nor suspended, or asleep with a deadline that has come. |
| Ring.ChoiceIs | arch/ia32/thread.c:275-293 | The thread at which the search ends is the first such one behind the current thread. |
| Ring.PickedIs | arch/ia32/thread.c:268-318 | The whole ring after a switch: which thread is first, that it is awake, where its deadline is cleared, whose stack pointer is saved, and that all others follow in their order. |
| Ring.NextRuns | arch/ia32/thread.c:288-292 | A live thread right behind the current one that is neither asleep nor suspended is the next to run, unchanged. |
| Ring.LoneThreadRuns | arch/ia32/thread.c:288-292 | A lone live thread goes on running. |
| Ring.PositionTracks | arch/ia32/thread.c:104-105 | Over any run the tracked position names the same thread. |
| Ring.BoundedWaiting | arch/ia32/thread.c:268-318 | Over any run a thread that stays eligible runs within as many switches as its distance from the current thread plus the threads created meanwhile. |
| Ring.Parked | arch/ia32/thread.c:275-293 | Over any run a waiting thread that no switch finds eligible keeps its block and never runs. |
| Ring.SleepsUntilDeadline | arch/ia32/thread.c:276-287 | Over any run a sleeper is never run before its deadline. |
| Ring.DeadOrSuspendedForever | arch/ia32/thread.c:288-292 | Over any run a thread that died or was suspended while not asleep never runs again. |
| Ring.StoppedNeverRuns | arch/ia32/thread.c:163-192 | Over any run: a thread that dies or is suspended while it is current, followed by the switch that both calls make, is never picked again. |
| Ring.DueSleeperPicked | arch/ia32/thread.c:276-284 | A due sleeper behind the current thread is picked whatever its other status bits are; it is awake then and its deadline is cleared. |
| Clock.NotAfterIff | arch/ia32/thread.c:277-280 | As long as nanoseconds are less than a second, the comparison of deadlines is that of the times in nanoseconds. |
| Clock.PlusExactIff | arch/ia32/thread.c:143-146 | A deadline is the present time plus the delay, in nanoseconds, if and only if neither half of the sum overflows. |
| Context.Processor.SaveRegs | arch/ia32/entry.S:11-21 | The eight pushes leave the registers in this order, with the stack pointer before the last push on top. |
| Context.Processor.RestoreRegs | arch/ia32/entry.S:23-33 | The eight pops take the registers from the frame that the top word points to. |
| Context.Processor.EnterSwitch | arch/ia32/entry.S:104-109 | From the interrupt to thread_switch: the interrupted registers can be decoded from the stack, and only its 14 words are written. |
| Context.Processor.LeaveSwitch | arch/ia32/entry.S:110-113 | From thread_switch to iret: the processor has the registers that the frame at the new stack pointer decodes to. |
| Context.Processor.ThreadSwitch | arch/ia32/entry.S:104-113 | The whole switch together with the scheduler: the interrupted registers are saved in a frame, the picked thread's frame is loaded, no other word changes; without an eligible thread the saved registers stand and the search does not end. |
| Context.Processor.LayFrame | arch/ia32/thread.c:80-93 | The frame kthread_create lays decodes to function(data) with interrupts enabled, returning to kthread_kill_current. |
| Context.StepKeepsStacks | arch/ia32/thread.c:65-72 | Over every step the stacks of all threads stay disjoint. |
| Context.WaitingThread | arch/ia32/thread.c:298-318 | Over any run a thread that waits keeps its stack pointer and every word of its stack. |
| Context.ResumesExactly | arch/ia32/entry.S:104-113 | Over any run a thread that is switched out goes on with exactly the registers it was switched out with. |
| Context.StartsAtFunction | arch/ia32/thread.c:78-93 | Over any run a new thread's first switch enters its function with interrupts enabled, the other registers zero, and its argument and the return address of kthread_kill_current on its stack. |
| RwLock.Lock.ReadTry | arch/ia32/rwlock.c:15-19 | A reader enters if and only if bit 15 is clear and the count has room; otherwise the word is unchanged. |
| RwLock.Lock.ReadUnlock | arch/ia32/rwlock.c:29-35 | One reader fewer is counted, bit 15 and the writer count are kept, and the spinlock bit is free again. |
| RwLock.Lock.WriteRequest | arch/ia32/rwlock.c:37-56 | Bit 15 is set; a writer enters at once if and only if no reader is inside and, when the bit was set before, no writer either. |
| RwLock.Lock.WriteTry | arch/ia32/rwlock.c:43-56 | A later check: the writer enters if and only if no reader is inside and, when it is not the one that asked first, no writer either. |
| RwLock.Lock.WriteUnlock | arch/ia32/rwlock.c:61-73 | One writer fewer is counted, the reader count is kept, bit 15 stays exactly while writers are left, and the spinlock bit is free again. |
| RwLock.RunCounts | arch/ia32/rwlock.c:11-73 | Over any run of any number of threads with fewer than 2^15 writers inside, bits 0 to 14 count the readers inside, bits 16 to 30 the writers, and between sections bit 31 is clear. |
| RwLock.StepKeepsCountsIff | arch/ia32/rwlock.c:11-73 | A section keeps the counts if and only if there are fewer than 2^15 writers inside after it. |
| RwLock.EnterFields | arch/ia32/rwlock.c:56-58 | A writer that enters is counted and the section keeps its spinlock, bit 31, if and only if fewer than 2^15 - 1 writers were inside; otherwise the carry frees the spinlock and leaves a count of 0. |
| RwLock.LeaveFields | arch/ia32/rwlock.c:66-72 | A writer that leaves is no longer counted, readers are kept, bit 15 goes with the last writer, and the section keeps its spinlock. |
| RwLock.ReaderEntersIff | arch/ia32/rwlock.c:15-19 | In the protocol: a reader gets in if and only if bit 15 is clear and fewer than 2^15 - 1 readers are inside. |
| RwLock.WriterEntersIff | arch/ia32/rwlock.c:42-56 | In the protocol: a writer gets in if and only if no reader is inside and either it asked first or no writer is inside. |
| RwLock.WriterEntersWithoutReaders | arch/ia32/rwlock.c:42-56 | A writer enters only when no reader is inside. |
| RwLock.WantedKeepsReadersOut | arch/ia32/rwlock.c:15-19 | While bit 15 is set no reader gets in. |
| RwLock.SerialRunExcludes | arch/ia32/rwlock.c:11-73 | Over any run in which writers do not overlap, bit 15 says whether there is a writer, and a writer inside excludes all readers. |
| RwLock.ReadersDrain | arch/ia32/rwlock.c:37-56 | Over any such run the number of readers inside never rises while a writer waits or is inside. |
| RwLock.BreaksExclusionIff | arch/ia32/rwlock.c:42-70 | A step breaks exclusion if and only if, with a writer inside, a reader or a writer comes while bit 15 is clear, or the writer that asked first makes its check. |
| RwLock.ReaderBesideWriter | arch/ia32/rwlock.c:42-70 | A run with two overlapping writers that ends with a reader beside a writer. |
| RwLock.TwoWriters | arch/ia32/rwlock.c:42-56 | A run that ends with two writers inside. |
| Timers.TimerList.Add | arch/ia32/timer.c:30-70 | ktimer_add puts the timer before the first that is not earlier and counts it, or changes nothing when no page can be had. |
| Timers.TimerList.FindPlace | arch/ia32/timer.c:44-54 | The walk stops between the last earlier timer and the first that is not. |
| Timers.TimerList.TakeDue | arch/ia32/timer.c:81-105 | One iteration of timer_thread takes the head if it is due, and leaves the list alone otherwise. |
| TimerQueue.AddedSorted | arch/ia32/timer.c:47-54 | Adding keeps the list sorted by second and nanosecond. |
| TimerQueue.NewestFirst | arch/ia32/timer.c:48-49 | Among equal deadlines the newest timer comes first. |
| TimerQueue.RunConserves | arch/ia32/timer.c:30-109 | Over any run the list is sorted, and every timer added is pending or has been taken, exactly once. |
| TimerQueue.TakesLeast | arch/ia32/timer.c:87-105 | Over any run an iteration takes a least pending deadline, and only once it has come; it takes nothing only when nothing is due. |
| TimerQueue.FiredAfter | arch/ia32/timer.c:75-109 | Over any run a due timer is taken within as many iterations as there are timers before it and timers added meanwhile, plus one. |
| Calendar.ClosedFormCounts | arch/ia32/time.c:51-56 | For every valid date and time the closed form equals the seconds counted along the calendar by year and month lengths. |
| Calendar.SecondsIncrease | arch/ia32/time.c:56-56 | A later time counts more seconds. |
| Calendar.SecondsInjective | arch/ia32/time.c:56-56 | No two times count the same seconds. |
| Calendar.ExactIff | arch/ia32/time.c:56-56 | What read_rtc stores is exact if and only if the time lies between 1970-01-01 00:00:00 and 10136-02-16 04:15:59. |
| Calendar.ExactOnClockIff | arch/ia32/time.c:56-56 | For a year of at most four digits it is exact if and only if the year is 1970 or later. |
| Calendar.BeforeEpochFails | arch/ia32/time.c:56-56 | 1969-12-31 23:59:00 is stored as 257698037700. |
| Calendar.ReadRtc | arch/ia32/time.c:22-58 | With the wraps of kuint arithmetic and the last step in kint64, read_rtc stores the calendar's count of minutes modulo 2^32, times 60, plus the second, for every valid time shown. |
| Calendar.BcdRoundTrip | arch/ia32/time.c:11-14 | bcd_to_binary inverts the encoding of two decimal digits, and is injective on them. |
| Calendar.ClockShows | arch/ia32/time.c:34-47 | A clock that shows a valid date and time up to the year 9999, two decimal digits to a byte with the tens in the upper half, is read as that date and time. |
| Numbers.Output.WriteNumber | arch/ia32/printf.c:311-374 | The text of the number is appended, and at most 66 of the 68 cells of the buffer are used. |
| Numbers.Output.ReadOut | arch/ia32/printf.c:371-373 | The read-out stops at the terminator in cell 0 and writes the cells backwards. |
| Numbers.PutDigits | arch/ia32/printf.c:339-342 | The digit loop fills the buffer with the number's digits, least significant first. |
| Numbers.PutPadding | arch/ia32/printf.c:344-348 | A padding loop adds what is missing and leaves a negative counter, so that a second one adds nothing. |
| Numbers.RoundTripIff | arch/ia32/printf.c:311-374 | For every number, flags and precision the text read back in its base is the argument, -2^31 included, if and only if the magnitude fits the length modifier. |
| Numbers.RenderedWidth | arch/ia32/printf.c:317-369 | Digits and padding number the larger of the precision modulo 64 and the digits needed; sign and prefix come on top. |
| Numbers.DigitIs | arch/ia32/printf.c:339-342 | The character with weight base^k is the one of the digit table for the last digit of the number's quotient by base^k, in each base and case. |
| Numbers.DigitsNeeded | arch/ia32/printf.c:339-342 | There are exactly as many digits as the number needs. |
| Numbers.WordDigits | arch/ia32/printf.c:339-342 | A 32-bit number has at most 11 digits in any of the three bases. |
| Format.Vsprintf | arch/ia32/printf.c:133-297 | The format is read up to its terminator and no further, the text is the rendering of its directives, and the result is its length. |
| Format.WriteNext | arch/ia32/printf.c:150-292 | A % is expanded if a complete directive follows, and otherwise reported with the character that ends it. |
| Format.ScanDirective | arch/ia32/printf.c:150-237 | The loops over flags, width, precision and length end where the grammar says and find its values. |
| Directives.SpelledParsed | arch/ia32/printf.c:150-239 | A directive of any flags, width, precision, length modifier and specifier is read as it is spelled; a character that ends no directive is found. |
| Format.ScanDigits | arch/ia32/printf.c:180-187 | The digit loop gives the value of the digits modulo 2^32. |
| Format.WriteDirective | arch/ia32/printf.c:239-285 | The switch writes the expansion of the directive and takes its argument words. |
| Directives.IntegerWritten | arch/ia32/printf.c:263-280 | %d %i %u %o %x %X with any flags, width, precision and length but ll: the digits of the next argument word in base 16 for x and X, 8 for o and 10 otherwise, capitals for X, two's complement with a minus sign for d and i, magnitudes cut to 8 or 16 bits for hh and h, 0x or 0X for #, filled up with zeros or spaces to the precision modulo 64. |
| Directives.PointerWritten | arch/ia32/printf.c:255-262 | %p writes (nil) for 0 and otherwise 0x and the digits of the word in base 16. |
| Directives.CharacterWritten | arch/ia32/printf.c:243-246 | %c writes the low byte of the next word. |
| Directives.StringWritten | arch/ia32/printf.c:247-254 | %s writes the string at the next word, or (null). |
| Directives.FloatWritten | arch/ia32/printf.c:281-284 | %f and %F take three words and hand on the low half of the precision. |
| Directives.LongLongWritten | arch/ia32/printf.c:275-276 | An integer with ll writes nothing and takes two words. |
| Directives.PercentWritten | arch/ia32/printf.c:240-242 | %% writes a percent sign and takes no word. |
| Directives.OtherReported | arch/ia32/printf.c:288-291 | Any other character, or the end of the format, gives the error text with that character, and nothing more is written. |
| Directives.IntegerReadsBack | arch/ia32/printf.c:311-342 | The digits read back as the argument, unsigned or in two's complement with the minus sign. |
| Format.RenderConcat | arch/ia32/printf.c:140-292 | Two formats in sequence write what they write one after the other, if the first one's directives are complete. |
| Format.ErrorEnds | arch/ia32/printf.c:288-291 | Behind an incomplete directive the error text is the last thing written. |
| Format.DoubledRenders | arch/ia32/printf.c:240-242 | Any text with every % doubled is a format that writes the text. |
| Format.WidthIgnored | arch/ia32/printf.c:168-190 | A width between flags and the rest of a directive changes nothing. |
| Format.PaddingBits | arch/ia32/printf.c:188-213 | The six bits of the combined word that padding uses are those of the precision. |

## Left out

- IdentityMap.LinearPageAllocate: requires a run that does not go across the wrap of its zone; a run that does is no block of frames, and the code would map frames it has not searched. `FrameRuns.WillWrap` decides it.
- Clients.AllocateLinear: requires the same as `IdentityMap.LinearPageAllocate`, and a run of requests ends at a run of frames that goes across a wrap.
- IdentityMap.MapIdentity: requires that the frame is in the linear tables and does not hold a page of the heap or of an image, which the code does silently.
- IdentityMap.LinearPageMap: requires the same as `IdentityMap.MapIdentity` of every frame of the range; the code writes the linear entry of an address beyond memory through an absent table.
- Clients.MapLinear: requires the same as `IdentityMap.LinearPageMap`; `Clients.CanMap` decides it, and a run of requests ends at one that is not mappable.
- ImageLoad.MapImage: requires an image below the heap and a run that does not go across the wrap; when a frame of the run has become a page table meanwhile, the clearing of that table is not followed. The same goes for `ImageLoad.MapImagePage` and `Clients.LoadImage`.
- Clients.StoreImage: a store to a page below the heap that belongs to no image goes to the kernel's own memory and is not followed.
- VirtualHeap.Allocate: a heap whose invariant a call without room has broken is not followed further; a run of requests ends there. The same goes for `DemandPaging.AllocatePages`.
- DemandPaging.HandlePageFault: which faults the processor raises is not part of its contract; `DemandPaging.Touch` faults on pages that are not present.
- DemandPaging.LoadWord: takes heap addresses; what lies below the heap, the kernel's own memory and images, is not part of flat memory. The same goes for `DemandPaging.StoreWord`.
- Boot.LinearSetup: requires memory from 1 MiB to below 256 MiB and that kernel, tables and the first three claimed frames lie in it without overlap; when the tables end beyond 16 MiB the code takes the frames from 1 MiB on, which are usually the kernel's own.
- Boot.Setup: requires the same as `Boot.LinearSetup`.
- Elf.Space.ReadElf: takes the frames that get_free_pages returns as a parameter and the page tables as the translation they give; `ImageLoad` says when the page tables give that translation. Overlapping segments, runs that share frames and the wrap of an image's own addresses are not modelled.
- Elf.Space.MapSegments: takes the runs of frames as a parameter; the page tables that set_virtual_entry may create and the linear entries are not modelled here but in `ImageLoad`. The same goes for `Elf.Space.MapRun`.
- Elf.Space.MapRun: see `Elf.Space.MapSegments`.
- Elf.EmptyCountIff: a page count of 0, for which get_free_pages searches for ever, is stated and not pursued.
- Threads.Scheduler.Kill: the switch that follows when the thread is the current one is the separate step `Threads.Scheduler.Switch`; what a write through the null pointer of an unknown tid does is not modelled, here and in the other status operations.
- Context.Processor.ThreadSwitch: the words that the compiled body of thread_switch itself pushes below its return address are not modelled; floating-point registers are left out.
- RwLock.RunCounts: beyond 2^15 - 1 writers the spinlock is lost inside a section and the protocol of serialised sections ends; what sections do that overlap is not modelled. Every section begins with the spinlock free.
- RwLock.Lock.ReadTry: the retry loop around the sections, with its yield, is the repetition of steps in the protocol; fairness is not claimed.
- Timers.TimerList.TakeDue: calling the function of a timer, and its page being given back, are not modelled.
- Calendar.ReadRtc: the clock registers are a parameter; polling the update flag and dates before year 1 are left out.
- Format.Vsprintf: the length of the caller's buffer, which the code does not know, is not modelled.
- The text of %f and %F is a parameter of the model: `write_number_kfloat` is floating point. 64-bit integers print nothing, as `write_number_kuint64` is empty.
- The records of the virtual heap are elements of one growing pool that link to each other by index, where the code links structures inside record pages by pointer; reading a list through a wrong pointer is not modelled.
- The thread status word is a record of its three bits. Priority, key, stack pointer and stack size fields of a thread, which nothing else reads, are left out.
- Word arithmetic is on integers with the wrap written out, and bit fields are divisions and remainders.
- The TLB, the way the kernel reaches table frames through the identity map, and faults of the kernel itself: table writes are writes to physical memory.
- Spinlocks, interrupt masks, port input and output, video memory, the interrupt table and the segment tables.
- `kmutex_*`, `kcondition_*` and `katomic_compare*`: their assembly does not implement the contracts their names suggest.
- Stubs that do nothing (`kmemory_linear_page_unallocate`, `ktimer_remove`), byte swaps, module lookup, `print_page_table`, and the clock interrupt's counters.
