# maybeOS: memory manager and line editor

This project models the two stateful cores of maybeOS, a 32-bit hobby kernel, and proves what
they keep over whole runs.

**The memory manager.** Four layers, each in the form the kernel gives it.

- `Pmm`, `PmmInit`: the packed bitmap of page frames (`pmm.c`, `mem_map.c`), an array of words
  refined to a set of frames.
- `Mmu`, `Mapping`, `Paging`, `BootPaging`: two-level IA-32 paging. `Mmu.Walk` is the walk of
  section 4.3 ("32-Bit Paging") of the Intel SDM, volume 3A, with CR4.PSE clear, over physical
  memory as an array of words; the kernel edits that memory only through addresses which
  themselves are walked. The boot tables are shared between the identity and the higher-half map,
  so one store may change two translations, and every statement says which.
- `Areas`, `AreaLists`, `Regions`, `Devices`, `VmmRuns`, `Vmm`: the list of virtual areas
  (`vmm.c`), as linked nodes refined to a sequence, and `vmalloc`, requests for a device's or
  another given address, extension and `vmalloc_free` as steps of a state machine over list,
  paging structures and bitmap together.
- `FrameSupply`, `Backing`, `VmmOutcomes`, `HeapOutcomes`, `BootOutcomes`: exactly when those calls
  succeed, page tables that are missing included, and which frames they take; `Protection`: the
  flags in the entries over whole runs.
- `KheapBlocks`, `HeapRuns`, `HeapMemory`, `Kheap`: the heap (`kheap.c`), tags as bytes in memory
  refined to chains of blocks; `HeapAreas` runs it over the area manager.

**The line editor.** `CString` (`string.c`), `TextGrid`, `TextScreen`, `Terminals`
(`VGA_driver.c`: cursors are frame buffer addresses, rows and columns recovered from them),
`LineEditor`, `LineRows` (the command buffer: 25 rows of 256 bytes and the saved line),
`LineScreen`, `LineRuns`, `RoomyScreen`, `TerminalInput` (`terminal_input_parser.c`). The screen is
repainted key by key; the main result is that it goes on showing the buffer. `ScreenRoll` says what
becomes of everything else on it, `LineRecall` what the keys bring back.

State that the kernel updates in place is a class whose methods are proved against a function of
the old state; the properties are then proved of those functions.

## Where the written line was not followed

The model takes the evident step; `AsWritten` and `KheapAsWritten` hold the line as written. The
lemmas named here say when the two agree, for all inputs, except where the last column says what
they say instead.

| line | in the model | as written |
|---|---|---|
| `vmm.c:238` | bytes are subtracted | `AsWritten.EmptyListAgreesIff` |
| `vmm.c:258` | the end of `next` | `AsWritten.FirstAllocAgreesIff`, `AsWritten.TwoAreasReadNull` |
| `vmm.c:313`, `vmm.c:319` | `next`, and the node is linked | `AsWritten.InsertAgreesIff` |
| `vmm.c:480` | the value of the PTE | `AsWritten.FreedFrameIsForeign`: up to 3.7 GiB of RAM never, beyond it for at most one page of a slot |
| `vmm.c:497-501` | the head is unlinked too | `AsWritten.RemoveAgreesIff` |
| `vmm.c:379-381` | NULL is returned | `AsWritten.VmallocAgreesIff`; what happens instead is `AsWritten.NullIsBacked`, up to as many pages as the number of the directory's frame |
| `paging.c:82-91` | without a frame nothing is entered | `AsWritten.UncheckedTableIsSoundIff`: frame 0 is entered, soundly the first time only |
| `kheap.c:83`, `kheap.c:199` | nothing is read at `end` | `KheapAsWritten.FirstFreeTagReadsAlike`, `KheapAsWritten.ReleaseWrittenKeepsIff` |
| `kheap.c:53` | the size of the range | `KheapAsWritten.NewRangeWrittenFitsIff` |
| `kheap.c:64-67` | the range is appended | `KheapAsWritten.UnlinkedIsNeverFreed`: what was allocated from it is never freed |
| `kheap.c:121` | the new range is the one updated | `KheapAsWritten.KmallocAgreesIff` |

Kept as written and stated exactly: the first fit of `pmm.c:51` inspects one frame more than it
takes; `paging.c:86` clears a new table through the virtual address equal to the physical one,
so a table whose address is not mapped is a fault; `find_first_alloc` computes in 32 bits; the
bitmap is filled by whole bytes. The runs hold lists of areas that end below 4 GiB and begin on a
page; memory areas begin at or above the window's bottom, device areas lie anywhere.

The search of `find_first_alloc` need not stay in the window. Wherever the areas lie,
`Areas.FirstAllocFitsIff` says exactly when the address it returns fits, `Areas.FirstAllocIsTop`
that none is higher then, `Areas.NullMeansNothingFits` what NULL means and `Areas.RefusedIff` when
it is returned. The kernel's own first list is an input for which the result leaves the window at
the top (`BootPaging.StartLeavesWindow`). A request of `vmalloc` in a run is a page multiple whose
search does not leave it at the bottom: `Areas.FirstAllocAboveBottomIff`. The window's top is the
size of memory (`vmm.c:516`), which is a virtual address above the bottom only under the condition
of `AsWritten.WindowIsOpenIff`.

A table that is missing is cleared at its physical address, so right after boot only frames of the
first 8 MiB can become page tables: `BootOutcomes.HeapIsBackedIff`. An extension asks for writable
memory whatever the area has (`vmm.c:448`), so its pages are as the area records iff that is
writable and not for users: `Protection.ExtendKeepsEntriesIff`. `VM_AREA_USER_ACCESSIBLE` opens no
page to users, since the directory's entries deny it: `Protection.RunGrants`.

The comment at `kheap.c:7` promises more than a fresh range can hold:
`KheapAsWritten.PromiseHoldsIff`.
The comment at `VGA_driver.c:239` says that the cursor stays in the last cell; the code scrolls,
and so does the model.

The invariants that runs start from are met: `BootPaging.BeforePagingInitPageTables` leaves the
tables on which `BootPaging.InitPmm` begins; where no usable region holds their frames
(`BootPaging.BootMapOk`) it ends in a start for the area manager, and `BootPaging.KheapStart` leads
on to the invariant of `VmmRuns`. From there `BootPaging.AcpiIsLegal` makes the first step that
`init_memory` takes and `BootPaging.HeapStart` leads to the invariant of `HeapAreas`. The
constructor of `Kheap.Heap` leads to that of the heap, and that of `TerminalInput.InputLine` to the agreement of
line and screen.

## Model

| member | source | states |
|---|---|---|
| Pmm.WithBitAddsOne | src/kernel/memory_management/pmm.c:68-82 | setting a bit by word, shift and mask adds exactly that frame to the set of used frames |
| Pmm.WithoutBitRemovesOne | src/kernel/memory_management/pmm.c:84-98 | clearing a bit removes exactly that frame |
| Pmm.FrameBitmap.FindFirstAvailPfn | src/kernel/memory_management/pmm.c:37-66 | the scan of the words computes the first fit over the set of used frames |
| Pmm.FirstFitIsFree | src/kernel/memory_management/pmm.c:37-66 | a run that is found is free and inside the bitmap |
| Pmm.FirstFitIsLeast | src/kernel/memory_management/pmm.c:41-62 | the result is i iff i is the least index with bits i..i+n clear and i+n within the bitmap |
| Pmm.FirstFitFailsIff | src/kernel/memory_management/pmm.c:44-65 | the search fails iff of any n+1 bits that begin a run inside the bitmap one is set |
| Pmm.FirstFitOfNone | src/kernel/memory_management/pmm.c:44-49 | a search for no frames returns the lowest free frame, unless that is frame 0: then the index wraps and it fails |
| FrameSupply.TakeOne | src/kernel/memory_management/pmm.c:100-113 | allocations of one frame go in ascending order through the frames that are free with the next bit clear, each taking away itself alone |
| Pmm.FirstFitIsTextbookIff | src/kernel/memory_management/pmm.c:51 | for which searches inspecting n+1 bits finds the first free run of n |
| Pmm.LoneFrameIsSkipped | src/kernel/memory_management/pmm.c:51 | a single free frame followed by a used one is not found |
| Pmm.FrameBitmap.AllocPfn | src/kernel/memory_management/pmm.c:68-82 | adds a free frame, or changes nothing and fails |
| Pmm.FrameBitmap.FreePfn | src/kernel/memory_management/pmm.c:84-98 | removes a used frame, or changes nothing and fails |
| Pmm.FrameBitmap.AllocPageframe | src/kernel/memory_management/pmm.c:100-113 | adds exactly the n previously free frames of the first fit, or changes nothing and returns NULL |
| Pmm.FrameBitmap.AllocRequestedPageframe | src/kernel/memory_management/pmm.c:119-138 | adds exactly the requested frames if they end below the last one and are all free, else changes nothing |
| Pmm.FrameBitmap.FreePageframe | src/kernel/memory_management/pmm.c:140-144 | gives one frame back, or fails |
| PmmInit.IsPageUsable | src/kernel/memory_management/mem_map.c:73-82 | the loop over the region table decides whether the page lies wholly in a usable region |
| PmmInit.UsableIff | src/kernel/memory_management/mem_map.c:73-82 | the same in plain terms, for a table without wrapping regions |
| PmmInit.InitPmm | src/kernel/memory_management/pmm.c:165-184 | the used frames once the bitmap is filled, for any memory size, table and stale bitmap contents |
| PmmInit.InitPmmExact | src/kernel/memory_management/pmm.c:165-184 | with usable bitmap frames below the last frame: free iff not a frame of the bitmap, and at or above 1 MiB and wholly inside a usable region, or behind the last whole byte and clear before |
| PmmInit.BitmapIsProtectedIff | src/kernel/memory_management/pmm.c:178-182 | the bitmap's own frames all end up used iff they end below the last frame and are all usable, or none is usable |
| PagingFormat.NumPagesNeeded | src/include/kernel/memory_management/paging.h:145 | the least number of pages that hold the size, or 0 where the sum wraps |
| PagingFormat.GetPteIdx | src/include/kernel/memory_management/paging.h:123 | shift and mask select the table index of the address |
| PagingFormat.GetPdeIdx | src/include/kernel/memory_management/paging.h:124 | the shift selects the directory index |
| PagingFormat.GetPageframeAddress | src/include/kernel/memory_management/paging.h:127 | the mask keeps the frame and drops the flags |
| PagingFormat.GetPageTabVirtualPointer | src/include/kernel/memory_management/paging.h:129 | the page inside the recursive slot that shows the table |
| PagingFormat.EntryWord | src/kernel/memory_management/paging.c:140-146 | flags ORed into an address keep its frame, and add up with an aligned one |
| Mmu.RecursiveWalk | src/kernel/memory_management/paging.c:16-37 | the address that get_pte computes walks to exactly the physical word that governs the virtual address |
| Mmu.GovInjective | src/include/kernel/memory_management/paging.h:123-131 | two pages are governed by one word only if they are x and 0xC0000000+x below 8 MiB |
| Mmu.StorePte | src/kernel/memory_management/paging.c:135-146 | storing a PTE changes the translation of the pages governed by that word and of no others |
| Mapping.ArchFlagBits | src/kernel/memory_management/paging.c:94-116 | bit by bit: present and global always, writable and user exactly as asked, nothing else |
| Mapping.MapPageSucceedsIff | src/kernel/memory_management/paging.c:121-158 | a page is mapped iff its slot has a table, or the next frame lies below 3 GiB and the page at its address is mapped; else which of these failed, and which frame is taken |
| Mapping.StorePde | src/kernel/memory_management/paging.c:46-49 | entering a table in an empty slot keeps the other slots and the pages in them |
| Mapping.EnterTable | src/kernel/memory_management/paging.c:77-92 | clearing a frame and entering a table fills that slot and no other; the slot is empty if the frame cleared is the table |
| Mapping.AllocTableOk | src/kernel/memory_management/paging.c:77-92 | a page table takes exactly one unused frame, keeps the paging structures sound and the pages of the other slots |
| Mapping.MapPageEffect | src/kernel/memory_management/paging.c:121-158 | for every frame: after map_pageframe the page translates to it, as does every page governed by the same word; every other page outside the recursive window keeps its translation; at most one frame, for a table, becomes used |
| Mapping.MapKeepsSpaceIff | src/kernel/memory_management/paging.c:121-158 | where the page has a table the paging structures stay sound iff the frame may show at each of those pages: below the kernel as itself or as used data, at the directory's page only as the directory |
| Mapping.MapKeepsSpace | src/kernel/memory_management/paging.c:121-158 | they stay sound too if a table was added and no low page is given another frame than itself or used data |
| Mapping.HighPageMayShow | src/kernel/memory_management/paging.c:121-158 | a page beyond the doubly mapped 8 MiB may show every frame |
| Paging.Machine.Load | src/kernel/memory_management/paging.c:131 | a read through a virtual address returns the word it walks to, or faults |
| Paging.Machine.Store | src/kernel/memory_management/paging.c:140 | a write through a virtual address changes the one word it walks to, or faults |
| Paging.Machine.FreeMapping | src/kernel/memory_management/paging.c:39-44 | zeroes the governing word through the recursive slot |
| Paging.Machine.ClearPage | src/kernel/memory_management/paging.c:86 | zeroes the frame that the page is mapped to, which keeps every translation if that is no paging structure |
| Paging.Machine.AllocPageTable | src/kernel/memory_management/paging.c:77-92 | a frame from the bitmap, cleared and entered: the outcome of the specification, faults and missing frames included |
| Paging.Machine.MapPageframe | src/kernel/memory_management/paging.c:121-158 | does exactly what the specification function of Mapping says, for every outcome |
| Paging.SpaceOkGivesAccess | src/kernel/memory_management/paging.c:128-136 | sound paging structures give the code access to the directory and the tables it edits |
| BootPaging.BeforePagingInitPageTables | src/boot/early_paging_setup.c:43-99 | the loops and slot stores leave the directory and the two tables as described |
| BootPaging.BootWalk | src/boot/early_paging_setup.c:56-96 | the walk of x and of 0xC0000000+x is x below 8 MiB, the recursive slot shows the directory and its tables, and nothing else is present |
| BootPaging.BootPagingOk | src/boot/early_paging_setup.c:75-96 | the boot structures satisfy the invariant of the paging layer |
| BootPaging.BootIsBacked | src/boot/early_paging_setup.c:43-99 | and are a start for the area manager in which no page is owned, if their frames are marked used |
| BootPaging.BootMapStays | src/kernel/memory_management/pmm.c:158-163 | mapping a page of the first 8 MiB at the kernel's offset once more leaves every word as it is |
| BootPaging.KernelFrameIsUsed | src/kernel/memory_management/pmm.c:165-184 | a frame below 1 MiB or in no usable region ends up used |
| BootPaging.InitPmmIsBacked | src/kernel/memory_management/pmm.c:149-184 | if no usable region holds the boot structures, what init_pmm leaves is a start for the area manager |
| BootPaging.InitPmm | src/kernel/memory_management/pmm.c:149-184 | the mappings of the bitmap's pages change nothing, the used frames are those specified, and the state is such a start |
| BootPaging.KheapStart | src/kernel/memory_management/vmm.c:355-372 | vmm_init_kheap establishes the invariant that runs of the area manager keep, unless the heap lies over the recursive window |
| BootPaging.StartAreasOkIff | src/kernel/memory_management/vmm.c:355-372 | the list it leaves is sound iff the heap does not lie there |
| BootPaging.WindowPageIsSlot | src/kernel/memory_management/paging.c:121-158 | backing a page of the recursive window makes the frame the page table of another slot |
| BootPaging.StartLeavesWindow | src/kernel/memory_management/vmm.c:231-289 | with up to 3.7 GiB of memory the first request is put between heap and recursive window, outside the window at the top |
| BootPaging.AcpiIsLegal | src/kernel/memory_management/mem_map.c:67-70 | the request for the ACPI tables that follows is a legal step if their frames were never free and the page tables on the way are reached |
| BootPaging.HeapStart | src/kernel/memory_management/kheap.c:206-210 | with the heap's first range it is the start of joint runs of heap and area manager |
| BootOutcomes.BootNeedsTable | src/boot/early_paging_setup.c:43-99 | right after boot every slot beyond the kernel's own 8 MiB is short of a table |
| BootOutcomes.HeapIsBackedIff | src/kernel/memory_management/vmm.c:355-372 | right after boot the heap is backed iff the frames suffice and those that become tables lie in the first 8 MiB |
| BootOutcomes.HeapEntriesOk | src/kernel/memory_management/vmm.c:355-372 | the entries are then as the areas record |
| Areas.HitsIff | src/kernel/memory_management/vmm.c:94-155 | exactly which areas the three-case test hits, for areas and regions up to and including 4 GiB, where ends wrap |
| Areas.HitsBelowTop | src/kernel/memory_management/vmm.c:94-155 | below 4 GiB it hits iff the area overlaps the region or begins exactly at its end |
| Areas.HitsMissesAtTop | src/kernel/memory_management/vmm.c:133-150 | the two ways to miss an overlap: an area that ends at 4 GiB, and a region that does |
| Areas.InsertKeepsDescending | src/kernel/memory_management/vmm.c:294-333 | inserting a region that meets no area keeps the list strictly descending and disjoint |
| Areas.InsertThenRemove | src/kernel/memory_management/vmm.c:496-502 | removing an inserted area gives the list back |
| Areas.RemoveKeepsDescending | src/kernel/memory_management/vmm.c:496-502 | removal keeps the order |
| Areas.ExtendKeepsDescending | src/kernel/memory_management/vmm.c:445-450 | growing upward past nothing that the test hits keeps the list descending and disjoint |
| Areas.FirstAllocIs | src/kernel/memory_management/vmm.c:231-289 | for every request: the address right below the end of the room settled for, above the head, in the first gap that is wide enough, or below the tail, where alone the bottom is looked at |
| Areas.FirstAllocFitsIff | src/kernel/memory_management/vmm.c:231-289 | with areas anywhere, an address that is returned lies in the window and clear iff that room ends in the window and reaches far enough down in it |
| Areas.FirstAllocIsTop | src/kernel/memory_management/vmm.c:231-289 | no address that fits is higher than one returned that fits |
| Areas.NullMeansNothingFits | src/kernel/memory_management/vmm.c:231-289 | NULL means that the request fits nowhere in a window above address 0 |
| Areas.RefusedIff | src/kernel/memory_management/vmm.c:231-289 | NULL iff there is no room above the head or in a gap and the subtraction below the tail leads below the bottom or to 0 |
| Areas.FirstAllocHighest | src/kernel/memory_management/vmm.c:231-289 | with all areas inside the window the highest address that fits, NULL exactly if there is none |
| Areas.FirstAllocAboveBottomIff | src/kernel/memory_management/vmm.c:231-289 | with areas anywhere the result is NULL or a clear region at or above the bottom iff the room settled for reaches no further down |
| Areas.FirstAllocIsClear | src/kernel/memory_management/vmm.c:231-289 | it is NULL, or clear and at or above the bottom, if no area lies below the window and the size does not exceed its bottom |
| Areas.RoundedFitsIff | src/kernel/memory_management/vmm.c:25-33 | where the search returned an address that fits, the recorded, page-rounded length fits there iff the size is a page multiple |
| Areas.TooLargeIsRefusedIff | src/kernel/memory_management/vmm.c:243-283 | a request larger than a window that holds all areas is refused iff neither subtraction wraps to an accepted address |
| Areas.HugeRequestWraps | src/kernel/memory_management/vmm.c:244 | a request for which it wraps |
| Areas.EmptyListIgnoresBottom | src/kernel/memory_management/vmm.c:236-239 | on the empty list the result lies in the window iff the size does not exceed it |
| AreaLists.AreaList.FindVmAreaStartingAt | src/kernel/memory_management/vmm.c:101-114 | the first node with that start, or none |
| AreaLists.AreaList.VirtRegionExistsInArea | src/kernel/memory_management/vmm.c:120-155 | some node that the test hits, or none iff there is none |
| AreaLists.AreaList.FindFirstAlloc | src/kernel/memory_management/vmm.c:231-289 | the loop over the nodes computes the first fit of the sequence |
| AreaLists.AreaList.InsertNewVmArea | src/kernel/memory_management/vmm.c:294-333 | relinking the nodes inserts into the sequence, at the head, between nodes and at the tail |
| AreaLists.AreaList.GetVmAreaPrior | src/kernel/memory_management/vmm.c:335-350 | the node before, or null for the head |
| AreaLists.AreaList.Unlink | src/kernel/memory_management/vmm.c:496-502 | the sequence without that node |
| AreaLists.AreaList.Grow | src/kernel/memory_management/vmm.c:449 | the length of one node |
| Regions.BackRegionOk | src/kernel/memory_management/vmm.c:58-88 | backing a fresh region gives each page a frame of its own that was free; owned pages keep theirs; besides only new page tables became used, though tables may be allocated between any two pages |
| Regions.FreeRunOk | src/kernel/memory_management/vmm.c:473-494 | freeing owned pages succeeds, gives back exactly their frames, unmaps exactly them, and keeps the rest |
| Regions.BackThenFree | src/kernel/memory_management/vmm.c:58-88 | backing and freeing conserves frames except for page tables, and all translations |
| Backing.RunSucceedsIff | src/kernel/memory_management/paging.c:160-170 | with frames given, a region is mapped iff single frames are left for the tables it is short of, each reached where it is cleared |
| Backing.ScatterSucceedsIff | src/kernel/memory_management/vmm.c:61-78 | the fallback succeeds iff the single frames suffice for pages and tables |
| Backing.BackRegionSucceedsIff | src/kernel/memory_management/vmm.c:58-88 | memory is backed iff the allocator has a run and frames for the tables besides, or else enough single frames for both |
| Backing.BackPresentIff | src/kernel/memory_management/vmm.c:58-88 | where every slot has its table, iff as many single frames can be taken as there are pages, however they lie |
| Backing.BackRegionPlaces | src/kernel/memory_management/vmm.c:58-88 | which frame each page gets: the run in order, else the least single frames in ascending order with each table behind the page that needs it |
| Devices.RequestTakesIff | src/kernel/memory_management/pmm.c:119-138 | after the request for a device's frames the allocator hands none of them out iff they were all free and below the last, or all in use |
| Devices.BackDeviceOk | src/kernel/memory_management/vmm.c:47-57 | every page of a device's region is mapped to itself, owned pages keep their frames and share none with a device, and besides the region's own frames only page tables became used |
| Backing.BackDeviceSucceedsIff | src/kernel/memory_management/vmm.c:47-57 | a device is mapped iff single frames are left for the tables it is short of |
| Vmm.MapContiguousPages | src/kernel/memory_management/paging.c:160-170 | the loop computes the specified run of mappings; stopped midway, it has left every page owned before as it was |
| Vmm.MapScatteredPages | src/kernel/memory_management/vmm.c:63-78 | the fallback loop computes the specified mappings, one frame a page; stopped midway, it has left every page owned before as it was |
| Vmm.IdentityMapPageframes | src/kernel/memory_management/paging.c:172-182 | the loop computes the specified run of identity mappings; stopped midway, it has left every page owned before as it was |
| Vmm.VmallocCore | src/kernel/memory_management/vmm.c:42-89 | both branches as specified: device memory mapped to itself, or contiguous frames with the fallback; after a failure every page owned before is as it was |
| Vmm.FreePages | src/kernel/memory_management/vmm.c:473-494 | the loop frees and unmaps the pages as specified and succeeds |
| Vmm.FreeOnePage | src/kernel/memory_management/vmm.c:477-493 | reads the PTE through the recursive slot, frees its frame and zeroes it |
| Vmm.KeptIsSafe | src/kernel/memory_management/vmm.c:377-456 | after a call that failed midway every listed area has the frames it had, is resident and apart from the others, and devices are where they were |
| Vmm.Manager.Vmalloc | src/kernel/memory_management/vmm.c:377-396 | performs the allocation step on list, paging structures and bitmap, or returns NULL or faults with the list unchanged and every listed area kept; nothing changes if the search finds no place; it faults iff the core does |
| Vmm.Manager.VmallocRequestVirtualAddress | src/kernel/memory_management/vmm.c:402-427 | performs the step for a given address, memory or device; a device's address that is taken is returned with nothing changed; after a failure of the core an area is listed at NULL and every other one is kept |
| Vmm.Manager.VmallocRequestMoreMemory | src/kernel/memory_management/vmm.c:435-456 | performs the extension step; the length grows once the overlap test has passed, backed or not; a failed one keeps every page that was owned |
| Vmm.Manager.VmallocFree | src/kernel/memory_management/vmm.c:461-507 | performs the free step and succeeds; device memory stays |
| VmmRuns.RequestHitsIff | src/kernel/memory_management/vmm.c:402-427 | a request maps nothing iff its region overlaps a listed area or ends where one begins |
| VmmRuns.StepKeepsInv | src/kernel/memory_management/vmm.c:377-507 | every successful call keeps the invariant over the three layers, device areas in the list included |
| VmmRuns.RunKeepsInv | src/kernel/memory_management/vmm.c:377-507 | so does every run |
| VmmRuns.RunIsSafe | src/kernel/memory_management/vmm.c:42-89 | after every run each address of each area with frames walks to a used frame below the end of RAM that is no page table, pages do not share frames, and each address of a device walks to itself, in a frame that no area has and the allocator will not hand out |
| VmmRuns.AllocThenFree | src/kernel/memory_management/vmm.c:377-507 | vmalloc followed by vmalloc_free of its result succeeds, restores the list exactly, unmaps exactly the area, and restores the bitmap but for new page tables |
| VmmOutcomes.StepSucceedsIff | src/kernel/memory_management/vmm.c:377-507 | a legal call succeeds iff it has its place in the list and the frames for its pages and the missing tables; a legal free always does |
| VmmOutcomes.AllocGains | src/kernel/memory_management/vmm.c:377-396 | a successful vmalloc lists one area more, of the length and flags asked for, and takes exactly one free frame a page, tables apart |
| VmmOutcomes.RequestGains | src/kernel/memory_management/vmm.c:402-427 | the same for a given address; nothing changes if it was taken |
| VmmOutcomes.ExtendGains | src/kernel/memory_management/vmm.c:435-456 | a successful extension lengthens one area and takes exactly one free frame a page, tables apart |
| VmmOutcomes.FreeSucceeds | src/kernel/memory_management/vmm.c:461-507 | a legal free succeeds: a device stays, else exactly the area and its frames go, its pages are unmapped and all others kept |
| Protection.MapPageEntries | src/kernel/memory_management/paging.c:121-158 | the entry stored has exactly the flags asked for, entries that share no word with it are untouched, and new directory entries have the default flags |
| Protection.BackRegionEntries | src/kernel/memory_management/vmm.c:58-88 | every page of memory that is backed has exactly the flags of the request |
| Protection.BackDeviceEntries | src/kernel/memory_management/vmm.c:47-57 | so has every page of a device |
| Protection.FreeRunEntries | src/kernel/memory_management/vmm.c:473-494 | freeing touches no other entry |
| Protection.ExtendKeepsEntriesIff | src/kernel/memory_management/vmm.c:445-450 | an extension keeps the pages as the areas record them iff the area is writable and not for users |
| Protection.StepKeepsEntries | src/kernel/memory_management/vmm.c:377-507 | every other call does, and such an extension |
| Protection.RunKeepsEntries | src/kernel/memory_management/vmm.c:377-507 | so does every run of them |
| Protection.RunGrants | src/kernel/memory_management/vmm.c:377-507 | after every such run both entries allow writing to an address of an area iff the area asks for it, and user access nowhere |
| AsWritten.FirstAllocAgreesIff | src/kernel/memory_management/vmm.c:252-276 | when the written loop returns what it should |
| AsWritten.TwoAreasReadNull | src/kernel/memory_management/vmm.c:258 | with two areas it reads through null |
| AsWritten.EmptyListAgreesIff | src/kernel/memory_management/vmm.c:236-239 | the page count subtracted agrees only for empty requests |
| AsWritten.AreaBelowWindowOpensIt | src/kernel/memory_management/vmm.c:252-276 | an area below the window lets the result leave it at the bottom: an input |
| AsWritten.InsertAgreesIff | src/kernel/memory_management/vmm.c:307-333 | the written insertion is right iff at the head or with at most one area |
| AsWritten.FreedFrameIsForeign | src/kernel/memory_management/vmm.c:480-482 | masking the address of the PTE frees a frame number that is past the bitmap up to 3.7 GiB of RAM, and with any RAM is the own frame of at most one page of a slot |
| AsWritten.RemoveAgreesIff | src/kernel/memory_management/vmm.c:335-350 | the loop finds no predecessor for the head alone, so the written removal is right iff the area is not the head |
| AsWritten.VmallocAgreesIff | src/kernel/memory_management/vmm.c:377-396 | for every size of a page or more: where the core succeeds vmalloc does what it is meant to iff the search found a place |
| AsWritten.NullIsBacked | src/kernel/memory_management/vmm.c:377-386 | if it did not, the pages from 0 on are given frames that were free, page 0 no longer shows frame 0, the list is unchanged and NULL returned |
| AsWritten.TableClearedIff | src/kernel/memory_management/paging.c:80-91 | clearing through the physical address leaves an empty table iff it is mapped to itself or the frame held no present bit |
| AsWritten.UncheckedTableIsSoundIff | src/kernel/memory_management/paging.c:80-91 | alloc_page_table as written, NULL taken for frame 0, keeps the paging structures sound iff there was a frame or frame 0 is no table yet: the first starved table is its slot's own, every later one breaks them |
| AsWritten.StarvedSlotsShare | src/kernel/memory_management/paging.c:80-91 | so of two slots filled with no frame left the second breaks them, and the pages of both are governed by the same words |
| AsWritten.WindowIsOpenIff | src/kernel/memory_management/vmm.c:509-519 | when the window of init_vmm is not empty |
| KheapBlocks.PayloadsAndTags | src/kernel/memory_management/kheap.c:22-24 | payloads and 8 bytes for each tag sum to the size of the range |
| KheapBlocks.LiveAreDisjoint | src/kernel/memory_management/kheap.c:22-48 | live blocks lie in the range and do not overlap, tags included |
| KheapBlocks.TakeKeepsLayout | src/kernel/memory_management/kheap.c:31-48 | carving a block, split or whole, keeps the chain an exact partition |
| KheapBlocks.ReleaseKeepsLayout | src/kernel/memory_management/kheap.c:192-201 | so does freeing with a forward merge |
| KheapBlocks.TakeAddsLive | src/kernel/memory_management/kheap.c:31-48 | taking adds exactly one live block, of the requested size or up to a tag more |
| KheapBlocks.ReleaseRemovesLive | src/kernel/memory_management/kheap.c:192-201 | freeing removes exactly one |
| KheapBlocks.FirstFreeOfTake | src/kernel/memory_management/kheap.c:139-142 | the first free tag moves on iff it is the one taken |
| KheapBlocks.TakeThenReleaseSplit | src/kernel/memory_management/kheap.c:37-44 | a split block that is freed restores the exact chain |
| KheapBlocks.TakeThenReleaseWhole | src/kernel/memory_management/kheap.c:45-47 | a block taken whole is restored up to merging, and exactly iff no free block follows |
| HeapMemory.BytesOf | src/include/kernel/memory_management/kheap.h:6-10 | the four bytes of a tag give its size back |
| HeapMemory.PayloadIsApart | src/kernel/memory_management/kheap.c:22-48 | writing within a payload leaves every tag of the chain alone |
| HeapMemory.InitHeapAllocEntry | src/kernel/memory_management/kheap.c:31-48 | the bytes written are the tags of the carved blocks, and nothing outside the block changes |
| HeapMemory.GotoFirstFreeTag | src/kernel/memory_management/kheap.c:72-89 | walking the tags finds the lowest free one, or NULL |
| HeapMemory.FitFrom | src/kernel/memory_management/kheap.c:126-152 | searching from the first free tag finds the lowest block that fits |
| HeapMemory.ReleaseTag | src/kernel/memory_management/kheap.c:192-201 | the bytes written are the tag of the merged block |
| HeapRuns.AllocateKeepsOk | src/kernel/memory_management/kheap.c:94-175 | an allocation, from a free block, an extended or a new range, keeps all chains partitions of disjoint ranges |
| HeapRuns.AllocateAddsLive | src/kernel/memory_management/kheap.c:94-175 | exactly one new live block, beside a new range's descriptor; all others keep address and size |
| HeapRuns.GrantedIsNew | src/kernel/memory_management/kheap.c:165-175 | the granted block overlaps no block that was live |
| HeapRuns.GrantedServesIff | src/kernel/memory_management/kheap.c:94-175 | it is large enough iff a block fits or the request is at most 8184 (extension) or 8160 bytes (new range); if so it is at most a tag too large |
| HeapRuns.AllocateGrowsIff | src/kernel/memory_management/kheap.c:94-124 | a range grows by two pages iff no range has room and it is the first that may be extended; a range is added iff none may be |
| HeapRuns.AllocateTakesLowest | src/kernel/memory_management/kheap.c:126-162 | without growth: the lowest block that fits in the first range that has one |
| HeapRuns.FreedKeepsOk | src/kernel/memory_management/kheap.c:177-204 | freeing keeps all chains partitions |
| HeapRuns.FreedRemovesLive | src/kernel/memory_management/kheap.c:177-204 | it removes exactly the live block with that payload address, if there is one |
| HeapRuns.MallocThenFree | src/kernel/memory_management/kheap.c:37-47 | allocating and freeing restores the whole heap if the block was split, else up to one merge |
| HeapRuns.RunKeepsLive | src/kernel/memory_management/kheap.c:94-204 | over every run the chains stay partitions, and a live block keeps address and size until it is freed |
| HeapAreas.AnswersAreFree | src/kernel/memory_management/kheap.c:100-116 | what the area manager grants never collides with the heap, if every range is one whole area |
| HeapAreas.ExtensionKeepsOwnedIff | src/kernel/memory_management/vmm.c:447-449 | the area grows in any case, the range if it was backed: the ranges stay whole areas iff it was |
| HeapAreas.InsertKeepsOwned | src/kernel/memory_management/kheap.c:114-116 | a new area for a new range keeps every range one whole area |
| HeapAreas.MallocKeepsInv | src/kernel/memory_management/kheap.c:94-175 | kmalloc over the area manager keeps the joint invariant and is the heap's own step with the replies the manager gives, which matter only if no range has room |
| HeapOutcomes.MallocSucceedsIff | src/kernel/memory_management/kheap.c:94-175 | kmalloc over the area manager succeeds iff a range has room, or the first extension not refused, or else the new area, can be backed |
| HeapAreas.JointStepKeepsInv | src/kernel/memory_management/kheap.c:94-204 | so does every call of heap and manager, and blocks stay live unless freed |
| HeapAreas.JointRunIsSafe | src/kernel/memory_management/kheap.c:94-204 | after every joint run each byte of the heap is resident, bytes of different pages are in different frames, and blocks stay live until freed |
| Kheap.Heap.constructor | src/kernel/memory_management/kheap.c:206-210 | init_kheap leaves one range: the descriptor's block and a free rest |
| Kheap.Heap.NewHeapRange | src/kernel/memory_management/kheap.c:50-70 | a range is carved and appended |
| Kheap.Heap.FindFirstFit | src/kernel/memory_management/kheap.c:126-162 | takes the block of the specification and keeps first_free_tag the lowest free tag |
| Kheap.Heap.GetMoreMem | src/kernel/memory_management/kheap.c:94-124 | grows the first range that may be extended, or adds one |
| Kheap.Heap.Kmalloc | src/kernel/memory_management/kheap.c:165-175 | the bytes of memory and the range fields come to show the specified heap; the address is that of the granted payload |
| Kheap.Heap.Kfree | src/kernel/memory_management/kheap.c:177-204 | likewise for freeing; foreign addresses are ignored |
| Kheap.Heap.Store | src/kernel/memory_management/kheap.c:173-174 | a client that writes into its payload, not a range's descriptor, leaves the heap as it is |
| KheapAsWritten.FirstFreeTagReadsAlike | src/kernel/memory_management/kheap.c:72-89 | whatever is read at the end of the range, the search starts at the same tag or not at all |
| KheapAsWritten.ReleaseWrittenKeepsIff | src/kernel/memory_management/kheap.c:195-201 | freeing keeps the chain iff the block is not the last, or the foreign tag reads used, or its size wraps the sum to itself |
| KheapAsWritten.NewRangeWrittenFitsIff | src/kernel/memory_management/kheap.c:50-53 | the fixed size is right iff the range has it |
| KheapAsWritten.PromiseHoldsIff | src/kernel/memory_management/kheap.c:7-9 | a promised request is served iff no new range is needed or it is 8 bytes below the promise |
| KheapAsWritten.UnlinkedIsNeverFreed | src/kernel/memory_management/kheap.c:64-67 | freeing a block of a range that was not linked does nothing |
| KheapAsWritten.KmallocAgreesIff | src/kernel/memory_management/kheap.c:94-124 | kmalloc as written serves a request iff no new range is needed; else line 121 reads through null |
| CString.Memcpy | src/include/libc/string.c:6-15 | the bytes one at a time, lowest first |
| CString.ForwardRepeats | src/include/libc/string.c:6-15 | with the destination behind the source, each byte written equals the one that distance before it in the result |
| CString.ForwardIsMoveIff | src/include/libc/string.c:6-15 | a forward copy is a move iff the destination is not behind the source or the source repeats with their distance |
| CString.Memmove | src/include/libc/string.c:17-43 | moves the bytes for every overlap, both directions of copying |
| CString.Memset | src/include/libc/string.c:189-195 | fills the bytes and no others |
| CString.Strlen | src/include/libc/string.c:197-202 | the distance to the first NUL |
| TextGrid.CellIsRecovered | src/drivers/video/VGA_driver.c:62-81 | row and column recovered by the pixel divisions are those of the cell |
| TextGrid.RowAddressIs | src/drivers/video/VGA_driver.c:62-81 | different rows and columns have different addresses |
| TextGrid.IncArithmetic | src/drivers/video/VGA_driver.c:243-271 | the address arithmetic of moving right decides exactly the end of a row and of the screen, and gives the next cell's address |
| TextGrid.DecArithmetic | src/drivers/video/VGA_driver.c:281-294 | the same for moving left |
| TextScreen.PrintShows | src/drivers/video/VGA_driver.c:86-128 | printing a character shows it whatever the cell held; clearing shows NUL |
| TextScreen.PlotShows | src/drivers/video/VGA_driver.c:140-146 | plotting and unplotting change only the background of the character they are told of; told NUL they erase |
| TextScreen.UnplotAnotherIff | src/drivers/video/VGA_driver.c:140-146 | told another character they are right iff the glyphs are the same |
| TextScreen.ScrollMovesRows | src/drivers/video/VGA_driver.c:186-199 | every row up by one, the last blank, input.start along with its text |
| TextScreen.DecUndoesIncIff | src/drivers/video/VGA_driver.c:241-297 | left undoes right iff not at the last cell, right undoes left iff not at the first |
| TextScreen.ClearLoopBlanks | src/drivers/video/VGA_driver.c:148-163 | up to the end of the screen clearing blanks exactly x cells and does not scroll |
| Terminals.Terminal.PrintChar | src/drivers/video/VGA_driver.c:86-128 | draws into the one cell at the cursor's address |
| Terminals.Terminal.ShiftTextScreenUpOneRow | src/drivers/video/VGA_driver.c:186-199 | the row copies move every row up and leave the last |
| Terminals.Terminal.IncTextCursor | src/drivers/video/VGA_driver.c:241-273 | one cell on, or a scroll; the mutual recursion with clearing ends |
| Terminals.Terminal.ClearXCells | src/drivers/video/VGA_driver.c:148-163 | clears as specified, scrolls included, and puts the cursor back |
| Terminals.Terminal.ClearXCellsAt | src/drivers/video/VGA_driver.c:165-181 | the same elsewhere |
| Terminals.Terminal.DecTextCursor | src/drivers/video/VGA_driver.c:279-297 | one cell back, or nothing at the first |
| Terminals.Terminal.PrintText | src/drivers/video/VGA_driver.c:311-317 | prints a string across rows and scrolls |
| Terminals.Terminal.MoveToRow | src/drivers/video/VGA_driver.c:213-220 | the start of a row, or of a last row made blank |
| LineEditor.StepKeepsOk | src/kernel/terminal/terminal_input_parser.c:128-381 | every key keeps cursor <= end <= 255, no NUL before the end, and non-empty history entries |
| LineEditor.KeysUndo | src/kernel/terminal/terminal_input_parser.c:128-359 | backspace undoes typing; left and right undo each other except at the ends |
| LineEditor.HistoryIsSubmitted | src/kernel/terminal/terminal_input_parser.c:187-204 | over every run of keys history entry i is the i-th most recent non-empty submitted line |
| LineEditor.BrowsingKeepsSaved | src/kernel/terminal/terminal_input_parser.c:206-209 | between leaving the line and coming back nothing overwrites the saved one |
| LineEditor.DownRestores | src/kernel/terminal/terminal_input_parser.c:266-297 | the Down that returns to the line restores what Up left, whatever was edited in between |
| LineEditor.ArrowActsTwice | src/kernel/terminal/terminal_input_parser.c:258-264 | pressing and releasing an arrow key moves twice, and by exactly one character iff there is just one to pass |
| LineRecall.TypingInserts | src/kernel/terminal/terminal_input_parser.c:128-181 | over a run of keys pressed and released the line takes what is typed at the cursor until it holds 255 characters |
| LineRecall.ErasingTakesBack | src/kernel/terminal/terminal_input_parser.c:312-359 | as many backspaces take it back; releases do nothing |
| LineRecall.DownsShow | src/kernel/terminal/terminal_input_parser.c:266-297 | after n Ups and m Downs entry n-m is shown, or the line that was left |
| LineRecall.EnterLeavesHistory | src/kernel/terminal/terminal_input_parser.c:361-376 | after Enter the line is empty, Down does nothing and Up shows the line submitted |
| LineRecall.UpRecallsSubmitted | src/kernel/terminal/terminal_input_parser.c:284-297 | after every run that ends in Enter the n-th Up shows the n-th most recent line submitted, and n Downs the empty line |
| LineRows.InsertInRow | src/kernel/terminal/terminal_input_parser.c:134-147 | memmove and the store insert into the row, NULs behind |
| LineRows.DeleteInRow | src/kernel/terminal/terminal_input_parser.c:336-341 | memcpy by one to the left deletes from the row, NULs behind |
| LineRows.EnterStored | src/kernel/terminal/terminal_input_parser.c:187-204 | moving the rows down records the line |
| LineRows.UpStored | src/kernel/terminal/terminal_input_parser.c:284-297 | the copies of Up store the entry and the saved line |
| LineRows.DownStored | src/kernel/terminal/terminal_input_parser.c:266-282 | those of Down the entry or the saved line |
| LineScreen.PrintStrKeepsClean | src/drivers/video/VGA_driver.c:311-317 | printing over the line keeps what is visible of it in place relative to its start, across scrolls |
| LineScreen.InsertAtEndAgrees | src/kernel/terminal/terminal_input_parser.c:128-181 | typing at the end keeps screen and line together, across a scroll |
| LineScreen.InsertWithinAgreesIff | src/kernel/terminal/terminal_input_parser.c:153-180 | typing within the line does iff the line still fits on the screen |
| LineScreen.DeleteAgreesIff | src/kernel/terminal/terminal_input_parser.c:312-359 | deleting does iff the cursor is not at the top left corner |
| LineScreen.LeftAgreesIff | src/kernel/terminal/terminal_input_parser.c:215-222 | moving left does iff the cursor is not held there |
| LineScreen.RightAgrees | src/kernel/terminal/terminal_input_parser.c:92-99 | moving right always does |
| LineScreen.ReplaceAgrees | src/kernel/terminal/terminal_input_parser.c:224-244 | showing another line does, even if the cursor is unplotted with the new line's character |
| LineRuns.StartAgrees | src/kernel/terminal/terminal.c:37-48 | a blank screen with its first prompt shows the empty line |
| LineRuns.EnterAgrees | src/kernel/terminal/terminal_input_parser.c:361-376 | after Enter and any output the screen shows an empty line behind a new prompt |
| LineRuns.RowsNeededReach | src/drivers/video/VGA_driver.c:201-211 | the row computed lies behind the whole input line |
| LineRuns.RowsNeededIs | src/drivers/video/VGA_driver.c:201-211 | it is the first row wholly behind the line, and as many rows further as the prompt fills |
| LineRuns.EditingFits | src/kernel/terminal/terminal_input_parser.c:255-381 | while the line with one more character fits on the screen, every key but Enter meets its condition |
| LineRuns.KeyKeepsAgreement | src/kernel/terminal/terminal_input_parser.c:255-381 | every key that meets its condition keeps the screen showing the line |
| LineRuns.RunKeepsAgreement | src/kernel/terminal/terminal_input_parser.c:438-459 | so does every run of them, Enter and output included |
| ScreenRoll.KeyKeepsAbove | src/kernel/terminal/terminal_input_parser.c:255-359 | no key but Enter changes anything above the line, which moves up exactly when the line does |
| ScreenRoll.EnterShowsRoll | src/kernel/terminal/terminal_input_parser.c:361-376 | after Enter the screen is the window on all that was there, the output from the first row behind the line, and a prompt on the row behind that, scrolled no further than needed |
| RoomyScreen.RoomyKeyFitsIff | src/kernel/terminal/terminal_input_parser.c:255-381 | with room for two rows more than the longest prompt and line, a key meets its condition iff it does not type within a line that fills the screen |
| RoomyScreen.RoomyKeyKeeps | src/kernel/terminal/terminal_input_parser.c:255-381 | and the line's first character stays on the screen |
| RoomyScreen.KeyStays | src/kernel/terminal/terminal_input_parser.c:255-359 | no key but Enter scrolls further than to have the cursor in the last row |
| RoomyScreen.RoomyRun | src/kernel/terminal/terminal_input_parser.c:438-459 | over every run without such a key, and exactly those, every condition is met and the screen shows the whole line |
| TerminalInput.InputLine.constructor | src/kernel/terminal/terminal.c:37-48 | buffer and screen agree at the start |
| TerminalInput.InputLine.PlaceCharAtCursorPos | src/kernel/terminal/terminal_input_parser.c:128-181 | inserts into the buffer in memory and repaints as specified; refuses when 255 characters are held |
| TerminalInput.InputLine.IncCursors | src/kernel/terminal/terminal_input_parser.c:92-99 | the right arrow, on buffer and screen |
| TerminalInput.InputLine.DecCursors | src/kernel/terminal/terminal_input_parser.c:215-222 | the left arrow |
| TerminalInput.InputLine.Backspace | src/kernel/terminal/terminal_input_parser.c:312-359 | both branches, on buffer and screen |
| TerminalInput.InputLine.InitInputBuffCursor | src/kernel/terminal/terminal_input_parser.c:102-110 | the end of the string in row 0 |
| TerminalInput.InputLine.ReplaceCurrCmdWithDiffCmd | src/kernel/terminal/terminal_input_parser.c:224-244 | row r in row 0 and on the screen |
| TerminalInput.InputLine.UpArrow | src/kernel/terminal/terminal_input_parser.c:284-297 | an older entry, the line saved first |
| TerminalInput.InputLine.DownArrow | src/kernel/terminal/terminal_input_parser.c:266-282 | a newer entry, or the saved line |
| TerminalInput.InputLine.LogAndResetInputBuffers | src/kernel/terminal/terminal_input_parser.c:187-204 | records the line and forgets the saved one |
| TerminalInput.InputLine.ReturnEnter | src/kernel/terminal/terminal_input_parser.c:361-376 | the whole of Enter, the shell's output given |
| TerminalInput.InputLine.MoveTextCursorToNewLineStart | src/drivers/video/VGA_driver.c:201-221 | the cursor on the row behind the line |
| TerminalInput.InputLine.HandleKeycode | src/kernel/terminal/terminal_input_parser.c:438-459 | every key that meets its condition edits memory as the value model says and leaves the screen showing the line |

## Left out

- Mmu.Walk: page size, access and dirty bits, the checks of permissions and the TLB; CR4.PSE is taken to be clear, so bit 7 of a directory entry has no meaning.
- Paging.Machine.MapPageframe: only the kernel's directory; get_pte has no branch for others.
- Paging.Machine.AllocPageTable: without a frame, or with one from 3 GiB on, the model stops where the source goes on with frame 0 or clears kernel memory; `AsWritten.UncheckedTableIsSoundIff` says what the former leads to.
- Paging.Machine.ClearPage: memset as word stores; the same for EarlyClear and for the bitmap in InitPmm.
- BootPaging.InitPmm: the bitmap lies at the kernel's offset and ends within the 8 MiB that the boot tables map; that no usable region holds the boot structures is the hypothesis `BootPaging.BootMapOk`, which init_pmm does not see to.
- BootPaging.KheapStart: a heap over the recursive window, which vmm_init_kheap does not exclude and `BootPaging.StartAreasOkIff` does; `BootPaging.WindowPageIsSlot` says what one page backed there does.
- Pmm.FrameBitmap.FreePageframe: addresses past the last frame, for which the source writes outside the bitmap.
- Pmm.FrameBitmap.FindFirstAvailPfn: the word behind the last bit is part of the bitmap's memory.
- Vmm.VmallocCore: device regions begin on a page.
- Vmm.Manager.VmallocRequestVirtualAddress: a device's frames are in use or beyond the bitmap, back no other page, and lie outside the kernel's own 8 MiB; regions end at least one page below 4 GiB.
- Vmm.Manager.Vmalloc: the storage of list nodes, which comes from the heap and may make it grow; after a failure midway the frames taken for nothing are not counted.
- AsWritten.NullIsBacked: requests that reach the page of the directory's own frame; device memory.
- Vmm.Manager.VmallocRequestMoreMemory: extensions are page multiples that end below 4 GiB, of areas that are not device memory.
- Kheap.Heap: the descriptor of a range is an object, not the payload of the block that is kept for it; the replies of the area manager are parameters, restricted as `HeapAreas.MallocKeepsInv` shows them to be; a NULL from vmalloc is not told apart; requests are below 4 GiB - 8.
- HeapAreas.JointRunIsSafe: runs stop where the manager cannot back memory; the nodes of the list are not allocated from the heap.
- Terminals.Terminal: the pixels of a cell are kept together, so the loops of print_char over pixel rows and set_pixel_RGB are one step; glyph 0 is blank; the shift copies cells only, not the margin beside them; three bytes a pixel; addresses do not wrap.
- TerminalInput.InputLine.ReturnEnter: shell_input is its output, any string, printed once; the shell, strtok and the other string functions are not modelled.
- TerminalInput.InputLine.HandleKeycode: Tab (it moves the cursor without the buffer), modifiers and scan codes; command memory is zero at the start.
- LineRuns.KeyKeepsAgreement: a line that is replaced or entered begins on the screen, as it always does on the screens of `RoomyScreen`; what the pixel division gives for a start above the screen is not modelled.
- direct_map_pageframes, init_memory, fonts, frame buffer attributes, ACPI, interrupts and port I/O: no state these results need.
