# Sustcore kernel model

A Dafny model of the memory stack and of several self-contained algorithms and protocols of the
Sustcore kernel, with proofs of what they keep in every reachable state.  `dafny verify
dfyconfig.toml` checks all of it.

| files | what they model |
|---|---|
| BuddyBlocks, BuddyLists, BuddyPools, BuddyAllocator, BuddyLoss | the buddy page allocator: sixteen address-sorted lists of descriptors with prev/next links, bitmap pools of descriptors that are expanded with frames of the allocator itself, split on allocation and merge on free; runs that lose a frame or halt |
| Gfp | frame reference counts over the buddy allocator and the run-coalescing put |
| CowState, CowMemory | memory payloads: lazy pages, copy-on-write clones, page-chunked read and write, resize and destruction |
| VmaList, PageTable | virtual memory areas, range removal, the fault handlers and the copy-on-write clone of an address space |
| Elf | PT_LOAD segments, end to end from program header to the byte in the frame a fault maps |
| ExpireHeap, ExpireQueue | the timer heap with slots, free chain and generations, and the alarm set from it |
| Calendar | civil date arithmetic and formatted time |
| IcGraph | Kahn's algorithm over edge chains |
| Regions | the memory-region normaliser |
| Slub | the slab object allocator |
| RingBuffer, BlockRequests | the block request queue as a protocol of producers, worker and drainers |
| Endpoint | endpoint IPC |
| Queues | queues of identifiers, shared by the models above |

Frames are page numbers, so an address is 4096 times the model's number where the source keeps
byte addresses.  Pointers are numbers.  An operation that can halt the kernel at an assertion has
an explicit halting outcome.

What the proofs found, beyond the promised laws:

- `get_free_page` loses the frames it has just taken when the pool expansion after the allocation
  fails: the caller gets an error and the frames belong to nobody (kernel/mem/buddy.cpp:347-350).
  `LoseFrame` reaches that state, and the contract of `GetFreePage` says exactly when it happens.
- `put_page` and `get_free_page` can trip the assertion that a descriptor was found
  (kernel/mem/buddy.cpp:388-389): a free when 508 isolated frames use up the static pool
  (`HaltOnPut`), an allocation when the unused end of its block cannot be put back (`HaltOnGet`).
  `PutPage` and `GetFreePage` have the exact conditions.  Pool expansion and splitting never do.
- The VMA list does not always stay sorted: an empty VMA is exempt from the overlap check, and a
  front cut of the VMA around it moves past it.  `NotAlwaysSorted` is an input, `RemoveVmaRange` has
  the exact condition, and by `EmptyStrands` it takes an empty VMA.
- Shrinking a payload and growing it again shows the old bytes of the last partial page, since only
  whole pages are released.  `RegrownFresh` says which bytes, `OldBytesShow` is an input.
- A segment whose page prefix exceeds its file offset shows wrong bytes (`WrongByte`), and one
  whose size wraps is accepted and not mapped whole (`WrappingIsEmpty`, `LoadWrapping`).  `ImageLaw` and
  `CoverageLaw` are the exact conditions.
- `locate` accepts an empty VMA that begins at the faulting address, so a segment without bytes
  hides the first address of a segment loaded after it (`LoadHidden`).  `FaultLaw` is the exact
  condition.
- `days_to_ymd` narrows to a 32-bit int, so the last 719468 days of the int range are wrong.
  `IntDays` and `LastDaysWrap` give the exact range.
- Overlapping regions of one status turn into BAD_MEMORY when a region of another status sorts
  between them.  `OverlapGoesBad` is an input, `SameStatusLaw` the exact condition.
- Frames above the tracked range are freed at the first put even if others hold them
  (`DropFreesHeld`, `CloneLosesFrame`), so sharing is proved for tracked frames.

## Model

| member | source | states |
|---|---|---|
| `BuddyBlocks.Complete` | kernel/mem/buddy.cpp:261-282 | completeness: a size-aligned run of 2^k frames that are all free lies inside one free block of order at least k |
| `BuddyBlocks.NoRunNoBlock` | kernel/mem/buddy.cpp:427-457 | some free block has order at least k exactly when some aligned run of 2^k frames is free |
| `BuddyBlocks.Canonical` | kernel/mem/buddy.cpp:375-425 | two reachable block sets over the same free frames are the same set of blocks: the free lists carry no history |
| `BuddyBlocks.Maximal` | kernel/mem/buddy.cpp:375-425 | a block is on a free list exactly when it is a maximal aligned free run |
| `BuddyBlocks.Nested` | kernel/mem/buddy.cpp:261-282 | size-aligned blocks are nested or disjoint |
| `BuddyBlocks.BuddyPair` | kernel/mem/buddy.cpp:261-282 | flipping one address bit gives the other half of the aligned block of the next order |
| `BuddyBlocks.AlignedIsMultiple` | kernel/mem/buddy.h:104-106 | the recursive alignment used by the proofs is divisibility by the block size |
| `BuddyBlocks.MergeStep` | kernel/mem/buddy.cpp:401-423 | replacing a free buddy and the block being freed by their parent keeps the invariant and every frame |
| `BuddyBlocks.InsertStep` | kernel/mem/buddy.cpp:387-404 | linking a block whose buddy is not free keeps alignment, disjointness and "no two free buddies" |
| `BuddyBlocks.SplitNeverMerges` | kernel/mem/buddy.cpp:446-455 | the buddy of the upper half handed back by a split is the lower half, which is still in hand and so not free |
| `BuddyLists.SpliceKeeps` | kernel/mem/buddy.cpp:220-245 | splicing a node between its address neighbours keeps every list sorted, doubly linked and complete |
| `BuddyLists.CutKeeps` | kernel/mem/buddy.cpp:247-259 | cutting a node out keeps every list sorted, doubly linked and complete |
| `BuddyLists.BuddyIsNeighbour` | kernel/mem/buddy.cpp:261-282 | in an address-sorted list of aligned disjoint blocks only the two neighbours of a node can be its buddy |
| `BuddyAllocator.BuddyAllocator.LinkBlock` | kernel/mem/buddy.cpp:220-245 | the list of the order gains exactly the node, at its sorted place |
| `BuddyAllocator.BuddyAllocator.UnlinkBlock` | kernel/mem/buddy.cpp:247-259 | the list loses exactly the node |
| `BuddyAllocator.BuddyAllocator.FindBuddyNode` | kernel/mem/buddy.cpp:261-282 | the two-neighbour check finds the buddy if and only if it is free |
| `BuddyAllocator.BuddyAllocator.AllocFreeBlock` | kernel/mem/buddy.cpp:153-191 | fails if and only if no descriptor is free and no block of order 2 or more exists, and then nothing changes; otherwise a slot that is in no list, from a new pool only if none was left |
| `BuddyAllocator.BuddyAllocator.FreeFreeBlock` | kernel/mem/buddy.cpp:193-218 | the slot is free again and the bitmap counts stay exact |
| `BuddyAllocator.BuddyAllocator.AddNewPool` | kernel/mem/buddy.cpp:138-151 | never halts; out of memory if and only if no block of order 2 or more is free; otherwise four frames move to the pools and at least 508 descriptors are free |
| `BuddyAllocator.BuddyAllocator.AttachPool` | kernel/mem/buddy.cpp:90-121 | the new pool has only its header slots taken and no free block changes |
| `BuddyAllocator.BuddyAllocator.PutStep` | kernel/mem/buddy.cpp:387-424 | one round of the merge loop: halts if and only if no descriptor can be had; else the block is linked, or it and its free buddy are out and their parent is next |
| `BuddyAllocator.BuddyAllocator.PutPageInOrder` | kernel/mem/buddy.cpp:375-425 | halts if and only if no descriptor is free and no block of order 2 or more exists, and then nothing has changed; otherwise exactly the frames of the block join, and no merge happens unless all frames of the buddy are owned |
| `BuddyAllocator.BuddyAllocator.FetchFrameOrder` | kernel/mem/buddy.cpp:427-457 | never halts, for any order and state; a best-fitting block is split and exactly the requested frames leave; out of memory if and only if no aligned run of that order is free |
| `BuddyAllocator.BuddyAllocator.SplitDown` | kernel/mem/buddy.cpp:446-455 | the upper halves go back without a halt and without one merge, and the lower end of the block remains in hand |
| `BuddyAllocator.BuddyAllocator.PutHalf` | kernel/mem/buddy.cpp:446-455 | one upper half goes back; if it has order 2 or more there is room for the next |
| `BuddyAllocator.BuddyAllocator.constructor` | kernel/mem/buddy.cpp:284-290 | the initial state: empty lists, no free pages, one static pool |
| `BuddyAllocator.BuddyAllocator.AddMemoryRange` | kernel/mem/buddy.cpp:292-314 | halts if and only if, before one of the pieces, the free frames so far need every descriptor and none of their blocks has order 2 or more; otherwise adds exactly its frames |
| `BuddyAllocator.BigNeverOverflows` | kernel/mem/buddy.cpp:292-314 | with a free block of order 2 or more no range can halt it |
| `BuddyAllocator.FillsIs` | kernel/mem/buddy.cpp:375-425 | whether frames fill the descriptors is decided by the one block set an allocator has for them |
| `BuddyAllocator.BuddyAllocator.SlotCount` | kernel/mem/buddy.cpp:153-191 | a descriptor is free if and only if there are fewer free blocks than 508 times the pools |
| `BuddyPools.SlotsLeft` | kernel/mem/buddy.cpp:153-191 | a bit is clear if and only if fewer slots are handed out than the pools have besides their headers |
| `BuddyAllocator.BuddyAllocator.LargestOrder` | kernel/mem/buddy.cpp:297-306 | the largest order that is aligned and fits the rest of the run |
| `BuddyAllocator.BuddyAllocator.PagesToOrder` | kernel/mem/buddy.h:85-102 | the least order whose block holds count frames |
| `BuddyAllocator.BuddyAllocator.MaybeExpandPool` | kernel/mem/buddy.cpp:123-136 | never halts; out of memory if and only if the tail pool is low and no block of order 2 or more is free, and then nothing changes; after a success the tail pool is not low |
| `BuddyAllocator.BuddyAllocator.PutPage` | kernel/mem/buddy.cpp:363-373 | adds exactly its range to the free and pooled frames and keeps _free_pages equal to their number; frame 0 is refused; halts if and only if the range overflows the descriptors, for one frame if and only if none is free and no block of order 2 or more exists |
| `BuddyAllocator.BuddyAllocator.GetFreePage` | kernel/mem/buddy.cpp:316-352 | a success removes exactly [p, p+n) and nothing else; an early out of memory if and only if no aligned run of the rounded-up order is free; halts if and only if the best block has that order and the rest of it overflows the descriptors; once n frames are out, out of memory with the n frames lost if and only if the pools are starved, for a block of exactly n frames told from the state before |
| `BuddyAllocator.BuddyAllocator.Carve` | kernel/mem/buddy.cpp:326-336 | the block of the rounded-up order is trimmed to exactly count frames, the tail going back; out of memory if and only if no aligned run of that order is free; halts if and only if the tail overflows the descriptors |
| `BuddyLoss.Scatter` | kernel/mem/buddy.cpp:363-373 | up to 508 isolated odd frames put one by one into a new allocator leave it valid and owning exactly them |
| `BuddyLoss.LoseFrame` | kernel/mem/buddy.cpp:345-350 | from that state get_free_page(1) answers out of memory and one frame belongs to nobody |
| `BuddyLoss.HaltOnPut` | kernel/mem/buddy.cpp:387-389 | after 508 isolated odd frames put_page of one more trips the assertion |
| `BuddyLoss.HaltOnGet` | kernel/mem/buddy.cpp:333-336 | with 507 isolated odd frames and a block of eight, get_free_page(5) trips the assertion when it puts back the rest |
| `BuddyLoss.Isolated` | kernel/mem/buddy.cpp:153-191 | over isolated frames there is one block and one descriptor per frame, and no expansion pool |
| `Gfp.Gfp.GetFreePage` | kernel/mem/gfp.h:86-99 | invalid parameter exactly for no frames or more than the largest block; out of memory with nothing taken exactly if no aligned run of the rounded-up order is free; halts exactly if the best block has that order and the rest of it overflows the descriptors; once frames are out it succeeds unless the pools are starved; tracked frames handed out start with one reference each and no other count changes |
| `Gfp.TrackedLaw` | kernel/mem/gfp.h:67-70 | a run is counted if and only if all its frames lie in the first 4 GiB |
| `Gfp.Gfp.KeepPage` | kernel/mem/gfp.h:160-168 | adds one reference to each frame of a tracked range |
| `Gfp.Gfp.PutPage` | kernel/mem/gfp.h:115-144 | drops one reference of each frame and returns to the buddy allocator exactly the frames that reach zero, each once, although it coalesces runs |
| `Gfp.Gfp.DropRun` | kernel/mem/gfp.h:124-143 | the run-coalescing loop: what was returned plus the pending run is what has reached zero so far |
| `CowState.PokeKeeps` | kernel/object/memory.cpp:324-365 | the copy-on-write law: writing a page whose hint says exclusive changes no other page of any payload |
| `CowState.ShareKeeps` | kernel/object/memory.cpp:192-209 | sharing a page adds one holder and one reference and both sides see hint above 1 |
| `CowState.DropKeeps` | kernel/object/memory.cpp:465-476 | dropping a page entry frees its frame exactly when no other entry holds it |
| `CowState.InstallKeeps` | kernel/object/memory.cpp:219-264 | installing a reserved frame changes only the page it becomes |
| `CowState.EnsureIsUnobservable` | kernel/object/memory.cpp:219-264 | first touch of a page changes no byte any payload shows |
| `CowState.ForkIsUnobservable` | kernel/object/memory.cpp:430-463 | splitting a shared page changes no byte any payload shows and leaves the page exclusive |
| `CowState.ForkFree` | kernel/object/memory.cpp:430-463 | a fork costs one frame, unless this page was the only holder left of the old frame, which then comes back |
| `CowState.SoleHolder` | kernel/object/memory.cpp:454-458 | a hint of 1 means that the entry is the only holder of its frame |
| `CowState.DropFreesHeld` | kernel/mem/gfp.h:67-70 | dropping one of several pages on a frame frees it under the others if and only if the frame is above the tracked range |
| `CowState.CloneLosesFrame` | kernel/mem/gfp.h:67-70 | a page on frame 0x100000, shared with a clone and dropped: the frame is free under the clone |
| `CowState.RegrownFresh` | kernel/object/memory.cpp:478-539 | after a shrink to small and a growth to big, byte x between them is the initial one if and only if its page begins at small or later or it showed the initial byte before |
| `CowState.OldBytesShow` | kernel/object/memory.cpp:478-539 | a page of ones cut to 10 bytes and grown again shows a one at byte 20 |
| `CowState.FewerFree` | kernel/mem/gfp.h:86-90 | a failed allocation that loses free frames is unobservable |
| `CowMemory.MemorySystem.constructor` | kernel/object/memory.cpp:181-190 | with no payload every frame is free and the sharing invariant holds |
| `CowMemory.MemorySystem.LookupPage` | kernel/object/memory.cpp:211-217 | present pages by number; out of bounds and not present told apart |
| `CowMemory.MemorySystem.LoadPage` | kernel/object/memory.cpp:232-257 | a fresh page holds the backing file's bytes where the file provides them and zeros elsewhere |
| `CowMemory.MemorySystem.EnsurePage` | kernel/object/memory.cpp:219-264 | succeeds if and only if the offset is in bounds and the page is present, or a frame and a file offset can be had and the file can be read where the page holds file bytes; the error says which was missing; nothing observable changes, and a new page costs exactly one frame |
| `CowMemory.MemorySystem.ReadLength` | kernel/object/memory.cpp:242-250 | how much of a page comes from the file: nothing without a file or beyond its length, a page for an unlimited one, the rest of it otherwise |
| `CowMemory.MemorySystem.Fork` | kernel/object/memory.cpp:430-463 | succeeds if and only if the page is in bounds and present, and exclusive already or a frame for its copy can be had; it is exclusive afterwards and nothing observable changed |
| `CowMemory.MemorySystem.Read` | kernel/object/memory.cpp:291-322 | page-chunked reading returns the slice of the flat byte array and changes nothing observable; it succeeds if and only if every page it reaches is present or, counting the pages before it, a frame, a file offset and the file can be had when its turn comes; otherwise the error is the one of the first page that cannot be had; for one page this is the condition of ensure_page |
| `CowMemory.MemorySystem.Write` | kernel/object/memory.cpp:324-365 | page-chunked writing replaces the slice of the flat byte array; no other payload shows a different byte, even after an error part way; it succeeds if and only if every absent page can be had and every shared one copied when its turn comes, counting frames taken and given back before; otherwise the error is the one of the first page that cannot; for one page this is the condition of ensure_page or fork_page |
| `CowMemory.MemorySystem.MakeExclusive` | kernel/object/memory.cpp:342-350 | before the copy the page is present and held by this payload alone; exactly when that can be reached and with which error if not |
| `CowMemory.MemorySystem.ClonePayload` | kernel/object/memory.cpp:192-209 | the clone shows what the original shows; a shared payload is its own clone |
| `CowMemory.MemorySystem.ReleasePagesFrom` | kernel/object/memory.cpp:465-476 | pages from the rounded-up offset on go back to their initial contents, all others stay |
| `CowMemory.MemorySystem.Resize` | kernel/object/memory.cpp:478-539 | succeeds exactly when the growth flags allow it; bytes below both sizes stay |
| `CowMemory.MemorySystem.Destruct` | kernel/object/memory.cpp:181-190 | the payload goes and no other payload shows a different byte |
| `CowMemory.MemorySystem.GetFreePage` | kernel/mem/gfp.h:86-99 | a free frame with one reference; it fails if and only if none is left or the allocator below has nothing at that turn, and then unobservably |
| `CowMemory.MemorySystem.PutPage` | kernel/mem/gfp.h:115-144 | one reference less; the last one frees the frame, an untracked frame is freed at once |
| `VmaList.VmaTable.AddVma` | kernel/mem/vma.cpp:94-120 | refused exactly for a bad area or an overlap; otherwise exactly its addresses translate anew, and a list sorted by begin stays so |
| `VmaList.Place` | kernel/mem/vma.cpp:94-120 | the refusals of add_vma exactly, and the place by begin |
| `VmaList.MeetsLaw` | kernel/mem/vma.cpp:187-192 | a VMA meets a range if and only if they have an address in common |
| `VmaList.VmaTable.RemoveVmaRange` | kernel/mem/vma.cpp:175-232 | afterwards the translation is the old one restricted to the complement of the range, and a sorted list stays sorted if and only if no VMA behind a front-cut one begins below the end of the range |
| `VmaList.VmaTable.CutOne` | kernel/mem/vma.cpp:187-229 | the whole-cut, left-cut, right-cut and middle-split cases of one VMA |
| `VmaList.VmaTable.SplitAt` | kernel/mem/vma.cpp:220-228 | a middle cut leaves two VMAs with the old translation outside the hole |
| `VmaList.NotAlwaysSorted` | kernel/mem/vma.cpp:103-120 | a concrete list with an empty VMA that a front cut leaves unsorted by begin |
| `VmaList.SortedAfterCut` | kernel/mem/vma.cpp:208-213 | one front cut keeps a sorted list sorted if and only if no later VMA begins below the cut |
| `VmaList.EmptyStrands` | kernel/mem/vma.cpp:103-105 | without an empty VMA the list always stays sorted |
| `VmaList.TranslateAt` | kernel/mem/vma.cpp:131-140 | the VMA that contains an address is unique |
| `PageTable.AddressSpaces.NewSpace` | kernel/mem/vma.cpp:60-67 | a space that maps nothing joins and all spaces stay safe |
| `PageTable.AddressSpaces.Locate` | kernel/mem/vma.cpp:131-140 | the first VMA that contains the address or is empty and begins there |
| `PageTable.AddressSpaces.OnNp` | kernel/mem/vma.cpp:453-535 | succeeds if and only if locate finds a VMA whose payload page is present or can be had; then the frame mapped at the address holds the payload byte the VMA list translates it to, less the part of the VMA's memory offset within a page; page-table safety is kept, no byte changes, at most one entry changes and a new one grants what the protection allows, writing at once or after a copy |
| `PageTable.AddressSpaces.OnWp` | kernel/mem/vma.cpp:537-597 | succeeds if and only if the page is present, copy-on-write, of a payload that is not shared, and can be made exclusive; then the mapped frame holds the payload byte the VMA list translates the address to, with the same proviso, that payload page is its only holder, and the entry grants exactly what the protection allows; safety is kept and no byte changes |
| `PageTable.AddressSpaces.RestoreEntry` | kernel/mem/vma.cpp:571-592 | remapping after the fork keeps every entry safe and gives the page what the protection allows |
| `PageTable.AddressSpaces.CloneToCow` | kernel/mem/vma.cpp:599-620 | into an empty space it cannot fail: both spaces are safe, the child shows what the parent showed and has exactly its entries, copy-on-write on both sides where the parent could write an unshared page; no third space changed |
| `PageTable.AddressSpaces.CloneVma` | kernel/mem/vma.cpp:599-620 | one VMA: its payload is cloned, its copy is added, its pages and no others are shared with the child, everything before staying safe |
| `PageTable.AddressSpaces.AddCopy` | kernel/mem/vma.cpp:606-608 | add_vma never refuses the copy, since VMAs of the parent share no page |
| `PageTable.AddressSpaces.AddPayload` | kernel/mem/vma.cpp:94-120 | a new payload under a page-aligned VMA joins a space: refused exactly as add_vma says, safety and order kept |
| `PageTable.AddressSpaces.ClonePages` | kernel/mem/vma.cpp:622-670 | every present page of the VMA is mapped in the child with the same frame and rights, copy-on-write on both sides if it could be written and is not shared; no other page changes |
| `PageTable.AddressSpaces.ClonePage` | kernel/mem/vma.cpp:625-668 | one page: the entries of child and parent afterwards, every other entry unchanged, the weak form of safety kept |
| `PageTable.InheritedNext` | kernel/mem/vma.cpp:599-620 | after each VMA the child has exactly the parent entries of the VMAs cloned so far |
| `PageTable.NotBusy` | kernel/mem/vma.cpp:606-608 | a VMA meets no copy of the VMAs before it |
| `PageTable.JoinMapped` | kernel/mem/vma.cpp:94-120 | inserting a VMA over a payload mapped nowhere else keeps each page mapped at one place |
| `PageTable.AddressSpaces.ProtectCow` | kernel/mem/vma.cpp:506-511 | write-protecting an entry keeps page-table safety |
| `PageTable.ForkSafe` | kernel/mem/vma.cpp:571-592 | after a fork every entry but the one of the forked page is still safe |
| `PageTable.TouchKeeps` | kernel/mem/vma.cpp:476-481 | a payload page that moves to a fresh frame leaves all other entries safe |
| `PageTable.CloneWeak` | kernel/mem/vma.cpp:599-620 | cloning a payload harms no space but the one being cloned |
| `PageTable.TargetInjective` | kernel/mem/vma.cpp:52-57 | with page-aligned VMAs different pages map different payload pages, so no two entries of a VMA share one |
| `PageTable.TargetIs` | kernel/mem/vma.cpp:52-57 | the payload page mapped at an address, plus the offset in the page, is the payload offset the VMA translates the address to if and only if the memory offset lies on a page boundary, and is short of it by the rest of that offset otherwise |
| `PageTable.TranslatedBy` | kernel/mem/vma.cpp:131-140 | an address translates through the one VMA that contains it |
| `PageTable.EntryShows` | kernel/mem/vma.cpp:453-597 | in a safe space every present entry holds the bytes its addresses translate to, with the same proviso |
| `Elf.LoadSegments` | kernel/exe/elfloader.cpp:250-401 | the headers go in one by one: it fails exactly at the first header whose file range leaves the file, whose sums exceed 64 bits or whose pages leave user space, with the error for it, hangs exactly at the first whose area wraps or meets a VMA of the space or of an earlier header, and reports no segment exactly if there is none; all headers before that are in place over new payloads, the space stays safe, and the image end is the largest VMA end |
| `Elf.LoadOne` | kernel/exe/elfloader.cpp:276-380 | one PT_LOAD header: refused, hanging or in place, exactly, with the refusal told from the fields of the header |
| `Elf.RefusalLaw` | kernel/exe/elfloader.cpp:278-300 | out of bounds if and only if p_offset+p_filesz exceeds 64 bits or the file or p_vaddr+p_memsz exceeds 64 bits; invalid parameter if and only if none of these and the first page of the segment or the end of its pages is outside user space; the end is the first page boundary not below the end of the segment, unless the size wraps |
| `Elf.Access` | kernel/exe/elfloader.cpp:303-361 | end to end: the not-present fault at an address of a loaded segment succeeds if and only if no empty VMA listed earlier begins there and the page is present or can be had, and then the frame in the page table holds the byte the header promises |
| `Elf.FaultLaw` | kernel/exe/elfloader.cpp:303-361 | exactly when that fault can be served; the offset it asks for is below the payload size, and the file is needed only for pages with file bytes |
| `Elf.PresentByte` | kernel/exe/elfloader.cpp:278-361 | in a loaded segment every present page holds file byte p_offset+(v-p_vaddr), or zero beyond p_filesz |
| `Elf.SegmentStays` | kernel/exe/elfloader.cpp:303-361 | faults leave a loaded segment loaded |
| `Elf.ShadowedAtStart` | kernel/mem/vma.cpp:131-140 | in a list sorted by begin only the first address of a VMA can be hidden by an empty one |
| `Elf.LoadHidden` | kernel/mem/vma.cpp:131-140 | a segment without bytes, loaded before one at the same address: the fault at that address fails |
| `Elf.ImageCorrect` | kernel/exe/elfloader.cpp:278-361 | the byte that payload and backing of an accepted segment give at v is file byte p_offset+(v-p_vaddr), or zero beyond p_filesz |
| `Elf.ImageLaw` | kernel/exe/elfloader.cpp:288-351 | an accepted segment is mapped whole and right for every file content if and only if its size does not wrap and p_offset is at least the page prefix or p_filesz is zero |
| `Elf.ImageWrong` | kernel/exe/elfloader.cpp:342-351 | otherwise a file whose first byte comes out wrong |
| `Elf.WrongByte` | kernel/exe/elfloader.cpp:342-351 | p_vaddr 0x10800 with p_offset 0x100: the segment begins with a zero where the file has a one |
| `Elf.Congruent` | kernel/exe/elfloader.cpp:342-346 | offset and address congruent modulo the page size is enough |
| `Elf.SegmentShape` | kernel/exe/elfloader.cpp:288-300 | the VMA begins at the page of the segment, both ends are on page boundaries, and unless it wraps its length is the payload size |
| `Elf.CoverageLaw` | kernel/exe/elfloader.cpp:288-295 | the VMA of an accepted segment covers all of it if and only if p_memsz plus the page prefix, rounded up, fits 64 bits |
| `Elf.WrappingIsEmpty` | kernel/exe/elfloader.cpp:288-300 | a header of a dynamic image with p_vaddr 0x800 and p_memsz 2^64-1-0x800 is accepted with an empty VMA |
| `Elf.LoadWrapping` | kernel/exe/elfloader.cpp:250-401 | loading it succeeds and maps no address of the segment |
| `Elf.StaticFits` | kernel/exe/elfloader.cpp:284-300 | an image at its own addresses never wraps |
| `ExpireHeap.UpStep` | kernel/driver/clock.cpp:132-141 | one round of shift_up moves the only violation of heap order to the parent |
| `ExpireHeap.DownStep` | kernel/driver/clock.cpp:143-162 | one round of shift_down moves the only violation to the smaller child |
| `ExpireHeap.ReplaceKey` | kernel/driver/clock.cpp:108-120 | filling a hole with the last entry leaves one direction to repair, the one the code chooses |
| `ExpireHeap.RootIsEarliest` | kernel/driver/clock.cpp:84-89 | heap order makes the root the minimum |
| `ExpireHeap.SwapKeeps` | kernel/driver/clock.cpp:164-171 | swapping keeps heap positions and slots pointing at each other |
| `ExpireHeap.ChainPush` | kernel/driver/clock.cpp:122-127 | a retired slot joins the free chain, which stays acyclic and complete |
| `ExpireHeap.ChainPop` | kernel/driver/clock.cpp:53-55 | taking a slot leaves the chain running through exactly the inactive slots |
| `ExpireHeap.LiveCount` | kernel/driver/clock.cpp:41-43 | there are as many live handles as heap entries |
| `ExpireHeap.TicketHonoured` | kernel/driver/clock.h:155-170 | a handle is honoured exactly while its slot is in use and its retirement count agrees modulo 2^16 |
| `ExpireHeap.StaleRefused` | kernel/driver/clock.cpp:75-80 | a stale handle is refused until its slot has been retired 65536 times |
| `ExpireQueue.ExpireActionQueue.constructor` | kernel/driver/clock.cpp:28-35 | an empty map, a free chain through all slots, and every generation 1 |
| `ExpireQueue.ExpireActionQueue.Size` | kernel/driver/clock.cpp:41-43 | the number of live handles |
| `ExpireQueue.ExpireActionQueue.Push` | kernel/driver/clock.cpp:45-68 | adds exactly one entry to the map under a handle not in use; out of memory exactly when 32 are live |
| `ExpireQueue.ExpireActionQueue.Cancel` | kernel/driver/clock.cpp:70-82 | removes exactly the action of a live handle and refuses any other handle |
| `ExpireQueue.ExpireActionQueue.Peek` | kernel/driver/clock.cpp:84-89 | an earliest live action, or none exactly when there is none |
| `ExpireQueue.ExpireActionQueue.PopDue` | kernel/driver/clock.cpp:91-101 | takes out due actions in nondecreasing time order, none left is earlier, and if fewer than 8 came out nothing due remains |
| `ExpireQueue.ExpireActionQueue.RemoveAt` | kernel/driver/clock.cpp:103-130 | removes exactly the entry at a heap position and retires its slot |
| `ExpireQueue.ExpireActionQueue.ShiftUp` | kernel/driver/clock.cpp:132-141 | restores heap order and changes nothing but heap positions |
| `ExpireQueue.ExpireActionQueue.ShiftDown` | kernel/driver/clock.cpp:143-162 | restores heap order and changes nothing but heap positions |
| `ExpireQueue.ExpireActionQueue.SwapHeapNodes` | kernel/driver/clock.cpp:164-171 | exchanges two keys and keeps the position/slot bijection |
| `ExpireQueue.TimeKeeper.Enqueue` | kernel/driver/clock.cpp:184-225 | runs a due action at once, else queues it; the alarm stays set for the first deadline |
| `ExpireQueue.TimeKeeper.Cancel` | kernel/driver/clock.cpp:227-244 | cancels exactly a live handle and keeps the alarm set for the first deadline |
| `ExpireQueue.TimeKeeper.OnTimerIrq` | kernel/driver/clock.cpp:246-264 | an alarm that rang in time always yields a due action, and the next alarm is set |
| `ExpireQueue.TimeKeeper.Rearm` | kernel/driver/clock.cpp:276-295 | the alarm rings at the first deadline, or one nanosecond from now if that has passed, and counts from now |
| `Calendar.DateRoundTrip` | include/sus/units.h:102-156 | days_to_ymd(ymd_to_days(x)) = x for every valid date in range |
| `Calendar.DayRoundTrip` | include/sus/units.h:102-156 | every day gives a valid date, and ymd_to_days(days_to_ymd(d)) = d if and only if the shifted count fits a 32-bit int |
| `Calendar.IntDays` | include/sus/units.h:111-114 | over the int range the round trip holds exactly up to INT_MAX - 719468 |
| `Calendar.LastDaysWrap` | include/sus/units.h:111-118 | of the days above that, the first 146097 overflow a subtraction and the rest are taken for days 2^32 earlier |
| `Calendar.Successor` | include/sus/units.h:102-142 | day d+1 is the calendar successor of day d |
| `Calendar.NextDay` | include/sus/units.h:144-156 | the calendar successor of a valid date has the next day count |
| `Calendar.Epoch` | include/sus/units.h:144-156 | 1970-01-01 is day 0 |
| `Calendar.YearOfInverts` | include/sus/units.h:124-130 | the year formula inverts the day count of years, leap days included |
| `Calendar.FormattedRoundTrip` | include/sus/units.h:170-214 | from_formatted_time(to_formatted_time(t)) is t truncated to seconds, also before the epoch |
| `Calendar.ClockFields` | include/sus/units.h:204-214 | hour, minute and second are on the clock exactly from the epoch on or at whole days before it |
| `Calendar.ClockLaw` | include/sus/units.h:204-214 | days, hours, minutes and seconds add up to the seconds since the epoch, and on the clock to the second of the day |
| `IcGraph.ICInitGraph.constructor` | kernel/device/ic_graph.cpp:15-19 | no node, no edge, empty chains |
| `IcGraph.ICInitGraph.AddNode` | kernel/device/ic_graph.cpp:21-42 | every error case; the graph gains one isolated node |
| `IcGraph.ICInitGraph.AddEdge` | kernel/device/ic_graph.cpp:44-64 | every error case; the graph gains exactly that edge and the chains stay threaded in decreasing edge order |
| `IcGraph.ICInitGraph.CountIndegrees` | kernel/device/ic_graph.cpp:72-83 | each node's indegree is its number of incoming edges, parallel edges counted |
| `IcGraph.ICInitGraph.Seed` | kernel/device/ic_graph.cpp:85-89 | queued are exactly the nodes without incoming edges |
| `IcGraph.ICInitGraph.DropChain` | kernel/device/ic_graph.cpp:98-111 | the chain walk ends, takes off every edge of the node and queues exactly the children that lost their last one, within the queue array |
| `IcGraph.ICInitGraph.TopoSort` | kernel/device/ic_graph.cpp:66-118 | succeeds if and only if the edge relation has no cycle, and then lists every node once with parents before children |
| `IcGraph.OrderedIsAcyclic` | kernel/device/ic_graph.cpp:66-118 | a topological order rules out every closed walk |
| `IcGraph.StuckIsCyclic` | kernel/device/ic_graph.cpp:114-116 | nodes left over when the queue runs dry contain a cycle |
| `IcGraph.KahnStep` | kernel/device/ic_graph.cpp:106-110 | taking one edge off keeps "queued exactly when nothing pending leads here" |
| `IcGraph.KahnEnd` | kernel/device/ic_graph.cpp:114-117 | all nodes out: an order; otherwise: a cycle |
| `Regions.Sorted` | kernel/device/model.cpp:53-66 | sorting rearranges the regions by begin, then end, then status |
| `Regions.OrderIsByFields` | kernel/device/model.cpp:53-62 | region_less orders by begin, then end, then status |
| `Regions.OrderUnique` | kernel/device/model.cpp:53-66 | that order is unique, so every sorting algorithm gives the same list |
| `Regions.MergeSameStatusRegions` | kernel/device/model.cpp:64-83 | the sorted regions, each merged into the last one kept if they touch and share a status; keeps the statuses of every address and gives a normal list if no address has two statuses |
| `Regions.SortedUniqueBoundaries` | kernel/device/model.cpp:86-109 | the strictly increasing sequence of exactly the region ends |
| `Regions.TrimFree` | kernel/device/model.cpp:197-233 | FREE exactly where a FREE region lies and no other status does |
| `Regions.CutOut` | kernel/device/model.cpp:202-221 | cuts exactly one area out of every fragment |
| `Regions.ResolveUsed` | kernel/device/model.cpp:235-281 | each address gets the status of its only region, or BAD_MEMORY where regions overlap |
| `Regions.NormalizeMemoryRegions` | kernel/device/model.cpp:180-301 | the result is sorted, disjoint and has no touching neighbours of one status, and its meaning at each address is that of the sorted, merged input |
| `Regions.FreeLaw` | kernel/device/model.cpp:197-233 | an address is FREE in the result exactly when some FREE and no other input region covers it |
| `Regions.UsedLaw` | kernel/device/model.cpp:235-281 | coverage by statuses other than FREE is preserved |
| `Regions.SingleLaw` | kernel/device/model.cpp:268-269 | an address under one region other than FREE keeps its status |
| `Regions.ConflictLaw` | kernel/device/model.cpp:270-278 | two different statuses other than FREE make BAD_MEMORY |
| `Regions.SameStatusLaw` | kernel/device/model.cpp:74-80 | where apart from FREE only status s covers x, s survives if and only if no region of another status sorts between two regions of s that cover x, and x becomes BAD_MEMORY otherwise |
| `Regions.LoadJoined` | kernel/device/model.cpp:64-83 | after merging at most one region covers x if and only if nothing of another status sorts between those that did |
| `Regions.OverlapGoesBad` | kernel/device/model.cpp:64-83 | RESERVED [0,100), FREE [10,20) and RESERVED [15,50): address 30 becomes BAD_MEMORY |
| `Regions.Canonical` | kernel/device/model.cpp:298-300 | a normal list is determined by its pointwise meaning |
| `Regions.Idempotent` | kernel/device/model.cpp:180-301 | normalising a normal list gives it back, so normalising twice equals normalising once |
| `Slub.GeometryFits` | kernel/mem/slub.h:113-115 | alignment and size are the requested ones raised to 8 and rounded up by less than the alignment, objects begin at the first aligned place behind the header, all of them fit the slab, and one more would not |
| `Slub.ObjPlace` | kernel/mem/slub.h:209-214 | objects lie behind the header and inside the slab, aligned, and slab_of finds the slab |
| `Slub.LiveDisjoint` | kernel/mem/slub.h:209-335 | live objects are aligned, inside their slabs and do not overlap |
| `Slub.TakeStep` | kernel/mem/slub.h:306-309 | taking the head of the free chain leaves a chain of exactly the non-live objects |
| `Slub.GiveStep` | kernel/mem/slub.h:325-329 | freeing a live object puts it at the head of a chain of exactly the non-live objects |
| `Slub.Slub.InitSlabHeaders` | kernel/mem/slub.h:217-237 | threads the objects of a page in address order and touches no other page |
| `Slub.Slub.NewSlab` | kernel/mem/slub.h:240-251 | a page becomes a slab with every object free |
| `Slub.Slub.Alloc` | kernel/mem/slub.h:287-314 | a fresh aligned object becomes live; null only if every slab is full and no page came; a page is taken only if every slab is full |
| `Slub.Slub.Free` | kernel/mem/slub.h:317-335 | exactly that object stops being live; counts, chains and lists stay exact |
| `Slub.Slub.ToEmpty` | kernel/mem/slub.h:254-262 | the three lists hold exactly the slabs of their state |
| `Slub.Slub.ToPartial` | kernel/mem/slub.h:265-273 | the three lists hold exactly the slabs of their state |
| `Slub.Slub.ToFull` | kernel/mem/slub.h:276-284 | the three lists hold exactly the slabs of their state |
| `RingBuffer.RingBuffer.constructor` | include/sus/ringbuf.h:277-285 | an empty buffer of at least two slots, or none if the allocation failed |
| `RingBuffer.RingBuffer.Push` | include/sus/ringbuf.h:359-373 | appends, or refuses exactly when one slot is left free |
| `RingBuffer.RingBuffer.Pop` | include/sus/ringbuf.h:383-395 | drops the oldest element, or refuses exactly when empty |
| `RingBuffer.RingBuffer.Size` | include/sus/ringbuf.h:338-343 | the number of queued elements |
| `RingBuffer.RingBuffer.Measures` | include/sus/ringbuf.h:346-353 | the index tests for empty and full say what they should |
| `BlockRequests.StepInv` | kernel/bio/request.cpp:35-198 | every step of producers, worker and drainers keeps the protocol invariant |
| `BlockRequests.RunInv` | kernel/bio/request.cpp:35-198 | so it holds in every state any interleaving reaches |
| `BlockRequests.Fifo` | kernel/bio/request.cpp:65-79 | requests leave the ring in the order they entered it |
| `BlockRequests.ExactlyOnce` | kernel/bio/request.cpp:35-198 | an accepted request is in exactly one of ring, worker, drainer or done, and is resolved and reclaimed at most once, once when done |
| `BlockRequests.NeverBusy` | kernel/bio/request.cpp:111-160 | the status checks never refuse the agent whose turn it is |
| `BlockRequests.DrainedForever` | kernel/bio/request.cpp:168-198 | once a drainer has seen the ring empty it stays empty and nothing more is accepted |
| `BlockRequests.AllResolved` | kernel/bio/request.cpp:120-160 | with an empty ring and idle agents every accepted request was resolved and reclaimed once |
| `BlockRequests.RunExtends` | kernel/bio/request.cpp:35-198 | along a run histories only grow and finished requests never change |
| `BlockRequests.StatusStep` | kernel/bio/request.cpp:111-160 | a request becomes completed, failed, cancelled or taken up exactly by the step that says so for it |
| `BlockRequests.FateLaw` | kernel/bio/request.cpp:111-160 | over any run the status of a request tells exactly which of these steps were taken with it |
| `BlockRequests.Fates` | kernel/bio/request.cpp:35-160 | from the start, a reclaimed request is completed, failed or cancelled if and only if the run completed it well, completed it badly or cancelled it, and pending if and only if it was refused |
| `BlockRequests.BlockRequestQueue.Submit` | kernel/bio/request.cpp:35-63 | accepted, refused and reclaimed, or halted on a full ring, with the status and the protocol state for each |
| `BlockRequests.BlockRequestQueue.TryDequeue` | kernel/bio/request.cpp:65-79 | the oldest request goes to the worker, or the right error on an empty ring; no status changes |
| `BlockRequests.BlockRequestQueue.MarkProcessing` | kernel/bio/request.cpp:111-118 | busy unless submitted, else processing, as its protocol step says |
| `BlockRequests.BlockRequestQueue.Complete` | kernel/bio/request.cpp:120-141 | busy unless processing, else completed or failed as reported, resolved and reclaimed once |
| `BlockRequests.BlockRequestQueue.Cancel` | kernel/bio/request.cpp:143-160 | a drainer never finds it busy; it is cancelled, resolved and reclaimed once |
| `BlockRequests.BlockRequestQueue.DrainAndStop` | kernel/bio/request.cpp:168-198 | run alone, it cancels everything in the ring and leaves the queue stopped |
| `Endpoint.Endpoint.Send` | kernel/object/endpoint.cpp:172-243 | the message goes to the longest-waiting receiver and the send completes, or it joins the end of the queue |
| `Endpoint.Endpoint.Recv` | kernel/object/endpoint.cpp:245-292 | the oldest message and its completed send, or a place at the end of the receiver queue |
| `Endpoint.Endpoint.CancelSend` | kernel/object/endpoint.cpp:199-219 | takes exactly that message out of the queue |
| `Endpoint.Endpoint.CancelRecv` | kernel/object/endpoint.cpp:278-288 | takes exactly that receiver out of the queue |
| `Endpoint.Endpoint.FindPendingSend` | kernel/object/endpoint.cpp:95-106 | finds the pending send of a queued message |
| `Endpoint.Endpoint.FuturesTell` | kernel/object/endpoint.cpp:172-292 | a send future is pending exactly while its message is queued and consumed exactly when it was delivered |
| `Endpoint.Endpoint.DeliveredOnce` | kernel/object/endpoint.cpp:172-292 | a message reaches at most one receiver, and its send is then complete |
| `Endpoint.Endpoint.Fifo` | kernel/object/endpoint.cpp:172-292 | the k-th uncancelled receive gets the k-th uncancelled send |

## Left out

- BuddyAllocator: bitmap words and the search from a descriptor address to its pool are one flat slot array and one bit per slot; interrupt guards and statistics other than `_free_pages` are absent.
- BuddyAllocator.BuddyAllocator.PutPageInOrder: requires the block not to be free already, as the source assumes of its callers; freeing a frame twice is not modelled.
- Gfp.Gfp.PutPage: counts are unbounded; the width of the counters is not modelled.
- CowMemory.MemorySystem.Resize: payloads that must be physically contiguous, and `sync`, are not modelled.
- CowMemory.MemorySystem.GetFreePage: any free frame may come back, without the choice the buddy allocator makes; whether the allocator and the file answer at a given turn are two functions of the turn, fixed when the system is made.
- PageTable: the theorems assume VMAs in user space that begin on page boundaries and do not share a page, an empty VMA whose payload has no byte there, a payload that is not shared mapped in one space with each page at one place, and an empty destination for the clone.
- PageTable: kernel-side `MemoryPayload::write` forks without touching page tables and is kept out of these theorems; large pages, TLB flushes, user and global bits and the page-table tree, with the frames it needs, are not modelled.
- VmaList: `grow_vma`, `sync_memory_vmas` and unmapping of pages are not modelled.
- Elf.LoadSegments: loads into a space whose VMAs lie on page boundaries; a header read that fails part way is not modelled.
- Elf: header validation, the interpreter, the PT_PHDR address, the heap and the stack are not modelled.
- ExpireQueue.TimeKeeper.Enqueue: times are unbounded naturals, without the signed 64-bit narrowing; the actions themselves and their re-queueing are the caller's.
- Calendar: the uint64 casts of `ymd_to_days` are modelled for valid dates only.
- IcGraph.ICInitGraph.TopoSort: the entry-not-found exits inside the loops are absent, since the class invariant puts both ends of every edge in the index.
- Regions: the library sort is a function; `OrderUnique` shows that its result is the only one possible.  Log output is absent.
- Slub: size classes, allocation records and objects of 2048 bytes and more only pass requests on to slabs or frames.
- BlockRequests: the ring is taken to have been allocated; wakeups and setting an unresolved promise always succeed; `cancel` is called only by a drainer, as in the source.
- Endpoint: permission checks, message building and reply objects are settled by one branch each; cancel callbacks run only for unresolved futures.
- BufferCache, file systems, drivers, the scheduler, futures, capabilities, boot parsing and architecture code are not part of this model.
