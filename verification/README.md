# Loader and kernel memory management

This project models the memory management of a small operating system's boot loader and kernel, and proves what
it keeps, over every run:

* the loader's heap (`heap.c`): boundary-tag blocks, exact-size free lists and a size-sorted tree for large blocks;
* the loader's allocator (`memory.c`), which places regions one after the other until the heap takes over;
* four-level page tables (section 4.5 of the Intel SDM, volume 3A): the bootstrap tables of `main32.c`, the loader's
  `paging.c` and the kernel's;
* the E820 memory map, numerals, and the recursive PCI scan, around them.

## How it is modelled

**Memory** is a map from the address of an 8-byte word to its value (`Machine`). Heap blocks, link words, the `free[]`
array and page tables all live in it, and the methods read and write it as the C code does, at the same offsets.
64-bit and 32-bit arithmetic that can wrap is written out. The lists of live blocks, layouts, indexes and trees that
the contracts speak of are ghost state.

**The heap invariant** (`LoaderHeap.Heap.Valid`) ties five things together: blocks tile the range from the first block
to the end of the heap; each has its header and footer in memory; no two neighbours are both free; the free blocks are
exactly the indexed ones; and the index is a set of doubly linked lists and a sorted spine with chains of equal-sized
children. The index invariant is local (each block and its neighbours); `IndexReach` derives from it that following the
pointers meets every free block in exactly one position.

**Two builds.** Where the code does not keep its promise, `datatype Build = Shipped | Repaired` runs the same methods
as they stand or with the smallest repair. For the code as it stands there is a lemma that says exactly when it fails,
and the operations carry that guard as a precondition (`AllocSafe`, `FreeSafe`); the repaired build needs none.

| defect in the code | where | repair | exact statement |
|---|---|---|---|
| blocks of 1040 and 1056 bytes are filed in the tree's slot and beyond the array | heap.c:144, heap.h:83 | 65 list slots before the tree slot | `MisfiledSizes`, `MisfiledBreaks`, `FirstBlockMisfiled` |
| a promoted child keeps its parent link | heap.c:290-303 | clear it | `PromotionStale`, `SecondDeleteIsWrong`, `TwoPagesSound`, `StaleLinkRemains`, `StrayWriteIsRight` |
| the aligned fit test subtracts without a guard | heap.c:365-368, 489-492 | guard | `FitTestExact`, `FitTestRepaired`, `CarveBeyondBreaks`, `WrappedCarve` |
| an aligned request after an extension may not fit | heap.c:681-708 | ask for a page and 48 bytes more | `ShippedExtension`, `RepairedCarve`, `CarveBeyondBreaks`, `ShortExtension` |
| the cut of an aligned request may be too small to be a block | heap.c:687-703 | move on to the next page | `ShippedExtension`, `SmallCutBreaks`, `CutForPage` |
| the heap starts where placement stopped, also when that is not a multiple of 16 | memory.c:66 | modelled as it stands | `CarveNeedsSixteen`, `OddStart` |
| rounding a request above 2^64 - 48 wraps to a small block | heap.h:79, heap.c:78 | refuse it | `RequestHonoured` |
| `heap_realloc` takes the lock twice, and on failure copies to address 0 and frees the block | heap.c:738-743 | no outer lock; give up early | `ReallocAsItStands`, `ReallocWithoutLock` |
| the loader's `page_resolve` does not test the last entry, so page faults on a neighbour of a mapped page are not served | paging.c:653, 617 | modelled as it stands | `PageResolve`, `PageFault`, `NeighbourUnserved` |
| a usable region that is not page aligned may miss its last page | paging.c:563 | modelled as it stands | `RegionReached`, `RegionMissed` |
| the frame bitset divides by 4069 and shifts a 32-bit literal | kernel paging.c:94-119 | 4096, a 64-bit literal | `FrameBitsFit`, `FramesShare`, `FirstSharesWith33rd` |
| `str_to_int` does not step over the sign | lib.c:153-157 | step over it | `RoundTrip` |
| the PCI cache is allocated as 256 pointers, too short for the lines of more than 170 functions | pci.c:119 | modelled as it stands | `LinesFit`, `CacheOverrun` |
| with several host controllers, a bus 1 to 7 behind a bridge is scanned again if it has a device 0 | pci.c:126-133 | modelled as it stands | `HostsOnce`, `CachedOnce`, `CachedTwice` |
| the PCI scan follows loops of bridges forever, but for a bridge to its own bus | pci.c:253-255 | modelled as it stands | `ScanEnds`, `ScanLoops` |
| the PCI scan starts multifunction devices at function 1 | pci.c:223 | start at 0 | `MissedFunctions`, `LostBuses` |

**Parameters.** What comes from outside is an argument: the answer of `page_alloc` to a request for `heap_extend`
(`grant`: nothing, or whole pages at the end of the heap), the frames `mem_alloc_align` hands to the page tables (`pool`:
distinct, and none of them a table), the memory map, and PCI configuration space as a function.

## Model

| member | source | states |
|---|---|---|
| HeapRuns.Run | src/boot/bios/bbp/loader/heap.c:666-766 | On the repaired heap, for every sequence of allocations, frees and writes: each is answered as the heap of its moment demands, an allocation being refused exactly if its size is zero or cannot be rounded, or nothing is found and the grant is not enough (`EnoughIsMet`); which block serves it, where it is cut and how much of it is used is determined (`OneOutcome`); each request changes the used blocks and the memory by its own effect alone, and the heap grows exactly for a met allocation that nothing serves, by what is granted; live blocks hold at least what was asked for, lie inside the heap, are pairwise apart by at least a footer and a header, and still contain every word their owner stored; nothing below the heap structure is written; once everything is freed the heap is one free block over its whole range. |
| HeapRuns.Session.Request | src/boot/bios/bbp/loader/heap.c:666-766 | The same of the code as it stands, request by request: on a heap of either build, a request that is safe at its moment (`AllocSafe` or `FreeSafe`) is answered as that moment demands, from the one block that the moment determines and with its own effect alone, and the session goes on with the whole invariant; every run of safe requests is such a session. |
| HeapRuns.Session.Keeps | src/boot/bios/bbp/loader/heap.c:666-766 | After any session, of either build: live blocks are inside the heap and apart, they still contain what was stored, and with nothing live the heap is one free block. |
| HeapRuns.LiveApart | src/boot/bios/bbp/loader/heap.c:666-766 | Two live payloads are separated by the footer of one and the header of the other, and both lie inside the heap. |
| HeapRuns.DoAlloc | src/boot/bios/bbp/loader/heap.c:666-727 | Of either build, for a safe request: an allocation is refused exactly if it cannot be met, and never if enough is granted: whole pages below 2^52 for the size rounded up to 16 bytes and 32 more, and in the repaired build 4144 more if aligned. Otherwise it adds one live pointer, page aligned on request, that was not live before, and one used block: which one, and how large, is determined. The contents clients stored elsewhere survive, and so does all that is not free space; the heap grows exactly if nothing serves a request that is met, by what is granted. |
| HeapRuns.EnoughIsMet | src/boot/bios/bbp/loader/heap.c:623-684 | In plain numbers: a request of 1 to 2^64 - 48 bytes that no free block serves is met exactly if whole pages within 52-bit addresses are granted that hold the size rounded up to 16 bytes and 32 more; in the repaired build an aligned one needs a page and 48 bytes more, and nothing else ever needs more. |
| HeapRuns.OneOutcome | src/boot/bios/bbp/loader/heap.c:666-727 | Two answers to the same allocation on the same heap that are both as promised have the same pointer, the same end of the heap and the same layout, block by block. |
| HeapRuns.FreeLive | src/boot/bios/bbp/loader/heap.c:747-766 | Freeing a live pointer removes exactly that block from the live and the used ones and leaves every word stored in another one. |
| HeapRuns.FreeAny | src/boot/bios/bbp/loader/heap.c:747-766 | A free of a live pointer takes out its block; one of null, or of a pointer without a block in front of it, leaves heap, index and memory as they were. |
| HeapRuns.AllocThenFree | src/boot/bios/bbp/loader/heap.c:666-766 | On the repaired heap, allocating fails exactly if the request cannot be met; otherwise the block is the one that is determined, it is in use in between, the only one that was not before, and freeing it restores the exact layout, block by block, unless the heap had to grow, which it does exactly if nothing served the request. |
| HeapRuns.NothingStored | src/boot/bios/bbp/loader/heap.c:666-727 | The payload of a new block holds no word that a client has stored, so clearing it disturbs nobody. |
| HeapTiling.LayoutUnique | src/boot/bios/bbp/loader/heap.c:583-616 | Two fully coalesced tilings of a range with the same used blocks are equal: the used blocks determine where every free block lies. |
| HeapTiling.AllFree | src/boot/bios/bbp/loader/heap.c:583-616 | A coalesced tiling without used blocks is one block. |
| HeapTiling.Covering | src/boot/bios/bbp/loader/heap.c:417-455 | Every address of the heap lies in a block of the tiling. |
| HeapTiling.MergeTiled | src/boot/bios/bbp/loader/heap.c:583-616 | Joining a block with its right neighbour keeps the tiling. |
| HeapTiling.SplitTiled | src/boot/bios/bbp/loader/heap.c:438-455 | Cutting a block in two keeps the tiling, if both parts can stand alone. |
| LoaderHeap.Heap.Create | src/boot/bios/bbp/loader/heap.c:636-664 | A new heap meets the whole invariant with one free, indexed block behind its structure; memory below it is untouched. |
| LoaderHeap.Heap.HeapAlloc | src/boot/bios/bbp/loader/heap.c:666-727 | The whole invariant is kept; a request is met by a block of its own, less than 48 bytes above its rounded size, page aligned on request, and no other used block changes; below the old end only free space is written. It is cut from the block the search order determines, or, if there is none, from the new space and the free block before it; the heap grows exactly then, by the grant. Unaligned, the block is a best fit over all free blocks. A served request fails exactly if no page was granted and nothing was found: no free block is large enough, or with alignment none is eligible; a request that is not served always fails. |
| LoaderHeap.Heap.HeapFree | src/boot/bios/bbp/loader/heap.c:747-766 | The whole invariant is kept; the used blocks become the old ones without this one, which with coalescing determines the new layout; a pointer that is null or fails the header check changes nothing. |
| LoaderHeap.Heap.HeapAllocSize | src/boot/bios/bbp/loader/heap.c:768-776 | The payload size of a live block; zero for a null pointer and for a block that fails the header check. |
| LoaderHeap.Heap.HeapExtend | src/boot/bios/bbp/loader/heap.c:623-634 | New space at the end becomes one free block together with a free last block, no used block changes, and no address of the old range becomes free. |
| LoaderHeap.Heap.HeapMergeLeft | src/boot/bios/bbp/loader/heap.c:583-598 | A free left neighbour leaves the index and is joined with the block; otherwise nothing changes. |
| LoaderHeap.Heap.HeapMergeRight | src/boot/bios/bbp/loader/heap.c:603-616 | A free right neighbour leaves the index and is joined with the block; otherwise nothing changes. |
| LoaderHeap.Heap.HeapSplitBlock | src/boot/bios/bbp/loader/heap.c:438-455 | What lies beyond the offset becomes a block of its own exactly if it has at least 48 bytes. |
| LoaderHeap.Heap.HeapRemove | src/boot/bios/bbp/loader/heap.c:522-554 | Exactly this block leaves the index, in the one way that `HeapTree.RemovedUnique` determines; the layout stays, only free space is written. |
| LoaderHeap.Heap.HeapInsert | src/boot/bios/bbp/loader/heap.c:560-577 | Exactly this block enters the index: as the head of its list, as the first child of the spine block of its size, or on the spine where its size falls; the layout stays, only free space is written. |
| LoaderHeap.Heap.Place | src/boot/bios/bbp/loader/heap.c:687-721 | Carving keeps the invariant: the part left of the page boundary and the leftover on the right are indexed again, and the used block has less than 48 bytes more than asked for. |
| HeapFormat.RepairedCarve | src/boot/bios/bbp/loader/heap.c:681-708 | After the repairs, whatever the search or an extension yields can hold the cut, the request and an index position for every leftover. |
| HeapFormat.CutForPage | src/boot/bios/bbp/loader/heap.c:687-703 | The cut puts the payload on a page boundary; repaired, a leftover is never too small to stand alone. |
| HeapFormat.CutLeast | src/boot/bios/bbp/loader/heap.c:687-703 | The cut is the least number of bytes that puts the payload on a page boundary and, repaired, leaves nothing or at least 48 bytes in front of it. |
| HeapFormat.FitTestExact | src/boot/bios/bbp/loader/heap.c:484-492 | An accepted block really fits at the page boundary exactly if the 64-bit difference in the test did not wrap. |
| HeapFormat.FitTestWraps | src/boot/bios/bbp/loader/heap.c:484-492 | A concrete block that the test accepts although its page boundary lies beyond its end. |
| HeapFormat.FitTestShipped | src/boot/bios/bbp/loader/heap.c:484-492 | What the test as it stands accepts, for every block: at least 48 bytes before the page boundary, and beyond it the request, where a negative rest counts as almost 2^64. |
| HeapFormat.FitTestRepaired | src/boot/bios/bbp/loader/heap.c:484-492 | With the guard the test accepts exactly the blocks that fit. |
| HeapFormat.RequestHonoured | src/boot/bios/bbp/loader/heap.h:75-83 | 64-bit rounding yields a block for the request exactly up to 2^64 - 48 bytes. |
| HeapFormat.RoundedSize | src/boot/bios/bbp/loader/heap.h:75-83 | The block of an honoured request has its size rounded up to the next multiple of 16, and 32 bytes more. |
| HeapFormat.MisfiledSizes | src/boot/bios/bbp/loader/heap.h:83-83 | The sizes without an index position are 1040 and 1056 in the code as it stands, and none after the repair. |
| HeapSearch.Search | src/boot/bios/bbp/loader/heap.c:463-516 | Unaligned: an exact, complete best fit over all lists and the tree. Aligned: an eligible block exactly if there is one, of the smallest size among the eligible; on its list it is the head, if that is aligned, or the first acceptable one along `next`, and in the tree the first acceptable one from the spine block of its size along `child`. Not eligible are the last block of a list (unless it is an aligned head) and tree blocks smaller than the root, which are never looked at. |
| HeapSearch.ChosenUnique | src/boot/bios/bbp/loader/heap.c:463-516 | Without alignment the block that the search returns is determined by the index, so the guard of an allocation asks about that block alone. |
| HeapSearch.ChosenAlignedUnique | src/boot/bios/bbp/loader/heap.c:463-516 | With alignment the block that the search returns is determined by the index too: smallest eligible size, then first in order. |
| HeapSearch.ListWalk | src/boot/bios/bbp/loader/heap.c:474-502 | The aligned search of one list returns the first acceptable block that is not the last, exactly if there is one. |
| HeapSearch.HeadNotEmpty | src/boot/bios/bbp/loader/heap.c:463-516 | A list that holds any block has a head, so testing the heads misses nothing. |
| HeapTree.TreeSearch | src/boot/bios/bbp/loader/heap.c:390-411 | From any root position, the smallest large enough tree block, or none exactly if there is none. |
| HeapTree.TreeSearchAligned | src/boot/bios/bbp/loader/heap.c:332-383 | Terminates from any root position and returns an acceptable tree block at least as large as the root, exactly if there is one: of the smallest such size, the first along its chain. |
| HeapTree.TreeInsert | src/boot/bios/bbp/loader/heap.c:201-271 | From any root position the sorted spine with its chains gains exactly the new block, as the first child of the spine block of its size or else on the spine where its size falls; only link words are written. |
| HeapTree.JoinedUnique | src/boot/bios/bbp/loader/heap.c:201-271 | That leaves one index: where a size falls on the spine is one place, whichever block the walk from the root starts at. |
| HeapTree.TreeDelete | src/boot/bios/bbp/loader/heap.c:277-325 | The structure loses exactly the block: a child is bypassed, the first child of a spine block takes its place, and without a child the neighbours close up, a leaving root giving way to its smaller neighbour or else to the larger one. Unless the block is a spine block with a stale parent link: then only the two words of the wrong branch change. |
| HeapTree.StaleLinkRemains | src/boot/bios/bbp/loader/heap.c:277-325 | After the wrong branch, any well-formed index that memory then holds for the remaining blocks still contains the deleted block, except in the one case of `StrayWriteIsRight`. |
| HeapTree.StrayWriteIsRight | src/boot/bios/bbp/loader/heap.c:277-325 | If the block is not the root, has neither a smaller neighbour nor a child, and its stale parent lies 16 bytes before the larger neighbour, the stray write is the right one: memory then holds the index without the block. |
| HeapTree.IndexRemove | src/boot/bios/bbp/loader/heap.c:522-554 | Removing from list or tree takes out exactly the block and makes no parent link stale but the one of a promoted child. |
| HeapTree.RemovedUnique | src/boot/bios/bbp/loader/heap.c:522-554 | There is one index after the block has left: links, list heads, spine and root are determined. |
| FreeTree.SpineInsertedOk | src/boot/bios/bbp/loader/heap.c:201-271 | Linking a block between two neighbours of the spine keeps the order strict, the two link directions inverse and all chains as they were. |
| FreeTree.ChildInsertedOk | src/boot/bios/bbp/loader/heap.c:201-271 | Hanging an equal-sized block in at the top of a chain keeps every other chain and the spine. |
| FreeTree.ChildRemovedOk | src/boot/bios/bbp/loader/heap.c:277-289 | Taking a block out of a chain keeps the chain equal-sized and its parent links right. |
| FreeTree.PromotedOk | src/boot/bios/bbp/loader/heap.c:290-303 | Putting the first child in the place of a spine block keeps spine, chain and root. |
| FreeTree.SpineRemovedOk | src/boot/bios/bbp/loader/heap.c:304-325 | Taking a childless block out of the spine keeps it sorted and leads the root elsewhere. |
| FreeTree.OnlyOfItsSize | src/boot/bios/bbp/loader/heap.c:277-325 | A spine block without a child is the only indexed block of its size. |
| FreeTree.NeverStale | src/boot/bios/bbp/loader/heap.c:290-303 | After the repair no spine block has a parent link. |
| FreeLists.ListInsert | src/boot/bios/bbp/loader/heap.c:560-577 | Pushing a block to the front of the list of its size writes that update of the index to memory and keeps every list doubly linked; exactly that block is gained, and only link words of indexed blocks and of this one are written. |
| FreeLists.ListRemove | src/boot/bios/bbp/loader/heap.c:522-549 | Unlinking a block from anywhere in its list writes that update of the index to memory and keeps every list doubly linked; exactly that block is lost, and only link words of indexed blocks are written. |
| IndexReach.ListReach | src/boot/bios/bbp/loader/heap.c:463-516 | Every small free block is reached along `next` from the head of the list its size selects. |
| IndexReach.ListHolds | src/boot/bios/bbp/loader/heap.c:463-516 | A list holds only indexed blocks of the size that selects it. |
| IndexReach.ListOnce | src/boot/bios/bbp/loader/heap.c:463-516 | No block is met twice on the lists. |
| IndexReach.SpineReach | src/boot/bios/bbp/loader/heap.c:390-411 | Every spine block is reached from the root, downwards or upwards by size. |
| IndexReach.ChainReach | src/boot/bios/bbp/loader/heap.c:332-383 | Every large free block is reached along `child` from the spine block of its size. |
| IndexReach.ChainHolds | src/boot/bios/bbp/loader/heap.c:332-383 | A chain holds only blocks of the size of its spine block. |
| IndexReach.ChainOnce | src/boot/bios/bbp/loader/heap.c:332-383 | No block is met twice in the tree. |
| HeapBlocks.PayloadWritten | src/boot/bios/bbp/loader/heap.c:417-431 | A write to a live payload leaves headers, footers and links of all blocks, hence the whole invariant. |
| HeapDefects.MisfiledBreaks | src/boot/bios/bbp/loader/heap.c:560-577 | Filing any free block of 1040 or 1056 bytes as the code stands leaves a memory for which no layout and no index meet the invariant. |
| HeapDefects.FirstBlockMisfiled | src/boot/bios/bbp/loader/heap.c:636-664 | An input: a heap created with a first block of 1040 or 1056 bytes is sound before that block is filed, and no later memory is a sound heap. |
| HeapDefects.PromotionStale | src/boot/bios/bbp/loader/heap.c:290-303 | Deleting a spine block that has a child leaves the child with a stale parent link exactly in the code as it stands. |
| HeapDefects.SecondDeleteIsWrong | src/boot/bios/bbp/loader/heap.c:277-325 | An input: of two free blocks of a page each, deleting the first leaves the second one, now on the spine, with a stale parent link, so that its deletion takes the wrong branch. |
| HeapDefects.TwoPagesSound | src/boot/bios/bbp/loader/heap.c:277-325 | These two blocks, with a used page between them, lie in a memory that is a sound and coalesced heap of the code as it stands. |
| HeapCarve.ShippedExtension | src/boot/bios/bbp/loader/heap.c:681-708 | For an aligned request served by an extension, of a heap with any end on a 16-byte boundary, behind a used last block or a free one of any size: as it stands it fits exactly if the distance from the payload to the page boundary is at most the free bytes and what rounding to pages adds; the cut is too small to be a block exactly for a free block 32 or 48 bytes below a page boundary; after the repair it always fits. |
| HeapCarve.ShippedExtensionAligned | src/boot/bios/bbp/loader/heap.c:681-708 | For a heap that ends on a page boundary: it fits exactly if the last block was free or the block is 16 bytes above whole pages; the cut is too small exactly for free sizes 32 or 48 bytes above whole pages. |
| HeapCarve.ExtensionsElsewhere | src/boot/bios/bbp/loader/heap.c:681-708 | Inputs: heaps with other ends, where an extension behind a free block is too short, one behind a used block fits, and a free block of 64 bytes gets a cut of 32. |
| HeapCarve.CarveBeyondBreaks | src/boot/bios/bbp/loader/heap.c:681-721 | A carve that does not fit ends the invariant: as long as the two headers stand that its writes, with their 64-bit differences and footer addresses, leave for the leftover and the returned block, no memory is a sound heap of the same extent in which the block behind is still one. |
| HeapCarve.CarveHeaders | src/boot/bios/bbp/loader/heap.c:438-455 | What those writes leave: the leftover has the size of the cut and the returned block the size asked for, because the missing bytes wrap into a large rest. |
| HeapCarve.WrappedCarve | src/boot/bios/bbp/loader/heap.c:484-492 | An input: a sound heap of one free block that the test accepts for an aligned request it does not fit; after the carve no memory is a sound heap. |
| HeapCarve.ShortExtension | src/boot/bios/bbp/loader/heap.c:681-708 | An input: a sound heap whose first page is handed out, extended by the page that the code asks for; after the carve no memory is a sound heap. |
| HeapCarve.SmallCutBreaks | src/boot/bios/bbp/loader/heap.c:687-703 | A cut too small to be a block ends the invariant: as long as the headers before the block stand, no memory with any layout that has the carved block is a sound heap. |
| HeapCarve.CarveLeavesHeaders | src/boot/bios/bbp/loader/heap.c:687-703 | The two writes of such a carve leave all headers before the block, so it is the carve itself that breaks the heap. |
| HeapCarve.SmallCuts | src/boot/bios/bbp/loader/heap.c:687-703 | Inputs: free last blocks of 48 and of 4128 bytes get cuts of 32 and 16 bytes; after the repair the cut is a page longer. |
| HeapCarve.CarveNeedsSixteen | src/boot/bios/bbp/loader/memory.c:65-68 | An aligned carve leaves headers that are part of some tiling exactly if the heap starts on a 16-byte boundary. |
| HeapCarve.OddStart | src/boot/bios/bbp/loader/memory.c:65-80 | An input: eight bytes placed before the switch and one extension; the aligned carve of the free block is part of no tiling. |
| HeapRealloc.Realloc | src/boot/bios/bbp/loader/heap.c:729-745 | The block stays exactly if its payload is larger than the size rounded down; a moved one, page aligned on request, keeps all words of the old payload, the old pointer is dead, the words other clients stored survive; the call fails exactly if the block must move and the size cannot be rounded or no block can be had, and then everything stays live. |
| HeapRealloc.ReallocAsItStands | src/boot/bios/bbp/loader/heap.c:729-745 | As it stands the call never returns from taking the lock a second time exactly if the block must move; if it stays, nothing changes. |
| HeapRealloc.ReallocWithoutLock | src/boot/bios/bbp/loader/heap.c:729-745 | With the lock taken away, exactly when each of its outcomes comes about: the block stays; or moves with all its words to one that holds the size; or, if the rounding wraps, is answered with a block for 16 bytes, which the copy overruns, footer first, exactly if the old payload is larger than the new one; or is lost, because a refusal goes unnoticed and the copy to address 0 ends below the heap; or else that copy overruns the heap structure. |
| HeapRealloc.MemCopy | src/boot/bios/bbp/loader/lib.c:47-50 | The copy becomes a word-for-word image of the old payload; nothing outside it is written, and the layout stays. |
| HeapRealloc.RoomEitherWay | src/boot/bios/bbp/loader/heap.c:729-745 | Although the size is rounded down, a block kept in place and a block asked for both hold it. |
| MemoryManager.Manager.Run | src/boot/bios/bbp/loader/memory.c:61-139 | For any mix of the four allocators, freeing and the switch to the heap: each request is answered as it must be at its moment (the next place, before the switch; a new heap block after it, aligned and cleared on request, or null exactly if the heap cannot meet it), a heap request leaves all other used blocks and everything that was not free space, and in the end no two regions in use overlap. |
| MemoryManager.Manager.Serve | src/boot/bios/bbp/loader/memory.c:61-139 | One request: its answer and the new state of the allocator are as `Responds` demands, and memory placed before the switch keeps its contents. |
| MemoryManager.Manager.InUseApart | src/boot/bios/bbp/loader/memory.c:61-139 | In every reachable state regions placed before the switch, and heap blocks, are pairwise disjoint. |
| MemoryManager.Manager.MemInitHeap | src/boot/bios/bbp/loader/memory.c:65-68 | The heap structure starts where placement stopped and the heap ends a page behind; it is one free block; memory below stays as it was. |
| MemoryManager.Manager.MemAlloc | src/boot/bios/bbp/loader/memory.c:69-80 | A new region of its own: at the placement address before the switch; after it a heap block, or null exactly if the heap cannot meet the request, and nothing is written but what was free space. Placed memory keeps its contents. |
| MemoryManager.Manager.MemAllocAlign | src/boot/bios/bbp/loader/memory.c:81-94 | The same, and the region starts on a page boundary. |
| MemoryManager.Manager.MemAllocClean | src/boot/bios/bbp/loader/memory.c:95-110 | The same as for the plain allocator, and the region is all zero. |
| MemoryManager.Manager.MemAllocAc | src/boot/bios/bbp/loader/memory.c:111-128 | The same as for the aligned allocator, and the region is all zero. |
| MemoryManager.Manager.MemFree | src/boot/bios/bbp/loader/memory.c:135-139 | Before the switch nothing changes; after it exactly the given block goes and no other used block is written; a null pointer or one without a block in front of it, as with placed regions, changes nothing. |
| MemoryManager.ClearPayload | src/boot/bios/bbp/loader/memory.c:95-110 | Clearing all of a new block, also beyond the size asked for, writes that payload alone and keeps the heap and what other clients stored. |
| MemoryManager.ClearedStep | src/boot/bios/bbp/loader/memory.c:95-128 | The payload of a new block was free space before, so that clearing it is still a step that leaves everything else as it was. |
| LoaderPaging.PageTables.PageIdMap | src/boot/bios/bbp/loader/paging.c:477-529 | Succeeds exactly if the page was unmapped and then maps that page alone; otherwise changes nothing; every entry in use stays bit for bit; the new entries, of the page and of as many tables as the path lacked, are present, writable, not for user mode, written through and not cached, whatever the mmio flag says; nothing but tables is written, and the tree stays unshared. |
| LoaderPaging.PageTables.PageResolve | src/boot/bios/bbp/loader/paging.c:639-654 | Agrees with the flat map on mapped pages; an unmapped page resolves to its bare offset if its last-level table exists, and to zero if not. |
| LoaderPaging.PageTables.PageFault | src/boot/bios/bbp/loader/paging.c:586-622 | Maps the faulting page exactly if it was unmapped and its last-level table was missing or the address is page aligned; reports failure exactly if the page was mapped to frame zero and the address is page aligned. |
| LoaderPaging.PageTables.MapRegion | src/boot/bios/bbp/loader/paging.c:561-568 | Adds exactly the pages its rounds reach above 2MB, their numbers cut to 48-bit addresses, and moves none; it keeps an identity map one if the region has 48-bit addresses. |
| LoaderPaging.TouchedLow | src/boot/bios/bbp/loader/paging.c:561-568 | For a region with 48-bit addresses the pages reached are those from its first page on, one for each round, above 2MB. |
| LoaderPaging.RegionReached | src/boot/bios/bbp/loader/paging.c:561-568 | All pages that a region overlaps are reached exactly if its misalignments at both ends add up to less than a page. |
| LoaderPaging.RegionMissed | src/boot/bios/bbp/loader/paging.c:561-568 | An input: a region of one page's length from the middle of a page on, whose second page is not reached. |
| LoaderPaging.IdentityStep | src/boot/bios/bbp/loader/paging.c:477-529 | Mapping an address to itself is an identity mapping exactly if no frame bit beyond the 48-bit address is set. |
| PageTree.TableAdded | src/boot/bios/bbp/loader/paging.c:486-509 | Hanging a blank table into an absent entry keeps the tree and everything it maps. |
| PageTree.PageAdded | src/boot/bios/bbp/loader/paging.c:512-525 | Filling an absent last-level entry adds one page to the map and keeps all other translations. |
| PageTree.PmlIdxIsIdx | src/boot/bios/bbp/loader/paging.c:90-90 | The four 9-bit fields of an address are the digits of its page number. |
| PageTree.CanonicalVpn | src/boot/bios/bbp/loader/paging.h:64-66 | Cutting an address to 48 bits keeps its page number. |
| PageCount.TableCount | src/boot/bios/bbp/loader/paging.c:486-509 | The tables number one plus the distinct values of the page numbers shifted by 27, 18 and 9 bits. |
| PageCount.EmptyRoot | src/boot/bios/bbp/loader/paging.c:486-509 | A cleared root is a tree of one table that maps nothing: where the count starts. |
| PageCount.TablesAreNeeded | src/boot/bios/bbp/loader/paging.c:486-509 | A table exists exactly if it is the root or lies on the path of a mapped page. |
| PageRuns.Run | src/boot/bios/bbp/loader/paging.c:531-622 | From the bootstrap tables through `page_init` and any page faults, with the tables between the phases and before each fault: the first 2MB and all wanted pages are mapped, and so is the page of each fault that is served; no other page is. `page_init` adds only pages from 2MB on that entries of type 1 cover, and all of these if the entries start on page boundaries. By 48-bit addresses each mapped page is mapped to itself; and the tables are exactly counted. |
| PageRuns.PageInit | src/boot/bios/bbp/loader/paging.c:531-582 | Whatever the order of the memory map, exactly the pages its entries of type 1 reach from 2MB on are added, none is moved, and with 48-bit addresses an identity map stays one. A page that no entry of type 1 covers is not added; one that an entry on a page boundary covers is. |
| PageRuns.Faults | src/boot/bios/bbp/loader/paging.c:586-622 | For any run of page faults, each with its exact effect on the mapped pages and its exact code: the pages of all faults that are served, at a page's start or without a last-level table at that moment, are mapped in the end; no other page is new, none moves, and with 48-bit addresses an identity map stays one. |
| PageRuns.FaultsServed | src/boot/bios/bbp/loader/paging.c:586-622 | What a sequence of fault steps comes to: exactly the pages of faults are new, all served ones among them, and no page moves. |
| PageRuns.NeighbourUnserved | src/boot/bios/bbp/loader/paging.c:586-654 | An input: with one page mapped, a fault inside the next page maps nothing and reports no failure. |
| PageRuns.AlignedRegionWanted | src/boot/bios/bbp/loader/paging.c:561-568 | Every page from 2MB on that has a byte of a region of type 1 which starts on a page boundary is mapped by `page_init`, its number cut to 48-bit addresses. |
| PageRuns.WantedCovered | src/boot/bios/bbp/loader/paging.c:561-568 | Only pages from 2MB on that have a byte of a region of type 1 are mapped. |
| PageRuns.SmallMachineMapped | src/boot/bios/bbp/loader/paging.c:531-582 | An input: of the memory map of a machine with 128MB exactly the pages from 2MB to the end of usable memory are mapped. |
| PageRuns.SmallMachineTotal | src/kernel/memory/paging.c:145-158 | The same input: the kernel's total reaches to the end of the ACPI tables. |
| PageRuns.SmallMachineAvailable | src/kernel/memory/paging.c:145-158 | The same input: the available memory is that of its two entries of type 1. |
| PageRuns.MappedResolvesToItself | src/boot/bios/bbp/loader/paging.c:639-654 | Under an identity map each address of a mapped page below 2^48 resolves to itself. |
| BootPages.Boot.SetupPages | src/boot/bios/bbp/boot/main32.c:84-157 | The flat arrays are a tree of page tables without sharing that maps exactly the pages below the amount, each to itself; every entry in use, of pages and of tables, is present, writable, not for user mode, written through and cached, bit by bit; the tables fill the frames from the next page boundary on, and nothing else is written. |
| BootPages.BootTreeOk | src/boot/bios/bbp/boot/main32.c:119-156 | Four contiguous arrays with consecutive frames are a four-level tree, by the digits of the page number. |
| BootPages.BootNeeded | src/boot/bios/bbp/boot/main32.c:91-117 | Every bootstrap table lies on the path of a mapped page. |
| BootPages.BootCount | src/boot/bios/bbp/boot/main32.c:91-117 | There are as many tables as frames reserved for them, all inside the reserved range. |
| BootPages.BootTablesInside | src/boot/bios/bbp/boot/main32.c:91-117 | From 2MB on all bootstrap tables lie inside the range they map. |
| BootPages.Boot.FillEntries | src/boot/bios/bbp/boot/main32.c:125-156 | Each of the four loops leads the first entries to consecutive frames and leaves the rest of the array zero. |
| BootPages.Boot.MemAlloc | src/boot/bios/bbp/boot/main32.c:72-79 | Without 32-bit overflow, regions follow each other, from a page boundary on if wanted. |
| KernelPaging.KernelTables.PageMap | src/kernel/memory/paging.c:240-291 | Maps the page of the address unless it is mapped, in which case nothing changes; every entry in use stays bit for bit; the entries of the page and of new tables are present and writable, with no other bit below the frame; returns the canonical address; new tables take the next frames, one each, so that tables never share a frame; nothing but tables is written. |
| KernelPaging.KernelTables.PageMapMmio | src/kernel/memory/paging.c:292-343 | The same translation as `page_map`, state for state; the new entries, of the page and of new tables, are also write-through and uncached, and no other bit differs. |
| KernelPaging.KernelTables.PageResolve | src/kernel/memory/paging.c:344-363 | Agrees with the flat map everywhere: zero for an unmapped page. |
| KernelPaging.KernelTables.Run | src/kernel/memory/paging.c:240-343 | Any interleaving of both maps exactly the pages asked for, moves none, keeps an identity map one below 2^48, gives every new table a frame of its own, and leaves as many tables as the mapped page numbers have distinct prefixes, and the root. The first call that asks for a page decides whether it is cached, and later ones change no bit; nothing but tables is written. |
| KernelPaging.ResolvesToItself | src/kernel/memory/paging.c:344-363 | Under an identity map every address below 2^48 resolves to zero or to itself. |
| KernelPaging.NormalizeCanonical | src/kernel/memory/paging.c:230-239 | Normalizing is idempotent, keeps page number and offset, and leaves alone exactly the canonical addresses. |
| KernelPaging.FrameBitsDistinct | src/kernel/memory/paging.c:94-119 | No two frames have the same bit number, whichever the divisor. |
| KernelPaging.FrameBitsFit | src/kernel/memory/paging.c:94-119 | A bitset of one bit per frame holds all their bits exactly if the divisor is 4096 or there are at most 151 frames. |
| KernelPaging.FramesShare | src/kernel/memory/paging.c:94-119 | Two frames' masks meet in one word exactly in the code as it stands and for bit numbers 32 apart in one word, where the shift count is masked to five bits and bit 31 is sign-extended. |
| KernelPaging.MaskBits | src/kernel/memory/paging.c:94-119 | Bit by bit: after the repair a mask is the one bit of its offset; as it stands it is one of the bits 0 to 30 or, for offsets 31 and 63, all bits from 31 on. |
| KernelPaging.FirstSharesWith33rd | src/kernel/memory/paging.c:94-119 | An input: the first frame and the 33rd share a mask in the code as it stands, and not after the repair. |
| KernelPaging.FrameBitset.SetFrame | src/kernel/memory/paging.c:94-99 | Marking a frame marks exactly the frames that share a mask bit with it: after the repair that one alone. |
| KernelPaging.FrameBitset.ClearFrame | src/kernel/memory/paging.c:104-109 | Clearing a frame clears exactly the frames that share a mask bit with it: after the repair that one alone. |
| MemoryMap.SortE820 | src/boot/bios/bbp/loader/paging.c:156-176 | In spite of its early exit the bubble sort terminates with a sorted permutation that keeps entries of equal base in order. |
| MemoryMap.Pass | src/boot/bios/bbp/loader/paging.c:162-175 | One round puts a largest entry of the open part in its place; a round without an exchange proves the whole map sorted. |
| MemoryMap.SortedUnique | src/boot/bios/bbp/loader/paging.c:156-176 | There is only one sorted stable permutation of a map: the result is what any stable sort gives. |
| MemoryMap.Totals.SortAndCount | src/kernel/memory/paging.c:125-159 | The total is the largest end, modulo 2^64, of all entries that are not of type 2, and the available memory the sum of the lengths of those of type 1, of the map in the order it came. |
| MemoryMap.SumAnyOrder | src/kernel/memory/paging.c:145-158 | A sum over the entries is the same for every permutation of the map. |
| MemoryMap.LargestEndAnyOrder | src/kernel/memory/paging.c:145-158 | The largest end is the same for every permutation of the map. |
| Numerals.RoundTrip | src/boot/bios/bbp/loader/lib.c:109-167 | Parsing the decimal text of a 64-bit value gives it back, the smallest included, once the sign is stepped over; as it stands exactly the negative values are lost and read as zero. |
| Numerals.PrintThenParse | src/boot/bios/bbp/loader/lib.c:109-167 | The same round trip run through memory: printing into a buffer, terminating and parsing give the value back, or zero for a negative one in the code as it stands. |
| Numerals.IntToStr | src/boot/bios/bbp/loader/lib.c:109-143 | Writes the canonical numeral, cut to the length of the destination, and returns how much it wrote. |
| Numerals.BufferSuffices | src/boot/bios/bbp/loader/lib.c:66-68 | The 32-byte buffer holds every 64-bit value exactly in the bases from four on. |
| Numerals.StrToInt | src/boot/bios/bbp/loader/lib.c:144-167 | Skips blanks and accumulates decimal digits; wrapping at each step equals wrapping once at the end. |
| Numerals.ValueOfNumeral | src/boot/bios/bbp/loader/lib.c:109-167 | The numeral of a number has that number as its value and consists of decimal digits. |
| Numerals.NumeralMeans | src/boot/bios/bbp/loader/lib.c:113-138 | In every base from 2 to 36: the numeral consists of the digits 0 to 9 and A to Z below the base, has no needless zero in front, and its value in that base is the number. |
| Numerals.NumeralUnique | src/boot/bios/bbp/loader/lib.c:113-138 | No other text of that form has that value: printing the value of a numeral gives the numeral back. |
| Numerals.TextMeans | src/boot/bios/bbp/loader/lib.c:126-141 | A negative number has a sign exactly in base 10; in every other base its text is that of its amount. |
| Numerals.HexOf255 | src/boot/bios/bbp/loader/lib.c:113-141 | An input: 255 and -255 print the same in base 16. |
| Numerals.StrCopy | src/boot/bios/bbp/loader/lib.c:70-81 | Copies up to the end of the text or the given length, whichever comes first, and nothing behind it. |
| PciScan.CachedOnce | src/boot/bios/bbp/loader/pci.c:112-146 | Where the recursion ends, with at most one bridge to a bus and fewer than 256 functions, the cache holds exactly the functions that can be reached from a host controller; no function has two lines exactly if no host controller's bus, with anything on it, lies behind a bridge of another's; and the lines stay inside the allocated bytes exactly if there are at most 170. |
| PciScan.HostsComplete | src/boot/bios/bbp/loader/pci.c:124-138 | A function is found exactly if the scan looks at it and bridges lead to its bus from bus 0 or, if function 0 of device 0 there says there are several host controllers, from one of the buses 0 to 7 that have a function 0. |
| PciScan.HostsOnce | src/boot/bios/bbp/loader/pci.c:124-138 | With at most one bridge to a bus, nothing is found twice exactly if no host controller's bus, with anything on it, lies behind a bridge of another's. |
| PciScan.CachedTwice | src/boot/bios/bbp/loader/pci.c:124-138 | An input: with several host controllers announced, the device behind a bridge to bus 1 is taken for one and found twice. |
| PciScan.SecondHostFound | src/boot/bios/bbp/loader/pci.c:124-138 | An input: a host controller on bus 5 is found. |
| PciScan.LinesFit | src/boot/bios/bbp/loader/pci.c:119-119 | The lines that a scan writes stay inside the 2048 bytes allocated for them exactly if it finds at most 170 functions. |
| PciScan.CacheOverrun | src/boot/bios/bbp/loader/pci.c:112-146 | An input: 32 devices of eight functions, of which the scan as it stands caches 224 and so writes beyond the allocation. |
| PciScan.ScanEnds | src/boot/bios/bbp/loader/pci.c:204-258 | The recursion from a bus ends exactly if no loop of bridges can be reached from it, and then it is at most 255 bridges deep. |
| PciScan.ScanLoops | src/boot/bios/bbp/loader/pci.c:251-257 | An input: two bridges that lead to each other's bus, for which the recursion has no depth; only a bridge to its own bus is guarded against. |
| PciScan.ListingComplete | src/boot/bios/bbp/loader/pci.c:204-258 | Where the recursion ends, the scan finds exactly the functions it looks at on the buses that bridges connect to the root. |
| PciScan.ListingOnce | src/boot/bios/bbp/loader/pci.c:204-258 | If no two bridges lead to one bus, nothing is found twice. |
| PciScan.MissedFunctions | src/boot/bios/bbp/loader/pci.c:211-231 | Of what it would find from function 0 on, the scan as it stands misses exactly function 0 of each multifunction device and whatever lies on a bus it cannot reach without those. |
| PciScan.LostBuses | src/boot/bios/bbp/loader/pci.c:211-258 | With at most one bridge to a bus, a bus is lost to the scan exactly if a bridge that is function 0 of a multifunction device lies on the way to it. |
| PciScan.MissedBehindBridge | src/boot/bios/bbp/loader/pci.c:211-258 | A configuration in which a single-function device is missed because the bridge in front of it is skipped. |
| PciScan.Scanner.EnumBus | src/boot/bios/bbp/loader/pci.c:204-209 | Where the recursion ends, it appends the listing of the bus to the cache, whose 8-bit length wraps. |
| PciScan.Scanner.EnumFunction | src/boot/bios/bbp/loader/pci.c:233-258 | Caches a present function and then all that lies behind it, if it is a bridge to another bus. |
| PciScan.Scanner.PciInit | src/boot/bios/bbp/loader/pci.c:112-146 | Finds exactly the functions it looks at on the buses to which some host controller leads, in the order of the buses; succeeds exactly if the 8-bit count is not zero. |
| PciScan.Scanner.NumDevice | src/boot/bios/bbp/loader/pci.c:148-157 | The number of cached functions of a class. |
| PciScan.Scanner.GetDevice | src/boot/bios/bbp/loader/pci.c:159-172 | Succeeds exactly for indices below the number of functions of the class, and gives the one at that place. |
| PciScan.MatchesExact | src/boot/bios/bbp/loader/pci.c:148-172 | The functions of a class are those found that have it, each once if each was found once, so different indices give different functions. |

## Left out

- HeapSearch.Search: with alignment the best fit is one among the eligible blocks, and a fitting block may be missed: the list walk never tests a last block (heap.c:475), and the tree search starts at the root, not at the smallest block that fits. What is missed is stated exactly.
- HeapRuns.Run: for the code as it stands whole runs are sessions (`Session`) whose requests meet the guards at their moments; when a long run leads to a moment that no guard lets through is not said.
- HeapRealloc.ReallocWithoutLock: memory is not followed once a copy has overrun a block or the heap structure, and a null pointer, with which the call only allocates, is left to `Realloc`.
- LoaderHeap.Heap.HeapFree: a pointer that passes the header check is taken to be live; foreign and dead pointers are the caller's matter, since the magic numbers do not tell them apart.
- LoaderHeap.Heap.Create: the start address is a multiple of 16 (what happens otherwise is `CarveNeedsSixteen`), and for the code as it stands the first block has an index position (otherwise `FirstBlockMisfiled`); addresses stay below 2^52, the limit of a page table entry.
- MemoryManager.Manager.MemInitHeap: the placement address is a multiple of 16 and a page below 2^52; `Run` passes over a switch at another address, whose heap `OddStart` shows to fail.
- MemoryManager.Manager.Run: uses the repaired heap; a request that would take placement beyond 64 bits, and a free of a pointer that looks like a block but was never handed out, are passed over and answered so; clearing goes by words, so that the last word of a placed region may reach into space not yet handed out.
- MemoryManager.Manager.MemFree: after the switch a pointer with a block in front of it is taken to be live, as for `HeapFree`.
- KernelPaging.KernelTables.PageMap: physical addresses are below 2^52, as the entry format has it; running out of physical memory is not checked, as in the code; the bitset that it marks its frames in is modelled on its own (`FrameBitset`), not inside the map functions.
- LoaderPaging.PageTables.MapRegion: a region lies in the 64-bit address space, so that no address of it wraps.
- PciScan.Scanner.EnumBus: needs that the recursion ends, for which `ScanEnds` gives the exact condition. The lines written beyond the allocation of the cache are counted (`LinesFit`), but what they overwrite is not modelled.
- Numerals.IntToStr: the base lies between 2 and 36 and the numeral must fit the buffer, which the code does not check.
- The block allocator for physical pages in the loader's `paging.c` (`page_tree_*`, `page_free_*`, `page_merge_*`, `page_alloc`): unfinished, blocks found are never removed or split.
- `heap_t` words other than `free[]` are fields, not memory; `max_addr` is stored but never read.
- The spin lock as a protocol between processors: it is not an atomic test and set. Sequentially it is free after every operation. `heap_extend` reaching `mem_alloc_align`, and with it the locked heap, through `page_alloc` is not modelled.
- `mem_realloc` and `mem_free_clean`: compositions of operations that are modelled.
- The kernel's `page_init`, which clears memory at the number of frames instead of at the bitset.
- `page_get_pml_entry` and `page_set_pml_entry` of the kernel: the latter falls through and writes lower levels.
- Block sizes' `aligned` and `reserved` bits, debug output, `invlpg`, CR3, port I/O, storage, interrupts, ACPI, video, `gpt.c`, formatted output.
