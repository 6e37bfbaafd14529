# MfgAllocators in Dafny

A model of the three allocators of MfgAllocators and the base class they share. Each one manages a single arena that the caller supplies:

- **Allocator** (`src/Allocator.cpp`) keeps the arena pointer and size, zeroes the arena on construction and, when `MFG_MEMORY_REPORT` is on, counts used bytes and live allocations.
- **BlockAllocator** (`src/BlockAllocator.cpp`) keeps free blocks with an in-arena `{size, next}` header on a singly linked, address-ordered list.
  - `allocate` scans for the best fit and carves it, unlinking an exact fit or leaving the tail free. It writes a one-word size tag and returns the pointer just past it.
  - `deallocate` walks to the block's address position and merges it with the free blocks it touches.
- **PoolAllocator** (`src/PoolAllocator.cpp`) cuts the arena into fixed-size slots on an intrusive free list. `allocate` pops the head; `deallocate` zero-fills the slot and pushes it.
- **StackAllocator** (`src/StackAllocator.cpp`) keeps a bump marker with checkpoint and rewind.

The arena is an `array<int>` indexed by byte offset. Pointers are offsets, and `Null` (-1) is `nullptr`. The word size `W` is 8 and `sizeof(Block)` (`HeaderSize`) is 16. A word the code stores in the arena (a block size, a link or a size tag) is one cell at the word's offset holding the whole value.

Each allocator is a class that holds its `Allocator` base as a `const` field. The block and pool allocators each keep a ghost sequence of their free list, and a `Valid()` predicate ties that sequence to the cells in the arena. The stack allocator has no free list; its `Valid()` bounds the marker. The block allocator's list functions (`Scan`, `BestFit`, `Carve`, `Release`) are values in module `FreeList`. The class methods in module `Blocks` are proved to follow them, and the lemmas in `FreeList` say what they guarantee.

Assertions (`ASSERT`) are compiled out unless `MFG_ASSERTION` is defined, so each one is a precondition here, except `ASSERT(false)` on the no-fit path of the block allocator, where the model follows the `return nullptr` after it. `MFG_MEMORY_REPORT` is the `report` flag of the base state. The counters are a `size_t` and a `uint32_t`, and they wrap as those types do.

Where the header comment and the code disagree, the model follows the code. `isOutOfMemory` is true exactly when the arena pointer is null; it says nothing about how full the arena is (see `Stack.FullStackIsNotOutOfMemory`).

## Model

| member | source | states |
|---|---|---|
| Arena.Memset | src/Allocator.cpp:27 | memset of [lo, hi): those cells become zero and no other cell changes |
| Arena.Allocator.constructor | src/Allocator.cpp:21-32 | requires size > 0; stores the arena and size unchanged, zeroes every cell of the arena, counters start at 0 |
| Arena.Allocator.IsOutOfMemory | src/Allocator.cpp:38 | true if and only if the arena pointer is null |
| Arena.Allocator.GetMemory | src/Allocator.cpp:39 | returns the arena that was stored |
| Arena.Allocator.GetSize | src/Allocator.cpp:40 | returns the size that was stored |
| Arena.Allocator.GetUsedSize | src/Allocator.cpp:43 | with reporting on, returns the used-bytes counter, a size_t value |
| Arena.Allocator.GetNumberOfAllocations | src/Allocator.cpp:44 | with reporting on, returns the allocation counter, a uint32_t value |
| Arena.Allocator.CountAllocation | src/PoolAllocator.cpp:40-43 | with reporting on, used grows by n modulo 2^64 and the count by 1 modulo 2^32; with it off nothing changes |
| Arena.Allocator.CountRelease | src/PoolAllocator.cpp:53-56 | with reporting on, used drops by n and the count by 1, both wrapping; with it off nothing changes |
| Arena.Allocator.ResetCounters | src/StackAllocator.cpp:62-65 | with reporting on, both counters become 0 |
| Stack.StackAllocator.constructor | src/StackAllocator.cpp:21-26 | requires size > 0; the arena is zeroed, the marker is 0 and the counters are 0 |
| Stack.StackAllocator.Allocate | src/StackAllocator.cpp:30-42 | requires size > 0 and marker + size <= mSize; returns the old marker, raises the marker by exactly size, keeps 0 <= marker <= mSize and updates the counters |
| Stack.StackAllocator.Deallocate | src/StackAllocator.cpp:44-46 | changes nothing (no modifies clause) |
| Stack.StackAllocator.DeallocateTo | src/StackAllocator.cpp:48-57 | requires m <= marker; sets the marker to m; used drops by the rewound bytes but the count drops by exactly one |
| Stack.StackAllocator.Clear | src/StackAllocator.cpp:59-66 | marker becomes 0 and the counters are reset; no arena cell changes |
| Stack.StackAllocator.GetMarker | src/StackAllocator.cpp:68 | returns the marker, which lies in [0, mSize] |
| Stack.ConsecutiveAllocations | src/StackAllocator.cpp:30-42 | two allocations in a row return offsets exactly a apart |
| Stack.RewindReusesOffset | src/StackAllocator.cpp:30-57 | after deallocateTo(getMarker()) the next allocation returns the same offset again |
| Stack.FullStackIsNotOutOfMemory | src/Allocator.cpp:38 | a stack allocated up to mSize still does not report itself out of memory |
| FreeList.Scan | src/BlockAllocator.cpp:39-64 | the candidate pair (bestFit, bestFitPrev) the scan ends with, as list indices with -1 for null; its properties are ScanUpTo's contract, ScanInvariant and SoundScanIsBestFit |
| FreeList.HeadTestIsTooSmall | src/BlockAllocator.cpp:44 | with size_t subtraction wrapping, the head test holds if and only if the head is smaller than newSize |
| FreeList.ScanUpTo | src/BlockAllocator.cpp:39-64 | the candidate pair stays within the list; there is no candidate if and only if the list is just a head that is too small |
| FreeList.BestFit | src/BlockAllocator.cpp:48-59 | reference best fit: -1 exactly when no block fits; otherwise a fitting block that no fitting block undercuts, with ties going to the earlier block |
| FreeList.BestFitUnique | src/BlockAllocator.cpp:48-59 | there is at most one best fit |
| FreeList.ScanInvariant | src/BlockAllocator.cpp:39-59 | what the scan keeps true node by node: the candidate is the initial one, or a fitting, strictly smaller later node found with its true predecessor, and ties keep the earlier node |
| FreeList.SoundScanIsBestFit | src/BlockAllocator.cpp:39-59 | when the scan's outcome is usable (no candidate, or a fitting one with its predecessor), it is exactly the best fit |
| FreeList.HeadFitScanIsSound | src/BlockAllocator.cpp:40-59 | when the head fits, the scan is sound and finds the best fit |
| FreeList.HeadQuirkPicksUnfitBlock | src/BlockAllocator.cpp:44-46 | with blocks of 24 and 30 bytes and newSize 40, the scan picks the second block, which does not fit |
| FreeList.HeadQuirkLosesHead | src/BlockAllocator.cpp:44-46 | with blocks of 24 and 100 bytes and newSize 40, the second block is picked with no predecessor, so the scan is unsound, although the best fit is that same block |
| FreeList.HeadQuirkLeavesRunt | src/BlockAllocator.cpp:44-46 | a 50-byte head is kept for newSize 40 although the 10 bytes left over cannot hold a header |
| FreeList.BestFitExample | src/BlockAllocator.cpp:48-59 | with blocks of 100, 40 and 64 bytes, 48 bytes take the 64-byte block and 50 bytes take the 100-byte one |
| FreeList.Carve | src/BlockAllocator.cpp:66-85 | the list after block k serves newSize bytes: an exact fit is unlinked, otherwise its tail takes its place; its properties are CarveWellFormed, CarveTotal, CarveCovers and CarveTakes |
| FreeList.CarveWellFormed | src/BlockAllocator.cpp:66-85 | unlinking or splitting the chosen block keeps the list in address order, with gaps and headers |
| FreeList.CarveTotal | src/BlockAllocator.cpp:66-85 | free bytes drop by exactly newSize |
| FreeList.CarveCovers | src/BlockAllocator.cpp:66-85 | a byte is free after the carve if and only if it was free before and is not among the newSize bytes taken |
| FreeList.CarveTakes | src/BlockAllocator.cpp:66-85 | none of the bytes handed out is free afterwards |
| FreeList.Position | src/BlockAllocator.cpp:107-118 | the walk stops at the first block at or past the end, and every block before it starts below the end |
| FreeList.PositionIs | src/BlockAllocator.cpp:111-118 | any index with those two properties is the walk's stopping point |
| FreeList.PositionSplits | src/BlockAllocator.cpp:107-118 | for a block that overlaps no free block, blocks before the stopping point end by its start and blocks from it on start at or after its end |
| FreeList.Release | src/BlockAllocator.cpp:107-139 | the list after a block is given back at its address position, merged with the neighbours it touches; its properties are ReleaseWellFormed, ReleaseTotal and ReleaseCovers |
| FreeList.MergedSpan | src/BlockAllocator.cpp:120-139 | the merged block runs from the absorbed predecessor (or the block) to the absorbed successor (or the block's end), its size is the sum, and each absorbed neighbour touches the block |
| FreeList.ReleaseWellFormed | src/BlockAllocator.cpp:107-139 | giving back a block that overlaps no free block keeps the list address-sorted with no two blocks touching |
| FreeList.ReleaseTotal | src/BlockAllocator.cpp:120-139 | free bytes grow by exactly the size in the tag |
| FreeList.ReleaseCovers | src/BlockAllocator.cpp:120-139 | a byte is free after the release if and only if it was free before or lies in the block given back |
| FreeList.FreshRoundTrip | src/BlockAllocator.cpp:66-139 | on the single block {0, mSize}, carving newSize bytes and giving them back restores that block |
| FreeList.ReleaseIntoNothing | src/BlockAllocator.cpp:120-123 | given back to an empty list, the block becomes the only block |
| FreeList.ReleaseApartBefore | src/BlockAllocator.cpp:120-123 | a block ending short of the only free block is linked before it |
| FreeList.ReleaseJoinsFront | src/BlockAllocator.cpp:120-139 | a block ending where the only free block starts absorbs it |
| FreeList.ReleaseJoinsBack | src/BlockAllocator.cpp:124-128 | a block starting where the only free block ends grows that block |
| FreeList.ReleaseBetween | src/BlockAllocator.cpp:124-139 | a block filling the gap between two free blocks merges all three |
| FreeList.CoalescingIsOrderIndependent | src/BlockAllocator.cpp:66-139 | two blocks carved from a fresh arena come back as the single original block, whichever is freed first |
| Blocks.FindBestFit | src/BlockAllocator.cpp:39-59 | the pointer loop over the headers ends with the candidate and predecessor of the scan |
| Blocks.FindPosition | src/BlockAllocator.cpp:107-118 | the pointer loop ends on the block at the stopping point, with prev on the block before it |
| Blocks.LinkIn | src/BlockAllocator.cpp:120-132 | the three cases exactly: insert at the head, grow the predecessor and zero the tag, or link after the predecessor |
| Blocks.AbsorbNext | src/BlockAllocator.cpp:134-139 | when the next block starts at the block's end, its size and link move into the block and its header is cleared; otherwise nothing changes |
| Blocks.HeadersAfterCarve | src/BlockAllocator.cpp:66-87 | after the carve writes, every header of the carved list is in place |
| Blocks.HeadersAfterRelease | src/BlockAllocator.cpp:120-139 | after the release writes, every header of the released list is in place |
| Blocks.ReleaseState | src/BlockAllocator.cpp:120-139 | the cells after link and absorb hold a well-formed released list whose head is the new mBlocks |
| Blocks.CheckSize | src/BlockAllocator.cpp:150-152 | reads the size tag one word before a pointer; Blocks.BlockAllocator.Allocate proves it gives newSize for the pointer it returns |
| Blocks.BlockAllocator.constructor | src/BlockAllocator.cpp:21-29 | requires mSize > sizeof(Block); the whole arena is one free block {0, mSize, null} and every other cell is zero |
| Blocks.BlockAllocator.Clear | src/BlockAllocator.cpp:142-148 | zeroes the arena and restores the constructor's single free block |
| Blocks.BlockAllocator.Take | src/BlockAllocator.cpp:66-87 | the list becomes Carve of the old list, the tag newSize is at the block's start, and only that block's cells and the link into it change |
| Blocks.BlockAllocator.Allocate | src/BlockAllocator.cpp:33-94 | with no candidate, returns null and changes nothing; otherwise returns the block start + W, carves it, free bytes drop by newSize, CheckSize gives newSize, the bytes handed out are not free, other cells are unchanged and the counters are updated |
| Blocks.BlockAllocator.Insert | src/BlockAllocator.cpp:120-139 | the list becomes Release of the old list; only the merged block's cells and the link into it change |
| Blocks.BlockAllocator.Deallocate | src/BlockAllocator.cpp:96-140 | the list becomes Release of the old list with the block the tag describes, free bytes grow by the tag, a byte is free if and only if it was free or is in the block, other cells are unchanged and the counters drop |
| Blocks.AllocateBestFit | src/BlockAllocator.cpp:33-94 | when the scan is sound, allocate returns null exactly when no block fits, and otherwise carves the best fit |
| Blocks.AllocateThenFree | src/BlockAllocator.cpp:66-139 | on a fresh allocator, allocate(size) followed by deallocate of its pointer returns W and restores the single free block {0, mSize} |
| Pool.SlotsAscend | src/PoolAllocator.cpp:64-67 | a later slot starts at least one blockSize further on |
| Pool.AlignedApart | src/PoolAllocator.cpp:49-50 | the zero-fill of one slot never reaches another slot's link word |
| Pool.LastSlotIsShort | src/PoolAllocator.cpp:62-69 | the (n+1)-th slot that clear links holds the terminator word in the arena but has fewer than blockSize bytes |
| Pool.ShortSlotExample | src/PoolAllocator.cpp:62-69 | a 40-byte arena with 16-byte slots gets slots 0, 16 and 32; the last has room for its link but not for 16 bytes, so it fails Deallocate's requirement |
| Pool.LayStep | src/PoolAllocator.cpp:64-67 | one loop step links the next slot and keeps the earlier links and the zeroes |
| Pool.LayLast | src/PoolAllocator.cpp:69 | the null terminator completes a list over all n+1 slots and leaves every other cell zero |
| Pool.PoolAllocator.constructor | src/PoolAllocator.cpp:21-29 | requires blockSize >= W and, for clear, size % blockSize >= W; the free list is slots 0, b, ..., n·b in order, the head is 0, every other cell is zero and the counters are 0 |
| Pool.PoolAllocator.LinkSlots | src/PoolAllocator.cpp:63-67 | the loop links each of the first n slots to the next one and ends with mPool on slot n |
| Pool.PoolAllocator.Clear | src/PoolAllocator.cpp:59-71 | zeroes the arena, then the free list visits 0, b, ..., n·b in ascending order with null stored at n·b; the head is 0 |
| Pool.PoolAllocator.ClearFullSlots | src/PoolAllocator.cpp:59-71 | clear as evidently intended: the free list visits only the n = size / blockSize full slots 0, b, ..., (n-1)·b, with null in the last, and every free slot lies wholly in the arena |
| Pool.PoolAllocator.Allocate | src/PoolAllocator.cpp:33-46 | requires size <= blockSize; returns the head, the new head is the link stored in it, no arena cell changes, and the counters grow by blockSize and 1; when every free slot is full, the slot returned is a whole blockSize bytes in the arena and the free slots stay full |
| Pool.PoolAllocator.Deallocate | src/PoolAllocator.cpp:48-57 | the slot becomes the head, its first word holds the old head and its other bytes are zero; no cell outside the slot changes; the counters drop by blockSize and 1; free slots that were all full stay full |
| Pool.DeallocateThenAllocate | src/PoolAllocator.cpp:33-57 | allocate right after deallocate(p) returns p and restores the free list and the head |

## Left out

- `printSizeOfBlocks` (debug printing to stdout) is not modelled.
- `ReportAssert` and the `debugBreak` process exit are not modelled. Every `ASSERT` is a precondition instead.
- The global `defaultAllocator` is not modelled.
- Destructors, deleted copy and move members, and virtual dispatch are not modelled. The three classes share the base by composition.
- Raw `void*` arithmetic, alignment and arena ownership are not modelled. Pointers are offsets into one array.
- A stored word is one cell: the cells that stand for the other W - 1 bytes of a size, link or tag word are not written with the word, so where the arena was zeroed they read as 0 in the model (for example the `ZeroOn` of Pool.PoolAllocator.Deallocate covers the upper bytes of the link).
- Undefined-behaviour misuse (double free, foreign or misaligned pointers) is excluded by preconditions, not modelled.
- Blocks.BlockAllocator.Allocate: requires `ScanSound`, which excludes the head-candidate quirk that the code does not guard against (see Findings).
- Blocks.BlockAllocator.Allocate: requires `size + W < 2^64`, so the `size_t` wrap of `newSize` is not modelled.
- Blocks.BlockAllocator.Allocate: with no candidate, the `ASSERT(false)` is compiled out and the null return is modelled.
- Blocks.BlockAllocator.Allocate: the best-fit property is stated by `Blocks.AllocateBestFit` through `FreeList.SoundScanIsBestFit`, not in Allocate's own contract.
- Blocks.BlockAllocator.Deallocate: requires `Returnable`. The pointer must be one word past a tag whose block lies in the arena, holds a header and overlaps no free block, which is what a pointer from allocate that was not freed since should satisfy. The model proves this only for one allocation on a fresh allocator (`Blocks.AllocateThenFree`); it keeps no set of live blocks from which the general case would follow. The code checks none of this.
- Pool.PoolAllocator.constructor: requires `size % blockSize >= W`, the guard of the Clear it calls, so arenas that are an exact multiple of blockSize (which the code accepts, and where its clear writes the terminator past the arena) are not modelled.
- Pool.PoolAllocator.Clear: requires `size % blockSize >= W`. That is the only case where the terminator that clear writes at `n·blockSize` lies inside the arena. Otherwise the code writes past the arena, which is not modelled.
- Pool.PoolAllocator.Clear: even with that guard, the last slot has fewer than blockSize bytes (`Pool.LastSlotIsShort`). This is modelled as written; see Findings.
- Pool.PoolAllocator.Allocate: requires a non-empty free list. The code does not check, and popping an empty list dereferences null.
- Pool.PoolAllocator.Deallocate: requires `p` to be a slot boundary whose slot lies in the arena and is not already free. The code checks none of this. The last slot that Clear links is handed out by Allocate but is short, so it cannot be given back: in the code its zero-fill runs past the arena (see Findings).
- Stack.StackAllocator.Allocate: `marker + size` is taken as an unbounded integer; the `size_t` wrap of that sum in the code's assertion is not modelled.
- Arena.Allocator.constructor: takes a non-null arena (a null arena would make the `memset` undefined). So a state where `IsOutOfMemory` holds is representable but never built.
- Reporting (`MFG_MEMORY_REPORT`) is a compile-time switch in the code and a construction-time flag here. The counter getters exist only when it is on.

## Findings

| source | as written | input that shows it | evidently intended | confidence | as-written member | corrected member |
|---|---|---|---|---|---|---|
| src/BlockAllocator.cpp:44-46 | when the head is too small, the second node becomes the candidate unchecked and with no predecessor, so the split at :79-84 replaces `mBlocks` by the tail | free blocks {0, 24} and {64, 100}, allocate(32) (newSize 40): `mBlocks` becomes the tail at 104 and the block at 0 drops off the list | the candidate is only ever a fitting block, found with its predecessor, i.e. the best fit | high; not executed | FreeList.HeadQuirkLosesHead | Blocks.AllocateBestFit |
| src/BlockAllocator.cpp:44 | a head at least newSize bytes long is kept as the candidate without the remainder test of :50 | a single free block {0, 50}, allocate(32) (newSize 40): the tail at 40 has 10 bytes, but its 16-byte header is written over bytes 40-55 | a head with 1 to 15 bytes left over is not a candidate | high; not executed | FreeList.HeadQuirkLeavesRunt | FreeList.BestFit |
| src/PoolAllocator.cpp:62-69 | clear links n + 1 = size / blockSize + 1 slots, so the last slot, at n·blockSize, holds fewer than blockSize bytes; allocate hands it out and deallocate's `memset` at :49 then zeroes blockSize bytes from it | size 40, blockSize 16: slots 0, 16 and 32; after three allocations deallocate(32) zeroes bytes 32-47 of a 40-byte arena | clear links only the n slots that lie wholly in the arena | high; not executed | Pool.ShortSlotExample | Pool.PoolAllocator.ClearFullSlots |
