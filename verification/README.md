# tb allocators, collector and list in Dafny

This project models four sequential parts of a small C/C++ memory-management codebase and proves properties of them:

- **the buddy allocator** of `src/tb_allocator.h`:
  - a 1 MiB arena cut into power-of-two blocks from 32 bytes (level 0) up to the whole arena (level 15);
  - one free list per level;
  - block splitting on `tb_malloc`;
  - buddy coalescing on `tb_free`.
- **the mark-sweep garbage collector** of `src/tb_gc.c`:
  - a bounded root set with swap-remove;
  - the `all_objects` list;
  - a bounded mark stack with an overflow heuristic;
  - the mark and sweep phases;
  - the insertion write barrier.
- **the first-fit header-list allocator** drafts `src/tb_allocator.c` and `test/allocator.c`:
  - a singly linked list of headers;
  - first-fit reuse;
  - 16-byte rounding;
  - tail append at the program break;
  - forward-only coalescing on free.
- **the generic doubly linked list** `DLinkedList<T>` of `src/dlinkedlist.h`.

## How each part is modelled

Each part is modelled in the form the program has:

- State the C code updates in place becomes a Dafny `class`:
  - `BuddyAllocator.BuddyHeap` holds a header map and an array of free lists;
  - `GarbageCollector.Collector` holds the root and mark-stack arrays with their counters, the mark bits and the object list;
  - `FirstFit.Allocator` holds the break, `head`, `tail` and the header map;
  - `DLinkedList.List` is made of heap `Node`s.
- Most methods' `ensures` state their whole new state. The exceptions are:
  - `MarkRoots`, `DrainMarkStack` and `MarkChildren` of the collector, which state only the mark invariant and a progress bound;
  - `MarkPhase` and `CollectFull`, which pin the marks and the object list exactly only when there are at most 1024 objects (see "## Left out").
- For the two allocators and the collector, that new state is given by a function of the old state: `BuddyArena`, `HeaderList` and the phase predicates of `GarbageCollector`.
- Lemmas about those functions carry the properties: invariants kept, failure conditions, reachability.

### Offsets and headers

- Memory is named by integer offsets (buddy) or addresses (first fit).
- A `map` records the content of every header ever written.
- A header that was never written reads as zeros, since the arena comes from an anonymous mapping.
- `HEADER_SIZE` is 32 bytes. That is `sizeof` of a 16-byte-aligned union whose struct holds a `size_t`, a flag and a pointer.
- Requests are rounded with `(size + HEADER_SIZE + 15) & ~15`, modelled by `Layout.RoundRequest`.

### Helpers defined nowhere in the source

Two helpers the buddy allocator calls are not defined anywhere. They are modelled by assumption:

- `free_list_add` prepends the block to the list of the level `size_to_level` gives its size. This mirrors `free_list_remove`.
- `get_buddy` is the standard buddy rule: the offset XOR the level's block size, with no buddy outside the arena.

### Behaviour kept as written

The model keeps the code's behaviour as written, and lemmas exhibit where it departs from what the comments promise.

**Buddy allocator**
- A header's `size` counts the payload at initialisation but the whole block after a split. `size_to_level` then adds a header on top of a whole-block size, so a block of level `k` is filed on list `k + 1` (`WholeBlockLevel`).
- A round of `split_larger_block` therefore files the free upper half on the list the block came from.
- When the recursion goes on, the shrunken lower half is neither returned nor listed.
- When the first free block is two or more levels up, the search finds the same list again every time and the recursion never returns in the model (`SplitDiverges`). This is why `SplitOff` carries fuel.
- From its second round on, that walk writes past the arena. On a fresh arena, any request below level 14 (`malloc(1)`, say) takes two rounds. The second round halves block 2^19 and writes the upper half's header at offset 2^20, the first byte past the 1 MiB mapping. In C that is an out-of-bounds write with undefined behaviour, most likely a fault, before any non-termination is reached (see "## Left out").
- `tb_malloc` marks a reused block in use but leaves it on its list (`AllocatedReuses`).
- When no block is found, `tb_malloc` returns the address one header past NULL rather than NULL (`AllocatedFails`).
- The buddy `merge_buddies` looks for is `get_buddy` at the level `size_to_level` gives the block's size. A block written by a split is filed one level up, so that buddy is the offset XOR twice the block's size. A merge can then join two free blocks of the same size that are not adjacent. For example, headers 0 and 2^19 that both record 2^18 bytes merge, and the survivor's doubled size spans the block between them.
- After a merge, `merge_buddies` lists the survivor and `tb_free` lists it again (`FreedListsTwice`). Freeing a reused block that is still listed also lists it twice. In C the second insertion turns the list into a cycle; the model's sequences keep a duplicate instead (see "## Left out").

**First-fit allocator**
- Coalescing adds a header's worth on top of a successor size that already counts its header (`AbsorbOverstatesBlock`).
- When the absorbed block was the tail, `tail` is left on it. The next fresh block is then linked behind that header and stays off the list (`RequestMemory`).
- The `tb_malloc` of `test/allocator.c` returns no value on its fresh-block path (`MallocDraft`).

**Doubly linked list**
- `RemoveHead` on a one-node list leaves `tail` at the deleted node.
- `RemoveTail` on a list whose `tail` is stale (left on a deleted node) finds no `prev`, clears `tail` and deletes that node a second time. The model clears `tail` and has nothing else to remove.
- `operator[]` compares its `int` index with the unsigned size, so a negative index converts to a huge value and is rejected with `out_of_range` like an index past the end.

### Where the source and the intent diverge

Where the source's comments and its code disagree, the model follows the code:

- `calculate_total_size` is declared `void` but returns `HEADER_SIZE + size`; it is taken as returning that value.
- `size_to_level` reads undeclared variables; it is taken as the doubling loop over the rounded `size` with the level capped at 15.
- `MAX_LEVELS` expands to `log2(1 << 20 / 32)`, which the macro precedence makes 0; the model uses 16 levels, 0 to 15.
- The array is declared as `free_list[MAX_LEVELS]`, a zero-length array, while every other function uses `free_lists`. `tb_initialize_allocator` assigns the block to `free_list` itself. The model reads this as listing the block on `free_lists[15]`, the list whose level the block's size maps to.
- `tb_initialize_allocator` writes `block->size` and `block->is_free`, but these fields sit inside the union's struct `s`. The model reads them as `block->s.size` and `block->s.is_free`.
- The union declares the link field as `s.next`, but the code uses `s.next_free`. The model treats both names as the one link field.

## Model

| member | source | states |
|---|---|---|
| Layout.RoundRequest | src/tb_allocator.c:64 | the rounded request is a multiple of 16, at least the request plus a header, and less than 16 bytes more than that |
| Layout.RoundAligned | src/tb_allocator.h:75 | a size that is already a multiple of 16 only gains a header when rounded |
| Collections.RemoveFirstSplits | src/tb_allocator.h:135-141 | removing the first occurrence of `x` leaves a list that gives back the original when `x` is put back at that position; a list without `x` is unchanged |
| BuddyArena.LevelSizes | src/tb_allocator.h:85-87 | `level_to_size(l)` is 32 times 2 to the `l`: 32 bytes at level 0, 64 at level 1, the whole 1 MiB arena at level 15 |
| BuddyArena.LevelToSizeGrows | src/tb_allocator.h:85-87 | block sizes strictly grow with the level |
| BuddyArena.LevelAligned | src/tb_allocator.h:85-87 | every block size is a multiple of 16 |
| BuddyArena.CoverFrom | src/tb_allocator.h:79-82 | the doubling loop ends at a level between its start and the level cap |
| BuddyArena.CoverFromLeast | src/tb_allocator.h:79-83 | the loop stops at the first level from its start whose blocks cover the total, or at the cap, and every level it passes is too small |
| BuddyArena.LevelFor | src/tb_allocator.h:74-84 | `size_to_level` never exceeds the top level |
| BuddyArena.LevelForLeast | src/tb_allocator.h:74-84 | `size_to_level` returns the least level whose blocks hold the rounded size, or the top level when none does |
| BuddyArena.LevelForFits | src/tb_allocator.h:74-84 | whenever the rounded size fits in the arena, the chosen level's blocks hold it |
| BuddyArena.WholeBlockLevel | src/tb_allocator.h:74-84 | a header whose size is a whole block of level `k` (as a split writes it) is filed on level `k + 1` |
| BuddyArena.InitialLevel | src/tb_allocator.h:63-73 | the payload size the initial header records maps to the top level |
| BuddyArena.BuddyOf | src/tb_allocator.h:154-155 | the buddy `get_buddy` gives (assumed rule) lies inside the arena and differs from the block |
| BuddyArena.Initial | src/tb_allocator.h:63-73 | the initial arena is well formed: one free header at offset 0, listed alone on the list its size maps to |
| BuddyArena.FirstFreeIndex | src/tb_allocator.h:31-40 | the position returned is the first whose header is free: every earlier header is in use |
| BuddyArena.FirstFree | src/tb_allocator.h:31-40 | `tb_find_free_block` returns a listed free block, and the list head when that one is free |
| BuddyArena.FreeLevel | src/tb_allocator.h:97-100 | the split's search stops at the first level from its start holding a free block, or runs off the end; no level it passes holds one |
| BuddyArena.RemovedUnlinksFirst | src/tb_allocator.h:130-142 | `free_list_remove` takes out exactly the first occurrence of the block from its level's list, keeps the other entries in order, changes no other list and no header, and changes nothing when the block is absent |
| BuddyArena.RemovedKeepsWellFormed | src/tb_allocator.h:130-142 | unlinking keeps every listed block backed by a header |
| BuddyArena.AddedKeepsWellFormed | src/tb_allocator.h:117 | listing a block that has a header keeps the arena well formed |
| BuddyArena.RewriteKeepsWellFormed | src/tb_allocator.h:170-171 | rewriting a header in place with a positive size keeps the arena well formed |
| BuddyArena.HalvesWrites | src/tb_allocator.h:109-114 | a split round shrinks the block's header to `half` and writes a free header of `half` bytes at `block + half`; no other header changes |
| BuddyArena.HalvedLists | src/tb_allocator.h:101-117 | a round unlinks the block and puts the free upper half at the front of the list the block came from |
| BuddyArena.HalfLevel | src/tb_allocator.h:113-117 | the upper half written by a round maps to the level of the whole block it came from |
| BuddyArena.HalvedKeepsWellFormed | src/tb_allocator.h:101-117 | a split round keeps the arena well formed |
| BuddyArena.HalvedCarves | src/tb_allocator.h:105-114 | after a round the block heads a block of the level below whose upper half is a free block of the same size |
| BuddyArena.HalvedRelists | src/tb_allocator.h:113-117 | after a round the list the block came from holds a free block again |
| BuddyArena.SplitOff | src/tb_allocator.h:95-129 | a block `split_larger_block` returns heads a block of the target level whose upper half is free |
| BuddyArena.SplitOffKeepsWellFormed | src/tb_allocator.h:95-129 | splitting keeps the arena well formed |
| BuddyArena.SplitOffFails | src/tb_allocator.h:95-129 | `split_larger_block` returns NULL exactly when no level above the target holds a free block, and then changes nothing |
| BuddyArena.HalvedKeepsGap | src/tb_allocator.h:97-124 | with every list between the target and the block's level empty, a round keeps them empty, and the next search finds the same level again |
| BuddyArena.SplitDiverges | src/tb_allocator.h:120-125 | when the first free block lies two or more levels above the target with empty lists between, the recursion never returns, whatever the fuel |
| BuddyArena.JoinedMerges | src/tb_allocator.h:158-174 | a merge leaves the lower block of the pair free with twice the size, keeps the arena well formed, and lists the survivor at the front of its level |
| BuddyArena.JoinedShrinks | src/tb_allocator.h:170-177 | a merge lowers the number of headers at least as large as the survivor, so the recursion ends |
| BuddyArena.Coalesced | src/tb_allocator.h:149-181 | the block `merge_buddies` returns lies at or below its argument |
| BuddyArena.CoalescedKeepsWellFormed | src/tb_allocator.h:149-181 | coalescing keeps the arena well formed |
| BuddyArena.CoalescedSurvivor | src/tb_allocator.h:149-181 | without a mergeable buddy `merge_buddies` returns its argument and changes nothing; after a merge the survivor is free, at least twice the size, and first on its level's list |
| BuddyArena.Granted | src/tb_allocator.h:56-61 | handing out a split-off block changes no free list |
| BuddyArena.GrantedBlock | src/tb_allocator.h:56-61 | a split-off block is marked in use and the address one header past it is returned |
| BuddyArena.AllocatedKeepsWellFormed | src/tb_allocator.h:41-62 | `tb_malloc` keeps the arena well formed |
| BuddyArena.AllocatedFails | src/tb_allocator.h:41-62 | `tb_malloc` returns NULL exactly for a zero request, and one header past NULL exactly when neither the request's level nor any level above holds a free block |
| BuddyArena.AllocatedServes | src/tb_allocator.h:41-62 | an address `tb_malloc` returns lies one header past a block that is now in use |
| BuddyArena.TakenServes | src/tb_allocator.h:51-52 | marking a block in use makes its payload address serve it |
| BuddyArena.AllocatedReuses | src/tb_allocator.h:45-53 | a block found on the request's own list is the first free one there; it is marked in use, its payload returned, and no list changes |
| BuddyArena.FreedUnfolds | src/tb_allocator.h:185-196 | `tb_free` of a pointer marks its block free, coalesces it, and lists the survivor |
| BuddyArena.FreedKeepsWellFormed | src/tb_allocator.h:185-196 | `tb_free` keeps the arena well formed |
| BuddyArena.FreedListsSurvivor | src/tb_allocator.h:185-196 | `tb_free(NULL)` changes nothing; otherwise the survivor lies at or below the freed block, is free, and is first on its level's list |
| BuddyArena.FreedListsTwice | src/tb_allocator.h:170-195 | after at least one merge the survivor stands twice at the front of its level's list |
| BuddyAllocator.SizeToLevel | src/tb_allocator.h:74-84 | the loop computes `LevelFor(size)` |
| BuddyAllocator.BuddyHeap.constructor | src/tb_allocator.h:63-73 | the heap starts as the initial arena |
| BuddyAllocator.BuddyHeap.FindFreeBlock | src/tb_allocator.h:31-40 | the list walk returns the first free block of the level, changing nothing |
| BuddyAllocator.BuddyHeap.FreeListRemove | src/tb_allocator.h:130-142 | the unlink loop leaves the headers and makes the lists those of `Removed` |
| BuddyAllocator.BuddyHeap.FreeListAdd | src/tb_allocator.h:117 | the lists become those of `Added`; headers do not change |
| BuddyAllocator.BuddyHeap.HalveBlock | src/tb_allocator.h:101-117 | one split round in place gives the arena `Halved` describes, and keeps it well formed |
| BuddyAllocator.BuddyHeap.FindLargerBlock | src/tb_allocator.h:97-100 | the search returns the first level above the target holding a free block, with that block, or reports none |
| BuddyAllocator.BuddyHeap.SplitLargerBlock | src/tb_allocator.h:95-129 | the in-place split returns and leaves what `SplitOff` gives, keeping the heap well formed |
| BuddyAllocator.BuddyHeap.MergeBuddies | src/tb_allocator.h:149-181 | the in-place merge returns and leaves what `Coalesced` gives, keeping the heap well formed |
| BuddyAllocator.BuddyHeap.Malloc | src/tb_allocator.h:41-62 | `tb_malloc` returns and leaves what `Allocated` gives, keeping the heap well formed |
| BuddyAllocator.BuddyHeap.Free | src/tb_allocator.h:185-196 | `tb_free` leaves what `Freed` gives, keeping the heap well formed |
| HeaderList.ChainOrdered | src/tb_allocator.c:34-50 | links only lead to higher addresses, so the list is sorted by address and holds no header twice |
| HeaderList.FirstFitIndex | src/tb_allocator.c:23-32 | the first position holding a free header of at least the requested size; no earlier one fits |
| HeaderList.FirstFitIndexIs | src/tb_allocator.c:23-32 | the first-fit position is the one before which nothing fits |
| HeaderList.TakeFresh | src/tb_allocator.c:75-81 | a freshly appended header is already in use, so clearing its flag again changes nothing |
| HeaderList.ReleaseKeepsLinks | src/tb_allocator.c:87-98 | freeing keeps the set of headers and keeps every link pointing upward |
| HeaderList.ReleaseKeepsChain | src/tb_allocator.c:93-96 | after a free the list still runs from `head` to a NULL link, without the absorbed successor |
| HeaderList.AbsorbKeepsChain | src/tb_allocator.c:93-96 | absorbing the successor of a listed block removes exactly that successor from the list |
| HeaderList.BeforeUntouched | src/tb_allocator.c:93-96 | blocks before the freed one keep their sizes |
| HeaderList.AfterUntouched | src/tb_allocator.c:93-96 | blocks after the absorbed successor keep their sizes |
| HeaderList.AbsorbKeepsFootprint | src/tb_allocator.c:93-96 | absorbing a successor keeps the sum of header plus size over the list |
| HeaderList.ReleaseKeepsFootprint | src/tb_allocator.c:87-98 | `tb_free` keeps the list a chain and keeps the sum of header plus size over it |
| HeaderList.AbsorbOverstatesBlock | src/tb_allocator.c:94 | when the successor is adjacent, the merged block's size reaches one header past the end of the successor |
| HeaderList.PayloadAligned | src/tb_allocator.c:72 | the payload of a header on the initial break's 16-byte phase sits a multiple of 16 bytes past the initial break |
| HeaderList.TakeKeepsShape | src/tb_allocator.c:70 | marking a block in use keeps the allocator's shape |
| HeaderList.AppendKeepsShape | src/tb_allocator.c:34-50 | appending at the break keeps the shape; the new header joins the list only when `tail` is its last block |
| HeaderList.ReleaseKeepsShape | src/tb_allocator.c:87-98 | freeing keeps the shape, including a `tail` left on an absorbed header |
| FirstFit.Allocator.constructor | src/tb_allocator.c:16 | the allocator starts with NULL `head` and `tail` and no headers |
| FirstFit.Allocator.FindFreeBlock | src/tb_allocator.c:23-32 | the walk from `head` returns the first free header with at least the requested size, or NULL, changing nothing (identical at test/allocator.c:24-33) |
| FirstFit.Allocator.RequestMemory | src/tb_allocator.c:34-50 | on success an in-use header of the requested size with a NULL link is written at the old break, linked behind `tail`, and becomes `tail`; on failure nothing changes and NULL is returned (identical at test/allocator.c:35-52) |
| FirstFit.Allocator.TakenServes | src/tb_allocator.c:70-72 | the address one header past a block marked in use with room for the rounded request serves the request |
| FirstFit.Allocator.Take | src/tb_allocator.c:70 | marking a block in use changes only its flag and keeps the allocator valid |
| FirstFit.Allocator.TakeFirstFit | src/tb_allocator.c:64-73 | the rounded request is served by the first fitting free block, now in use, or nothing changes |
| FirstFit.Allocator.Malloc | src/tb_allocator.c:60-85 | NULL for zero bytes; otherwise the first fitting block is reused unsplit and in place, else a fresh block of the rounded size is appended at the break, else NULL |
| FirstFit.Allocator.MallocDraft | test/allocator.c:55-81 | the same reuse path, but after appending a fresh block (or failing to) no value is returned |
| FirstFit.Allocator.Free | src/tb_allocator.c:87-98 | NULL changes nothing; otherwise the block is released and coalesced, and the sum of header plus size over the list is kept (identical at test/allocator.c:83-94) |
| FirstFit.Allocator.Release | src/tb_allocator.c:90-96 | the block is marked free and grown over a free successor, which alone leaves the list; the sum of header plus size over the list is kept |
| ObjectGraph.RootIsReachable | src/tb_gc.c:139-141 | every allocated root is reachable |
| ObjectGraph.ChildIsReachable | src/tb_gc.c:146-148 | an allocated child of a reachable object is reachable |
| ObjectGraph.ClosedSetHoldsReachable | src/tb_gc.c:144-149 | marks that hold every allocated root and are closed under allocated children hold every reachable object |
| ObjectGraph.Restrict | src/tb_gc.c:162-167 | the swept heap holds exactly the kept objects, unchanged |
| ObjectGraph.SurvivorsStayReachable | src/tb_gc.c:186-200 | after a collection every surviving object is still reachable, so a second collection frees nothing more |
| GarbageCollector.PayloadAddress | src/tb_gc.c:77-89 | the user pointer lies past the header and child slots, and `extract_object` of it gives back the header |
| GarbageCollector.PayloadFillsRequest | src/tb_gc.c:67-89 | the payload ends exactly where the requested block ends |
| GarbageCollector.NullSlots | src/tb_gc.c:79-80 | a new object has `child_slots` slots, all NULL |
| GarbageCollector.SetChild | src/tb_gc.c:206 | a store changes only the given slot |
| GarbageCollector.SwapRemoveRemovesOne | src/tb_gc.c:55-60 | moving the last root into the removed slot shrinks the root set by one and removes exactly one occurrence of the root |
| GarbageCollector.ChildrenOfParent | src/tb_gc.c:106-113 | every object the overflow branch marks is a non-null child of an object in the bottom half of the stack |
| GarbageCollector.MarkStep | src/tb_gc.c:125-132 | one `mark_object` keeps the mark invariant, never unmarks, marks a tracked object, and either marks a new object or leaves the stack alone |
| GarbageCollector.UnmarkedDrops | src/tb_gc.c:130 | marking a tracked unmarked object lowers the number of unmarked objects |
| GarbageCollector.PushKeepsInvariant | src/tb_gc.c:102-103 | a push onto a stack with room keeps the mark invariant |
| GarbageCollector.OverflowKeepsInvariant | src/tb_gc.c:104-118 | a push onto a full stack marks only reachable children and keeps the mark invariant |
| GarbageCollector.MarkStart | src/tb_gc.c:134-141 | with no tracked object marked, the mark invariant holds before the first root |
| GarbageCollector.RootStep | src/tb_gc.c:139-141 | marking root `i` counts it as done |
| GarbageCollector.PopStep | src/tb_gc.c:144-145 | the popped object is marked, tracked, and pending scanning |
| GarbageCollector.ScanStep | src/tb_gc.c:146-148 | marking child `j` of the popped object keeps the invariant and counts that slot as scanned |
| GarbageCollector.ScanDone | src/tb_gc.c:146-149 | a fully scanned object is no longer pending |
| GarbageCollector.MarkDone | src/tb_gc.c:144-149 | an empty stack leaves every marked object reachable, and with at most 1024 objects every reachable object marked |
| GarbageCollector.SurvivorsMembers | src/tb_gc.c:161-173 | an object survives the sweep exactly when it is on the list and marked |
| GarbageCollector.SurvivorsAgree | src/tb_gc.c:154-178 | the survivors of a list depend only on the marks of its members |
| GarbageCollector.SweepStep | src/tb_gc.c:161-173 | one step of the sweep either unlinks and frees an unmarked object or clears a mark and moves on, keeping the sweep invariant |
| GarbageCollector.UnlinkKeepsTracks | src/tb_gc.c:162-167 | unlinking and freeing an object keeps the list holding every allocated object exactly once |
| GarbageCollector.SweepDone | src/tb_gc.c:154-178 | at the end of the walk the list is the marked objects in their old order, the heap holds exactly them, and their marks are cleared |
| GarbageCollector.CollectOutcome | src/tb_gc.c:186-200 | after a sound mark phase the sweep keeps only reachable objects; after a complete one it keeps exactly the reachable objects |
| GarbageCollector.Collector.constructor | src/tb_gc.c:33-38 | the collector starts with no roots, an empty stack and no objects |
| GarbageCollector.Collector.AddRoot | src/tb_gc.c:40-49 | NULL is ignored; a root is appended while fewer than 1024 are held, and otherwise nothing changes |
| GarbageCollector.Collector.RemoveRoot | src/tb_gc.c:51-63 | the first occurrence of the root is replaced by the last root; a pointer that is not a root changes nothing |
| GarbageCollector.Collector.Alloc | src/tb_gc.c:65-90 | given a block that holds no live object (an assumption about the allocator, see "## Left out"): NULL when `block` is NULL; otherwise an unmarked object with `child_slots` NULL slots is put at the front of the list and its payload address returned |
| GarbageCollector.Collector.IsTracked | src/tb_gc.c:92-99 | true exactly for an allocated object |
| GarbageCollector.Collector.FindObj | src/tb_gc.c:218-225 | 1 exactly for an allocated object, 0 otherwise |
| GarbageCollector.Collector.PushMarkStack | src/tb_gc.c:101-119 | with room the object goes on top; on a full stack the children of the bottom half are marked, the stack is cut to that half, and the object goes on top |
| GarbageCollector.Collector.MarkSlots | src/tb_gc.c:108-112 | every non-null child slot gets marked, and nothing else |
| GarbageCollector.Collector.PopMarkStack | src/tb_gc.c:121-123 | NULL and no change on an empty stack; otherwise the top object is removed and returned |
| GarbageCollector.Collector.MarkObject | src/tb_gc.c:125-132 | nothing for NULL, a marked or an untracked object; otherwise it is marked and pushed |
| GarbageCollector.Collector.MarkPhase | src/tb_gc.c:134-152 | every marked object is reachable, and with at most 1024 objects every reachable object is marked |
| GarbageCollector.Collector.MarkRoots | src/tb_gc.c:139-141 | after the roots loop every allocated root is marked, and the invariant holds |
| GarbageCollector.Collector.DrainMarkStack | src/tb_gc.c:144-149 | the drain loop ends with an empty stack and the mark invariant |
| GarbageCollector.Collector.MarkChildren | src/tb_gc.c:145-148 | scanning a popped object keeps the invariant; either an object gets marked or the stack is unchanged |
| GarbageCollector.Collector.SweepPhase | src/tb_gc.c:154-178 | exactly the unmarked objects are unlinked and freed, the rest keep their order and lose their marks, and the collection ends |
| GarbageCollector.Collector.CollectFull | src/tb_gc.c:186-200 | only reachable objects survive, unchanged; with at most 1024 objects exactly the reachable ones survive, cycles included, in their old order |
| GarbageCollector.Collector.WriteBarrier | src/tb_gc.c:203-216 | nothing for a NULL parent or an out-of-range slot; otherwise only that slot changes, and the child is marked only during a collection, under a marked parent, when unmarked |
| DLinkedList.Node.constructor | src/dlinkedlist.h:7-15 | a node holds its data with no links |
| DLinkedList.List.constructor | src/dlinkedlist.h:23-26 | a new list has NULL `head` and `tail` and is empty |
| DLinkedList.List.IsEmpty | src/dlinkedlist.h:72-74 | true exactly when the list has no elements |
| DLinkedList.List.Count | src/dlinkedlist.h:100-103 | `size(temp)` is the number of nodes from `temp` to the end |
| DLinkedList.List.Size | src/dlinkedlist.h:104-106 | `size()` is the number of elements |
| DLinkedList.List.AddHead | src/dlinkedlist.h:58-71 | the element becomes the first, the rest shift up; on an empty list `tail` becomes the new node |
| DLinkedList.List.AddTail | src/dlinkedlist.h:75-87 | the element becomes the last, the rest stay put |
| DLinkedList.List.RemoveHead | src/dlinkedlist.h:32-42 | an empty list is unchanged; otherwise the first element goes, and removing the only node leaves `tail` on it |
| DLinkedList.List.RemoveTail | src/dlinkedlist.h:43-57 | an empty list ends with NULL `tail`; otherwise the last element goes, through `RemoveHead` for a single node |
| DLinkedList.List.Get | src/dlinkedlist.h:88-99 | an out-of-range error for a negative index (converted to unsigned by the comparison with the size) and for an index at or past the size; otherwise the element at the index |
| DLinkedList.List.Destroy | src/dlinkedlist.h:27-31 | the destructor empties the list, leaving `tail` where it was |

## Left out

- Locking (`pthread_mutex` in the allocators and the collector): every operation is treated as atomic. The stray unlock in the buddy `tb_malloc` has no counterpart.
- `mmap` in `tb_initialize_allocator` and its failure exit: the arena is given as one free block. The constructor of `BuddyHeap` is that state.
- `sbrk`: the break is a field, and whether it can move is a parameter (`grow`).
- `tb_calloc`, `tb_realloc`, the second, empty `tb_free` and the `tb_request_memory` stub of `src/tb_allocator.h`: they are stubs.
- The `size_to_level` pseudo-code and `MAX_LEVELs` of `src/tb_allocator.c`: they are not used by the first-fit code.
- `size_t` wrap-around: sizes and addresses are unbounded naturals. A request near `SIZE_MAX` that wraps when rounded is not modelled.
- Memory release: `delete` and the call from `sweep_phase` into `tb_free` are removal from the model's state. The collector is not linked to an allocator model, and which allocator block a freed object used is not tracked.
- Free lists as sequences: a block listed twice stands twice in a sequence. In C, `free_list_add` of a block already on its list sets its `next_free` to the old head, so the list becomes a cycle and the entries behind the block's earlier position are lost. The model does not capture that cycle, the lost entries, or walks over the cycle that never return. This is reachable from the initial arena: `malloc(600000)` reuses block 0 and leaves it listed, `free(32)` lists it again (in C, a self-loop), a second `malloc(600000)` reuses it, and a third one spins forever in C. The members this affects follow.
- `BuddyArena.Added` and `BuddyAllocator.BuddyHeap.FreeListAdd`: prepending a block already on the list gives a duplicate entry. In C the result is a cycle, and the rest of the list becomes unreachable.
- `BuddyArena.FirstFree` and `BuddyAllocator.BuddyHeap.FindFreeBlock`: on a list with a duplicate whose blocks are all in use, the model returns None, where C's `tb_find_free_block` loops forever. Both can also return an entry that the C list has lost.
- `BuddyArena.AllocatedFails`: the case where the address one header past NULL is returned includes arenas on which C's `tb_malloc` never returns.
- `BuddyArena.AllocatedReuses`: the reused block may be an entry that the C list no longer reaches.
- `BuddyAllocator.BuddyHeap.FreeListRemove`: on a cyclic C list that does not contain the block, the search never ends. The model returns the list unchanged.
- `BuddyArena.FreedListsTwice`: it states the double listing as two sequence entries. In C the survivor's list becomes a self-loop on the survivor, and the rest of that list is lost.
- Writes past the arena: headers at offsets at or above `HEAP_SIZE` are kept in the header map. In C they are out-of-bounds writes with undefined behaviour, so the model goes on where the program most likely faults. `BuddyArena.HalvesWrites`, `BuddyArena.SplitOff`, `BuddyArena.SplitDiverges` and `BuddyAllocator.BuddyHeap.SplitLargerBlock` describe such writes as ordinary header writes.
- `merge_buddies(NULL)`: offsets start at 0 for the first block, and `tb_free` never passes NULL.
- `printf` in `gc_collect_full` and `gc_write_barrier`, and the list walk in `gc_collect_full` that only feeds commented-out output: they have no effect on state.
- `gc_collect_step`: its body is the same mark phase and sweep phase, so `CollectFull` models both.
- The allocator call in `gc_alloc`: its result is the `block` parameter of `Collector.Alloc`. `Collector.Alloc` requires `block !in objects`, so it assumes the allocator never returns the header of a live object. The buddy model as written does not guarantee this. For example, `malloc(300000)` twice takes blocks 0 and 2^19. The second call's split writes the upper half's header at 2^20, past the arena, so the example relies on the program surviving that out-of-bounds write (see the line on writes past the arena). Then `free(32)` lists block 0 again. The next `malloc(300000)` splits block 0, and the split's upper-half write marks the live header at 2^19 free and lists it. The `malloc(300000)` after that hands out block 2^19 a second time. The call to `tb_initialize_allocator` in `gc_init` is left to the allocator models.
- `GarbageCollector.Collector.Alloc`: its NULL branch models the `if (!obj) return NULL;` check in `gc_alloc`, but the buddy `tb_malloc` never reaches it. That `tb_malloc` returns NULL only for a zero request, and `gc_alloc` always asks for at least the 40-byte object header. When no block is found, `tb_malloc` returns the address one header past NULL, which is 32 (`BuddyArena.AllocatedFails`). With that allocator, a failure reaches `gc_alloc` as address 32 rather than NULL, and the object header is written there.
- The object scenarios of the collector's tests: they are instances of `CollectFull`'s contract and are not stated separately. The scenarios are a rooted ten-node tree, a cut branch, an unrooted two-cycle, and a cut child.
- `Node::print`, `getHead` and `getTail`: console output and plain field reads.
- `BuddyAllocator.BuddyHeap.SplitLargerBlock`: a `fuel` bound limits the number of searches. Running out is reported as `OutOfFuel` rather than as a call that never returns; `SplitDiverges` shows when that happens.
- `BuddyAllocator.BuddyHeap.Malloc`: it inherits the fuel bound of the split.
- `GarbageCollector.Collector.MarkPhase`: completeness (every reachable object marked) is proved only for at most 1024 objects. With more, the overflow branch of `push_mark_stack` can drop pending objects, and only soundness is proved.
- `GarbageCollector.Collector.CollectFull`: the same 1024-object bound applies to its "exactly the reachable objects" clause.
- Helper methods `FindLargerBlock`, `HalveBlock`, `MarkSlots`, `MarkRoots`, `DrainMarkStack` and `MarkChildren`: each is one loop or one loop body of the function it is part of, split out so that each proof stays small.
