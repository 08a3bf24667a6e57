# HMM heap managers in Dafny

A model of three variants of a first-fit, free-list heap manager written in
C. Each variant hands out blocks from a list of free nodes and takes them
back on free:

- **HMM1** (`hmm1.dfy`, module `Hmm1`) works over a static 1 GiB array behind a
  simulated program break. Its list is doubly linked with `Head` and `Tail`.
  A node's `length` excludes the 24-byte header.
- **HMM2** (`hmm2.dfy`, module `Hmm2`) grows through the operating system's
  `sbrk`. A node's `length` includes the header. It coalesces adjacent free
  nodes after every free, and it provides `malloc`, `free`, `calloc` and
  `realloc` on top.
- **HMM_1** (`hmmc.dfy`, module `HmmC`) is a singly linked list kept in address
  order over a 1 MiB array. It has a 16-byte header and an `int available`
  counter.

Shared modules:

- `freelist.dfy` (module `FreeList`) has the vocabulary: a node
  `(off, len)`, `Option`, and the `Outcome` of a C routine (`Ok`, `Exited`
  for `exit`, `Undefined` for undefined behaviour and for a list made
  cyclic, which the model does not represent). It also holds `size_t`
  wrap-around, the 8-byte alignment `(x + 7) & ~7`, and the first-fit
  search used by all three variants.
- `arena.dfy` (module `Arena`) has the program break: a cursor inside
  `[heapBase, heapBase + cap]`.

A free list is a `seq<Node>` in list order. A node's `prev` is the element
before it, so `next`/`prev` consistency holds by construction. `Tail` is
kept as a separate field because the C code can move it independently of the
list.

Memory contents are not modelled. Where the C reads a header word, the value
read is a parameter: `word` for `HmmFree`, `oldLen` for `realloc`.

Each variant is modelled as written, including its defects. Where the defect
is in the main allocation path, a corrected definition sits beside the
as-written one, and the properties the code evidently intends are proved
about the corrected one:

- `Hmm2.HmmAllocFixed` is the corrected `Hmm2.HmmAlloc`.
- `HmmC.HmmAllocFixed` is the corrected `HmmC.HmmAlloc`.

HMM2's `calloc` and `realloc` take a parameter `back` that selects the
allocation: 0 is the code as written, `META` the corrected allocator. The
corrected allocator takes the header one `META` before the `firstFit`
address, and after a miss it links exactly the pages `sbrk` granted
(`Hmm2.GrowFixed`).

## Model

| member | source | states |
|---|---|---|
| FreeList.SizeT | HMM2/heap.c:133 | a `size_t` result lies in `[0, 2^64)` and agrees with the exact value when that fits |
| FreeList.SizeTWraps | HMM2/heap.c:133 | a wrapped `size_t` result differs from the exact value by a multiple of `2^64` |
| FreeList.IntPtr | HMM2/heap.c:17 | a `size_t` passed as `intptr_t` keeps values below `2^63` and reads larger ones as negative |
| FreeList.Align8 | HMM2/heap.c:133 | `(x + 7) & ~7` is a multiple of 8 and, without wrap-around, the least one not below `x` |
| FreeList.FirstAtLeast | HMM2/heap.c:118-123 | returns the first node in list order whose length is at least the need; `None` exactly when no node is long enough |
| FreeList.IndexOf | HMM2/heap.c:155-170 | which list node a header address names: the first node at that offset, or `None` exactly when no node sits there |
| Arena.Sbreak | HMM1/heap.c:17-26 | succeeds exactly when the new break stays inside `[heapBase, heapBase + cap]`; returns the old break and moves the cursor by the increment; a refusal leaves the break unchanged |
| Arena.SbreakZeroIsQuery | HMM1/heap.c:17-26 | `sbreak(0)` reports the current break and moves nothing |
| Arena.SbreakRetract | HMM1/heap.c:17-26 | a granted move followed by the opposite move is granted too and restores the break |
| Arena.SbreakCompose | HMM1/heap.c:17-26 | two granted moves in a row end where a single move by their sum ends, and that move is granted |
| Hmm1.FreeListInit | HMM1/heap.c:29-35 | succeeds exactly when a page fits below the cap; the single node starts at the old break and the heap is tiled up to the new break; a refused `sbreak` leads to a write through `(void *)-1` |
| Hmm1.AddFnode | HMM1/heap.c:38-65 | the new node starts where `node`'s block ends. For `Tail` it runs to the break and becomes `Tail`, cutting off any successors. For a non-`Tail` node with a successor, its length wraps to `2^64 - 24` because `node->next` is read after being overwritten |
| Hmm1.Split | HMM1/heap.c:74-86 | the node keeps `blockSize` bytes, a new node follows its payload, the prefix of the list is unchanged, and a sole node hands `Tail` to the new one |
| Hmm1.FirstFit | HMM1/heap.c:89-105 | the index of the first node whose length is at least the request, with no earlier fit. An exact fit changes nothing; a larger one is split. On a miss the list is unchanged and `Tail` becomes the next-to-last node |
| Hmm1.Found | HMM1/heap.c:126-130 | the returned pointer is one header past a list node of length `blockSize` |
| Hmm1.HmmAlloc | HMM1/heap.c:108-131 | zero is refused; a returned pointer lies one header past a node of the requested length that is still on the free list; NULL only when one more page would pass the cap; the break moves by nothing or by one page |
| Hmm1.AllocFrom | HMM1/heap.c:117-130 | a hit or a grown retry returns a header-offset pointer; a NULL result leaves the arena as it was and only happens when a page no longer fits |
| Hmm1.Serve | HMM1/heap.c:117-130 | after the first search, a returned pointer lies one header past a node of the request's length; NULL leaves the arena as it was and only happens when a page no longer fits; the break moves by nothing or one page |
| Hmm1.GrowAndRetry | HMM1/heap.c:118-124 | NULL exactly when `sbreak(PAGE)` is refused, with the heap unchanged; otherwise the break moves by exactly one page |
| Hmm1.Retry | HMM1/heap.c:123-130 | the second `firstFit` is never NULL on a defined outcome, because the unchecked NULL leads to a write through NULL |
| Hmm1.HmmFree | HMM1/heap.c:133-157 | NULL is a no-op; on an empty list the block is dropped and the list is initialised; otherwise the payload address itself is pushed at `Head` with the `size_t` word found there as its length; pushing an address already on the list is undefined |
| Hmm1.AllocHitLeavesFreeList | HMM1/heap.c:91-95 | on a hit the header write changes nothing and the allocated node stays on the free list |
| Hmm1.FoundRewritesNothing | HMM1/heap.c:126-127 | writing `blockSize` into a node that already has that length leaves the heap unchanged |
| Hmm1.SplitTailKeepsTiling | HMM1/heap.c:74-86 | splitting the tail node of a tiled heap, when it has room for a header, yields a tiled heap with one more node and the same prefix |
| Hmm1.SplitResidualWraps | HMM1/heap.c:91-92 | on a fresh heap a request of 4070 bytes splits off a remainder whose length wraps to `2^64 - 22` |
| Hmm1.MissGrowsLastByPage | HMM1/heap.c:99-101 | a miss on a tiled heap of two or more nodes grows the last node by exactly one page, keeps the heap tiled, and retries on that heap |
| Hmm1.MissMovesTail | HMM1/heap.c:99-101 | a miss on two or more nodes leaves the list alone and moves `Tail` to the next-to-last node before growth |
| Hmm1.GrowthRebuildsLast | HMM1/heap.c:118-124 | with `Tail` on the next-to-last node of a tiled heap, growth rebuilds the last node one page longer and retries on that heap |
| Hmm1.AddAfterPrevRebuildsLast | HMM1/heap.c:38-65 | `addfnode` on the next-to-last node of a tiled heap replaces the last node by one that reaches the new break |
| Hmm1.OffsetsIncrease | HMM1/heap.c:38-40 | in a tiled heap node offsets strictly increase along the list |
| Hmm1.SingleNodeMissIsUndefined | HMM1/heap.c:99-101 | a miss on a one-node list sets `Tail` to NULL, and growth then calls `addfnode(NULL)` |
| Hmm1.FirstAllocOnFreshHeap | HMM1/heap.c:108-131 | the first allocation of a request that fits a page gives pointer 24 and splits the page into the block and a tail node reaching the break |
| Hmm1.FreeOnFreshHeapOverlaps | HMM1/heap.c:133-152 | freeing that first block pushes a node inside a block whose own header is still linked |
| Hmm1.FreeAfterAllocOverlaps | HMM1/heap.c:108-157 | for every successful allocation, freeing the returned pointer succeeds exactly when that address is not linked; it then pushes a node at the payload address, inside the allocated block, whose header stays on the list |
| Hmm2.FreeListInit | HMM2/heap.c:26-42 | succeeds exactly when `sbrk` grants a page, else `exit`; the single node spans the page and is `Tail` |
| Hmm2.AddFnode | HMM2/heap.c:45-65 | the new node starts where `node`'s block ends and is linked after it. As last node it runs to the break and becomes `Tail`. In the middle its length is 0 because `node->next` is read after being overwritten. The length is a `size_t`, below 2^64. `Tail` stays on the last node |
| Hmm2.MergeFrom | HMM2/heap.c:68-88 | the merge pass keeps the prefix and the start of the current node, adds absorbed lengths in `size_t`, and leaves no two neighbours contiguous |
| Hmm2.MergeConserves | HMM2/heap.c:72-83 | merging keeps the total length modulo 2^64 and introduces no new offsets. When every block ends below 2^64 no length wraps: the total is kept exactly, every merged block still ends below 2^64, and every old block lies inside some merged block |
| Hmm2.MergeWraps | HMM2/heap.c:70-87 | by induction over the pass: the total length changes by a multiple of 2^64 and no offset is new |
| Hmm2.MergeFits | HMM2/heap.c:70-87 | by induction over the pass, on blocks ending below 2^64: the total is exact and every old block is covered |
| Hmm2.AbsorbFits | HMM2/heap.c:72-74 | two contiguous blocks ending below 2^64 have lengths adding up below 2^64, so the `size_t` sum does not wrap |
| Hmm2.MergeTail | HMM2/heap.c:77-81 | if `Tail` named the last node before merging, it names the last node after; otherwise `Tail` is unchanged or names the last node |
| Hmm2.MergeNodes | HMM2/heap.c:68-88 | the same arena, the total length kept modulo 2^64 (exactly, with every old block covered, when every block ends below 2^64), no contiguous neighbours, no new offsets, and `Head`'s offset and `Tail` consistency kept |
| Hmm2.AbsorbCovers | HMM2/heap.c:72-74 | absorbing a contiguous successor leaves every old block inside some remaining block |
| Hmm2.Split | HMM2/heap.c:91-110 | a node no longer than `blockSize + META` (in `size_t`) is untouched; otherwise it keeps `blockSize` bytes, a new node starts `META` bytes after the kept part with a `size_t` length, ends where the old node ended when nothing wraps, and `Tail` follows a split last node |
| Hmm2.SplitLeavesGap | HMM2/heap.c:98-108 | after a split a `META`-byte hole lies between the kept part and the new node, and the list's total length drops by `META` |
| Hmm2.SplitKeepsSeparate | HMM2/heap.c:97-108 | splitting a node of a list of non-overlapping blocks keeps the blocks non-overlapping |
| Hmm2.FirstFit | HMM2/heap.c:113-126 | a request below `META` is raised to it; NULL exactly when no node is long enough, with the heap unchanged; otherwise the address one header past the first fitting node |
| Hmm2.FirstFitHit | HMM2/heap.c:118-121 | on a hit the heap is the first fitting node split at the request |
| Hmm2.SplitHit | HMM2/heap.c:118-120 | splitting the first fitting node of a non-overlapping list keeps it non-overlapping; the node keeps its offset and holds the request |
| Hmm2.TotalNeeded | HMM2/heap.c:129-139 | the request raised to `META`, rounded to a multiple of 8 and plus a header is a multiple of 8 that leaves at least the raised request after the header, and less than 8 bytes more |
| Hmm2.GrowBy | HMM2/heap.c:143-144 | whole pages covering the need: a multiple of `PAGE`, at least the need and less than a page more |
| Hmm2.Grow | HMM2/heap.c:143-147 | NULL exactly when `sbrk` refuses the page-rounded growth; otherwise the break moves by exactly that amount |
| Hmm2.GrowFixed | HMM2/heap.c:143-147 | corrected growth: NULL exactly when `sbrk` refuses, otherwise the break moves by the page-rounded amount and the list gains one node; with `Tail` on the last node, that node is the granted memory from the old break, linked last as the new `Tail` |
| Hmm2.GrowWith | HMM2/heap.c:143-147 | whichever growth `back` selects, NULL exactly when `sbrk` refuses and otherwise the break moves by the page-rounded amount |
| Hmm2.TakenTailGrowOverlaps | HMM2/heap.c:143-165 | as written: on a two-node list, handing out the whole `Tail` block moves `Tail` to the lower node, and the next growth links a free node from that node's end to the new break, covering the block still in use; the corrected growth links only the granted page |
| Hmm2.AllocWith | HMM2/heap.c:135-175 | a returned pointer lies at least two headers, less the header step-back, into the heap |
| Hmm2.AllocWithHit | HMM2/heap.c:135-155 | on a non-empty list whose search hits, allocation takes the header found by the search without growing |
| Hmm2.Unlink | HMM2/heap.c:155-173 | on a list with distinct offsets and a consistent `Tail`, exactly the chosen node leaves the list and `Tail` stays consistent |
| Hmm2.Take | HMM2/heap.c:155-175 | defined exactly when the given header is a node on the list; the returned pointer is one header past it |
| Hmm2.Search | HMM2/heap.c:140-175 | one search: a returned pointer lies at least two headers, less the header step-back, into the heap; the break never moves; a miss returns NULL with the heap unchanged |
| Hmm2.AllocFrom | HMM2/heap.c:139-175 | the cap is untouched; the break moves only by the page-rounded amount; NULL without growth only when that growth was refused |
| Hmm2.HmmAlloc | HMM2/heap.c:128-176 | as written, a returned pointer is at least two headers into the heap |
| Hmm2.HmmAllocFixed | HMM2/heap.c:128-176 | with the header taken one `META` before the `firstFit` address, a returned pointer is at least one header into the heap |
| Hmm2.HmmAllocHitIsUndefined | HMM2/heap.c:121 | as written, every hit on a list of non-overlapping blocks treats payload as a list node: undefined behaviour |
| Hmm2.HmmAllocFixedHit | HMM2/heap.c:140-175 | corrected, a hit hands out the first fitting block. Its payload holds the request, it leaves the list, and the remaining blocks stay non-overlapping, clear of it, and with a consistent `Tail` |
| Hmm2.FixedHitTakes | HMM2/heap.c:140-175 | corrected, a hit splits the first fitting node and takes the header at its offset |
| Hmm2.TakeNode | HMM2/heap.c:155-175 | taking the header of a node of a non-overlapping list unlinks exactly that node and returns its payload address |
| Hmm2.UnlinkSeparate | HMM2/heap.c:155-173 | unlinking leaves exactly the other nodes, still non-overlapping, clear of the unlinked block, and with a consistent `Tail` |
| Hmm2.RemoveKeepsSeparate | HMM2/heap.c:155-173 | removing any node of a non-overlapping list keeps the rest non-overlapping |
| Hmm2.TakeSeparate | HMM2/heap.c:155-175 | taking a node of a non-overlapping list unlinks exactly it, and the rest stays non-overlapping and clear of it |
| Hmm2.NoHeaderInside | HMM2/heap.c:121 | in a non-overlapping list no node starts one header into a block of at least two headers |
| Hmm2.HmmFree | HMM2/heap.c:178-197 | NULL is a no-op. The length read from the header is a `size_t`. On a non-empty list it is defined exactly when the header lies in the heap and is not already linked. The header becomes `Head`, the total length grows by the freed length, no two neighbours are contiguous, no new offsets appear besides the header, and `Tail` stays consistent |
| Hmm2.Push | HMM2/heap.c:189-196 | pushing at `Head` and merging adds exactly the node's length and leaves it first |
| Hmm2.Realloc | HMM2/heap.c:218-238 | NULL allocates; size 0 frees and returns NULL; otherwise allocate, copy `min(oldSize, size)`, and free the old block only when the allocation succeeded, all through the allocation `back` selects |
| Hmm2.Calloc | HMM2/heap.c:209-216 | allocates `num * size` in `size_t` arithmetic through the allocation `back` selects, and zeroes exactly that many bytes on success |
| Hmm2.MulIsProduct | HMM2/heap.c:210 | the repeated addition that the model uses for `num * size` is the product |
| Hmm2.CallocProductWraps | HMM2/heap.c:210 | `calloc(2^32, 2^32)` makes the same request as `calloc(0, 1)` |
| Hmm2.CallocAfter | HMM2/heap.c:209-215 | whatever the allocation, once it returns a block `calloc` returns that block and zeroes `num * size` bytes modulo 2^64, exactly `num * size` when the product does not wrap |
| Hmm2.CallocHitIsUndefined | HMM2/heap.c:209-211 | as written, a `calloc` whose request the search satisfies on a list of non-overlapping blocks is undefined, as `HmmAlloc` is |
| Hmm2.ReallocHitIsUndefined | HMM2/heap.c:218-231 | as written, a `realloc` to a size the search satisfies is undefined, whether it allocates from NULL or moves a block |
| Hmm2.CallocFixedHit | HMM2/heap.c:209-214 | corrected, a hit returns the payload of the first fitting block, which holds every byte zeroed; exactly `num * size` bytes are zeroed when the product does not wrap |
| Hmm2.ReallocFreesOld | HMM2/heap.c:223-235 | whatever the allocation, a `realloc` that frees the old block leaves its header at `Head`, and a move copies `min(oldSize, size)` bytes |
| Hmm2.ReallocFixedRefused | HMM2/heap.c:231-237 | corrected, a move whose growth `sbrk` refuses returns NULL and leaves the heap and the old block as they were |
| Hmm2.HmmAllocFixedEmpty | HMM2/heap.c:135-137 | on an empty list the corrected allocation builds the one-page list, whose only block lies below the break with `Tail` on it, and allocates from it; a refused page ends the process |
| Hmm2.HmmAllocFixedRefused | HMM2/heap.c:140-146 | corrected, a miss whose page-rounded growth `sbrk` refuses returns NULL and changes nothing |
| Hmm2.GrowAdds | HMM2/heap.c:143-147 | when every free block lies below the break, granted corrected growth after a miss links one block from the old break to the new break as the new `Tail`, keeping the blocks non-overlapping |
| Hmm2.HmmAllocFixedGrows | HMM2/heap.c:142-175 | corrected, a miss followed by that growth hands out the appended block: its header is the old break, its payload holds the request, and the list gains at most the remainder of the new space, running to the break |
| Hmm2.HmmAllocFixedGrowsSafe | HMM2/heap.c:142-175 | the same growth path leaves the list non-overlapping, with `Tail` on its last node, and every linked block clear of the block handed out |
| Hmm2.TakeSplit | HMM2/heap.c:155-175 | splitting the first fitting node of a non-overlapping list and taking its header unlinks exactly that node and returns its payload address |
| Hmm2.TakeSplitSafe | HMM2/heap.c:155-175 | the same split and take leaves the list non-overlapping with a consistent `Tail`, and every linked block clear of the block handed out |
| HmmC.FreeListInit | HMM_1/HMM_C.c:36-40 | one node at the start of the array, the counter untouched, the list ordered |
| HmmC.InitOverrunsArray | HMM_1/HMM_C.c:38 | the initial node claims `HDR` bytes past the end of the array |
| HmmC.Int32 | HMM_1/HMM_C.c:84 | a value stored into `int available` lies in the 32-bit range, is unchanged when already there, and differs from the exact value by a multiple of `2^32` |
| HmmC.SplitConserves | HMM_1/HMM_C.c:70-75 | kept block, one header and remainder add up to the old block; the remainder starts where the kept block ends and ends where the old one did |
| HmmC.HmmAlloc | HMM_1/HMM_C.c:48-86 | NULL exactly when the size is 0 or above `available`, or nothing fits, with nothing changed. Otherwise the pointer is one header past the first fit of the aligned request. The block is the aligned request when the node splits and the whole node otherwise, so it holds the request. The counter drops by the block size in 32-bit arithmetic. The split path keeps `bestFit` linked with the remainder after it; the other path unlinks it |
| HmmC.HmmAllocFixed | HMM_1/HMM_C.c:48-86 | as `HmmAlloc`, but the split path puts the remainder in `bestFit`'s place |
| HmmC.InsertPos | HMM_1/HMM_C.c:106-109 | the first list position whose node does not lie below the freed address |
| HmmC.UpdateFreeList | HMM_1/HMM_C.c:101-128 | undefined exactly when no predecessor absorbs the node and the node at the insertion point is the freed node itself |
| HmmC.HmmFree | HMM_1/HMM_C.c:89-98 | NULL is a no-op; otherwise the counter rises by the header's size and the node goes through `updateFreeList` |
| HmmC.UpdateKeepsOrdered | HMM_1/HMM_C.c:101-128 | freeing a block that overlaps no free node keeps an ordered list ordered with no neighbours touching, grows the total bytes by exactly the block and its header, and leaves the block inside a free node |
| HmmC.MergeNextKeeps | HMM_1/HMM_C.c:124-127 | linking a node, or absorbing a touching successor into it, keeps the order and adds exactly the node's bytes |
| HmmC.UpdateMergesPrev | HMM_1/HMM_C.c:112-114 | a block that starts where its predecessor ends extends it, keeping order and totals |
| HmmC.UpdateLinks | HMM_1/HMM_C.c:116-121 | a block with gaps on both sides is linked at its place, keeping order and totals |
| HmmC.AllocFreeRoundTrip | HMM_1/HMM_C.c:84-94 | on an ordered list, the corrected allocation followed by freeing its pointer restores the list and the counter exactly |
| HmmC.CarvedRelinks | HMM_1/HMM_C.c:101-128 | on an ordered list, linking a carved block back with its granted size gives back the list before the carve |
| HmmC.FreeRestores | HMM_1/HMM_C.c:89-98 | freeing a block whose node relinks into the list it left restores the list and the counter |
| HmmC.RejoinRestores | HMM_1/HMM_C.c:112-127 | freeing the kept part of a split block in front of its remainder rejoins the original block |
| HmmC.RelinkRestores | HMM_1/HMM_C.c:116-121 | freeing an unlinked block puts it back at its place |
| HmmC.Int32RoundTrip | HMM_1/HMM_C.c:84 | subtracting a size from `available` and adding it back restores any `int` value despite 32-bit truncation |
| HmmC.AllocSplitThenFreeIsUndefined | HMM_1/HMM_C.c:70-75 | as written, after a split the freed block finds its own header still linked and would be linked in front of itself |
| HmmC.SplitRelinkIsUndefined | HMM_1/HMM_C.c:70-75 | after the split as written, relinking the kept part finds its own header still linked: undefined |
| HmmC.AllocSplitServesTwice | HMM_1/HMM_C.c:70-75 | as written, after a split the same request is served by the same block again |
| HmmC.SplitStaysFirst | HMM_1/HMM_C.c:58-75 | after the split as written, the first fit for the same request is the same node at the same offset |

## Left out

- Console output is not modelled: `printf`, `perror`, `printFreeList`, and the message printed by HMM1's `sbreak`. It does not change the state.
- `exit` after a failed `sbrk` in HMM2 becomes the `Exited` outcome. The process ending is not modelled further.
- The operating system's `sbrk` in HMM2 is the same bounded cursor as HMM1's `sbreak`, with an unknown capacity.
- The bytes that `memset` and `memcpy` write are not modelled. `Hmm2.Calloc` and `Hmm2.Realloc` report how many bytes they zero or copy.
- Contents of header words that the code reads back are parameters (`word`, `oldLen`), not state. Overwriting a free node's header through an overlapping write is therefore not tracked.
- Symbol interposition of `malloc`/`free` in HMM2 is not modelled. `malloc` and `free` are `HmmAlloc` and `HmmFree`, so they have no separate members.
- The HMM2 `heapBase` and `programBreak` globals are not modelled. Only `freeListInit` reads them (HMM2/heap.c:27-33), and there `heapBase` serves as a local copy of the old break, so no state carries from one call to the next.
- Test drivers and the HMM_1 demo are not modelled: the random stress drivers, the `main` programs, and the linked-list demo in HMM_1/HMM_C.c:142-298. They only use the allocator.
- HMM_1 `sbreak` only returns a global and is never called by the allocator, so it is not modelled.
- The header files only hold declarations. Their constants are fixed in the modules: `PAGE` = 4096, `META` = 24 (LP64 `sizeof(fnode)`), `HDR` = 16.
- Pointer arithmetic is over unbounded offsets. A header address near the top of the address space does not wrap. `size_t` arithmetic on lengths and sizes does wrap.
- Hmm1.HmmFree: the block is dropped when the list is empty, as in the code. The model does not say what that block's memory becomes.
- Hmm2.HmmAlloc: only the pointer bound is stated in its contract. Its hit behaviour is stated by `Hmm2.HmmAllocHitIsUndefined`.
- Hmm2.HmmAllocFixedHit: stated only for requests whose raised, aligned size plus a header does not wrap (`size + 55 < 2^64`).
- Hmm2.AddFnode: the new node's offset is unbounded pointer arithmetic; only its length is taken modulo 2^64.
- Hmm2.MergeFrom: states no sum; the sums are stated by `Hmm2.MergeConserves`.
- Hmm2.MergeConserves: exact conservation and coverage are stated only when every block ends below 2^64; otherwise only the total modulo 2^64 is kept.
- Hmm2.MergeNodes: the same restriction as `Hmm2.MergeConserves`.
- Hmm2.Split: the new node ends where the old one ended only when the old length and `blockSize + META` are below 2^64.
- Hmm2.HmmAllocFixedGrows: stated only for lists whose blocks all lie below the break, with `Tail` on the last node (which `Hmm2.GrowAdds` and `Hmm2.HmmAllocFixedEmpty` supply), and for requests with `size + 55 < 2^64`. Blocks handed out are not state of the model, so that every block in use also lies below the break is not stated.
- Hmm2.HmmAllocFixedGrowsSafe: the same restriction as `Hmm2.HmmAllocFixedGrows`.
- Hmm2.GrowAdds: stated for a cap in the positive range of `intptr_t` and a request below 2^63 minus a page, so that the `sbrk` increment is positive.
- HmmC.AllocFreeRoundTrip: stated for an `available` already within `int` range and for a list whose blocks end below `2^64`. The code keeps both true.
- HmmC.UpdateKeepsOrdered: says the freed block ends up inside a free node, not the exact set of free bytes.

## Findings

| source | as written | input that shows it | evidently intended | confidence | as-written member | corrected member |
|---|---|---|---|---|---|---|
| HMM2/heap.c:121, 140, 155-175 | `firstFit` returns the address one header past the chosen node, and `HmmAlloc` uses that address as the node itself, reading its `prev`/`next` from payload | any successful first-fit search on a list of non-overlapping blocks, e.g. the first `malloc(1)` | take the node at `firstFit(...) - META_DATA_SIZE`, unlink it, return the payload | not executed | Hmm2.HmmAllocHitIsUndefined | Hmm2.HmmAllocFixedHit |
| HMM2/heap.c:44-62, 147, 160-165 | after `sbrk` grants pages, `addfnode(Tail)` starts the new free node at the end of `Tail`'s block, and handing out the last node moves `Tail` to the node before it | free list `[0, 64)` and `[1000, 4096)` with the break at 4096: `malloc(3048)`, with the header arithmetic corrected, hands out `[1000, 4096)` whole, then a miss grows by a page and links `[64, 8192)` over it | link the granted memory from the old break to the new break | not executed | Hmm2.TakenTailGrowOverlaps | Hmm2.GrowAdds |
| HMM_1/HMM_C.c:70-75 | the split path shrinks `bestFit` and links the remainder after it, but leaves `bestFit` on the free list | a fresh heap after `freeListInit` and `HmmAlloc(100)`: the block at offset 0 stays linked, `HmmAlloc(100)` returns it again, and `HmmFree` of it links it in front of itself | replace `bestFit` by the remainder in its predecessor (or `freeListHead`) | not executed | HmmC.AllocSplitThenFreeIsUndefined | HmmC.AllocFreeRoundTrip |

The other defects are recorded in the module headers, and the model follows
the code for each of them:

- HMM1 `addfnode` reads `node->next` after overwriting it.
- HMM1 `firstFit` never unlinks and splits without room for a header.
- HMM1 `HmmAlloc` does not check the retry for NULL.
- HMM1 `HmmFree` pushes the payload pointer.
- HMM2 `addfnode` has the same read-after-write, giving length 0.
- HMM2 `calloc` does not check the product.

The lemmas named in the table above state these defects.
