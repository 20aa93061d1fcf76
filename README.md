# 15-213 labs: allocator, proxy cache and transpose, modelled in Dafny

This project models the computational core of three CMU 15-213 lab
solutions and proves properties of the model.

- **Malloc lab.** The boundary-tag allocators `mm_segregated.c` (20
  segregated free lists), `mm_oldrealloc.c` (the same lists with a
  malloc-copy-free realloc) and `mm_explicit.c` (one explicit free list,
  12-byte headers) share one engine. `Allocator.Heap` is a class whose fields
  are the heap's words:
  - header tags keyed by block pointer;
  - footer tags keyed by the block end;
  - next/prev link words;
  - the free-list heads, the epilogue pointer, the break and the payload bytes.

  The three files differ only in a `Config` of constants (`HeapLayout`), in
  realloc (`Realloc` vs `NaiveRealloc`) and in what the heap checker tests.
  The checker (`mm_checkheap`) is a fold over the blocks from the prologue
  (`HeapCheck`), run by the loop `Allocator.Heap.CheckBlocks`. `HeapHealth`
  proves that the checker raises no flag on a heap whose invariants hold.
- **Proxy lab.** The LRU object cache of `cache.c` is a class `CacheList`
  over heap-allocated `CacheObject` nodes linked through `next`, with a byte
  budget `spaceLeft`. `check_cache`'s tortoise-and-hare loop is modelled
  too. So are the pure string building of `forward_request` (host/port
  split, GET test, request line, header rewrite, cache key) and the
  buffered caching of `forward_server_response` (`cachebuf_append` and the
  `valid_size` fold).
- **Cache lab.** `transpose_submit` and its three blocked schemes (32x32,
  64x64, 61x67), `trans` and `is_transpose` operate on `array2<int>`.

The invariants proved for the allocator are these:
- blocks tile the heap between prologue and epilogue;
- every header equals its footer;
- sizes are multiples of 8 and at least MIN_SIZE;
- the free lists are doubly linked;
- each free list holds exactly the free blocks of its size class;
- no two free blocks are adjacent.

Every public operation preserves them. Each operation also states what it
does to the heap, the lists and the payload bytes: which bytes it copies or
zeroes, and that every other byte below the old break is kept.

Where the repository's documentation and its code disagree, the model
follows the code:
- the header comment of `proxy.c` gives the largest cached object as 1 KB,
  while `MAX_OBJECT_SIZE` is 102400 bytes;
- `mm_oldrealloc.c` defines `CHUNKSIZE` but extends the heap by at least
  `MIN_SIZE` only.

## Model

| member | source | states |
|---|---|---|
| SizeClass.AlignSize | malloclab-handout/mm_segregated.c:346-354 | a request of at most 8 bytes gets MIN_SIZE; a larger one gets a multiple of 8 that covers the payload plus header and footer, less than 8 bytes over |
| SizeClass.AlignSizeLegal | malloclab-handout/mm_segregated.c:346-354 | the adjusted size is 8-aligned, at least MIN_SIZE and covers the request plus overhead |
| SizeClass.AlignSizeLeast | malloclab-handout/mm_segregated.c:346-354 | the adjusted size is the least legal block size for the request |
| AllocFindings.AlignSizeAsWritten | malloclab-handout/mm_segregated.c:346-354 | align_size with its size_t wrap: equal to the adjusted size below the wrap; at the wrap a multiple of 8 below MIN_SIZE and below the request |
| AllocFindings.AlignSizeWraps | malloclab-handout/mm_segregated.c:352 | a request of 2^64 - 1 bytes rounds to 16 bytes (24 with the explicit allocator's sizing) |
| SizeClass.ListIndexRange | malloclab-handout/mm_segregated.c:385-392 | list 0 holds only size 0; list i (0 < i < 19) holds sizes in [2^(i-1), 2^i); list 19 holds every size of at least 2^18 |
| SizeClass.ListIndexMonotone | malloclab-handout/mm_segregated.c:385-392 | a larger size never maps to a lower list |
| SizeClass.GetList | malloclab-handout/mm_segregated.c:385-392 | the shifting loop of get_list computes ListIndex(size) |
| HeapLayout.BucketMonotone | malloclab-handout/mm_segregated.c:385-392 | for every configuration, larger blocks go to the same or a higher list |
| HeapLayout.AdjustedLegal | malloclab-handout/mm_explicit.c:152-156 | the sizing of all three allocators yields an 8-aligned size of at least MIN_SIZE covering request and overhead |
| HeapLayoutLemmas.SplitLayout | malloclab-handout/mm_segregated.c:320-339 | cutting a block at asize keeps the tiling, header == footer and alignment, and the new block is fresh |
| HeapLayoutLemmas.MergeLayout | malloclab-handout/mm_segregated.c:490-526 | merging neighbouring blocks into one free block keeps the tiling and header == footer |
| HeapLayoutLemmas.ExtendLayout | malloclab-handout/mm_segregated.c:403-427 | turning the old epilogue into a block of s bytes and writing a new epilogue after it keeps the layout |
| FreeListLemmas.PushLinked | malloclab-handout/mm_segregated.c:467-482 | pushing a free block at the head of its size class's list keeps every list doubly linked and exact |
| FreeListLemmas.UnlinkLinked | malloclab-handout/mm_segregated.c:435-460 | unlinking the k-th member of a list (head, middle or tail case) keeps every list doubly linked and removes exactly that block |
| Allocator.MemMove | malloclab-handout/mm_segregated.c:274-276 | memmove: n bytes from src land at dst, every other byte is kept |
| Allocator.Heap.constructor | malloclab-handout/mm_segregated.c:142-164 | mm_init: a valid heap with no blocks, every free list empty, prologue and epilogue in place |
| Allocator.Heap.Init | malloclab-handout/mm_segregated.c:142-164 | mm_init with its failure path: no heap (the -1 return) exactly when mem_sbrk refuses the initial words, otherwise a fresh valid heap with no blocks |
| Allocator.Heap.SetAlloc | malloclab-handout/mm_segregated.c:368-371 | set_alloc: sets the allocated bit in header and footer of a block already out of its list; nothing else changes |
| Allocator.Heap.SetFree | malloclab-handout/mm_segregated.c:376-379 | set_free: clears the allocated bit in header and footer, nothing else changes |
| Allocator.Heap.ListOf | malloclab-handout/mm_segregated.c:385-392 | the list of a size, NUM_LISTS-way for the segregated allocators and list 0 for the explicit one |
| Allocator.Heap.AddBlock | malloclab-handout/mm_segregated.c:467-482 | add_block: the block becomes the head of its list, the old head its successor, the lists stay exact |
| Allocator.Heap.DeleteBlock | malloclab-handout/mm_segregated.c:435-460 | delete_block: the block leaves its list, its neighbours are linked to each other, the head moves when it was the head |
| Allocator.Heap.CutTail | malloclab-handout/mm_segregated.c:320-339 | the split step: the tail beyond asize becomes a free block in its list |
| Allocator.Heap.Split | malloclab-handout/mm_segregated.c:320-339 | split: cuts only when at least MIN_SIZE bytes are left over, so the block ends within [asize, asize + MIN_SIZE) |
| Allocator.Heap.FindFit | malloclab-handout/mm_segregated.c:297-313 | the corrected search_list: the first fit in list order from get_list(asize) upwards; None only when no free block is large enough |
| Allocator.Heap.SearchList | malloclab-handout/mm_segregated.c:169-194 | the search-and-split of malloc: the found block is split and every other free block keeps its list place |
| Allocator.Heap.Grow | malloclab-handout/mm_segregated.c:403-427 | extend_heap's sbrk step: the old epilogue becomes a free block of size bytes, a new epilogue follows, the payload grows by size zero bytes |
| Allocator.Heap.MergeGrown | malloclab-handout/mm_segregated.c:403-427 | extend_heap's coalesce: a free block before the new one is merged into it |
| Allocator.Heap.ExtendHeap | malloclab-handout/mm_segregated.c:403-427 | grows by max(asize - space left, floor) and only when a fit was missing; fails without change when the growth primitive fails |
| Allocator.Heap.SpaceLeftLast | malloclab-handout/mm_segregated.c:107 | SPACE_LEFT (the function SpaceLeft): on a valid heap, a positive value is the size of the free block that ends at the epilogue, and whenever a free block ends there the value is its size (0 when the last block is allocated) |
| Allocator.Heap.MergeNext | malloclab-handout/mm_segregated.c:490-526 | coalesce case next-free: the block absorbs its successor |
| Allocator.Heap.MergePrev | malloclab-handout/mm_segregated.c:490-526 | coalesce case prev-free: the predecessor absorbs the block |
| Allocator.Heap.MergeBoth | malloclab-handout/mm_segregated.c:490-526 | coalesce case both free: the predecessor absorbs the block and the successor |
| Allocator.Heap.Coalesce | malloclab-handout/mm_segregated.c:490-526 | coalesce: the result starts at the free predecessor or at bp, ends past a free successor, is listed, and no two free blocks are adjacent |
| Allocator.Heap.Relist | malloclab-handout/mm_segregated.c:504-524 | the set_size + add_block ending of coalesce's merging cases: the merged block at x gets free tags of the given size in header and footer, heads its size class's list, and the heap is valid and coalesced again; the break, epilogue and bytes are kept |
| Allocator.Heap.Place | malloclab-handout/mm_segregated.c:169-194 | malloc's fit-or-extend: the fit when there is one, otherwise a block from extend_heap; fails only when the heap cannot grow and no block fits |
| Allocator.Heap.Malloc | malloclab-handout/mm_segregated.c:169-194 | malloc: size 0 gives NULL, and so does a request whose rounding overflows size_t (the corrected align_size); otherwise the first fit when there is one (FitFor), a newly allocated block of at least the adjusted size (less than MIN_SIZE over) whose payload holds size bytes below the break; NULL only when no free block fits (NoneFits) and the heap cannot grow; other allocated blocks keep their tags, and the bytes below the old break are kept |
| Allocator.Heap.Free | malloclab-handout/mm_segregated.c:200-210 | free: NULL changes nothing; otherwise the block is no longer allocated and lies inside a free block |
| Allocator.Heap.CutAllocated | malloclab-handout/mm_segregated.c:248-253 | the shrinking realloc's split: an allocated block keeps newsize bytes and the tail becomes a free block |
| Allocator.Heap.ShrinkInPlace | malloclab-handout/mm_segregated.c:248-253 | the corrected shrinking realloc: the block keeps newsize bytes in place and the freed tail is coalesced |
| Allocator.Heap.CoalesceMove | malloclab-handout/mm_segregated.c:272-276 | coalesce around the block and move its payload (not the whole oldsize bytes the source copies) down to the merged block's start with memmove; when the predecessor absorbed it, bp is no longer a block |
| Allocator.Heap.GrowInPlace | malloclab-handout/mm_segregated.c:255-279 | the growing realloc's coalesce path: an allocated block at or below bp of at least newsize bytes, less than MIN_SIZE over; the heap bytes are exactly memmove(r, bp, payload) of the old bytes (the payload, where the source copies oldsize bytes), so every other byte is kept; when it starts below bp, bp is no longer allocated |
| Allocator.Heap.CopyFree | malloclab-handout/mm_segregated.c:282-286 | copy k bytes to the new block, then free the old one: the heap bytes are exactly the old ones with k bytes from bp copied to dst; dst stays allocated, bp does not, other allocated blocks keep their tags |
| Allocator.Heap.Relocate | malloclab-handout/mm_segregated.c:282-286 | the corrected fallback: malloc(request), and only on success copy min(request, payload) bytes (where the source copies oldsize) and free the old block; the result is malloc's first fit when there is one, NULL only when nothing fits and the heap cannot grow (or the request is oversized), with no change; outside the copied range every byte below the old break is kept |
| Allocator.Heap.ReallocLarger | malloclab-handout/mm_segregated.c:255-287 | the growing branch: when realloc's neighbour test (RoomAround: a free neighbour, or both together, hold newsize - oldsize bytes) passes, the result is at or below bp, less than MIN_SIZE over newsize, and the bytes are memmove(r, bp, payload) of the old ones; when it fails, the result is malloc(newsize): its first fit for align_size(newsize) when there is one, a different block with bp freed, or NULL with no change only when nothing fits and the heap cannot grow; the whole old payload moves (the payload, not the oldsize bytes the source copies) and every byte outside its new place is kept |
| Allocator.Heap.Realloc | malloclab-handout/mm_segregated.c:230-288 | realloc: size 0 frees and keeps the bytes; NULL is malloc, first fit included and NULL only when nothing fits; a request that fits the block keeps the address and the bytes and shrinks the block to less than MIN_SIZE over the adjusted size; a larger one fails with no change when its rounding overflows size_t, grows in place at or below ptr when a free neighbour has room, and otherwise is malloc(newsize)'s first fit, NULL only when nothing fits; any result holds size bytes and starts with min(size, payload) bytes of the old payload (the source's moving branches copy oldsize bytes), every other byte below the old break is kept, and a moved result leaves the old block unallocated |
| Allocator.Heap.NaiveRealloc | malloclab-handout/mm_oldrealloc.c:212-244 | malloc-copy-free realloc: an oversized request gives NULL; otherwise malloc(size)'s first fit when there is one, NULL only when nothing fits and the heap cannot grow; a new block holding the first min(size, payload) bytes, the old block freed, every other byte below the old break kept; on failure nothing changes |
| Allocator.Heap.ZeroFill | malloclab-handout/mm_segregated.c:216-222 | the memset of calloc: n zero bytes at p and nothing else changes |
| Allocator.Heap.Calloc | malloclab-handout/mm_segregated.c:216-222 | the corrected calloc: a product that overflows size_t, or whose rounding does, gives NULL; otherwise malloc(nmemb*size)'s first fit when there is one, NULL only when nothing fits and the heap cannot grow; a result's first nmemb*size bytes are zero and every other byte below the old break is kept |
| Allocator.Heap.MovePayload | malloclab-handout/mm_segregated.c:274-276 | a forward byte copy equals memmove when the destination lies below the source or apart |
| Allocator.Heap.CheckBlocks | malloclab-handout/mm_segregated.c:585-621 | the checker's block loop computes the fold Scan over the blocks from the prologue to the epilogue |
| Allocator.Heap.CheckHeap | malloclab-handout/mm_segregated.c:544-622 | mm_checkheap: the epilogue test (segregated only) and the block loop give CheckerFlags, and a heap whose invariants hold, with no two neighbouring free blocks, raises no flag |
| Allocator.Heap.PassesWhenHealthy | malloclab-handout/mm_segregated.c:544-622 | the checker's flags are all clear on a valid, coalesced heap, for every limit |
| FirstFit.FitInMeaning | malloclab-handout/mm_segregated.c:297-313 | the first fit of a list is a fitting member with no fitting member before it; none means no member fits |
| FirstFit.FitFromMeaning | malloclab-handout/mm_segregated.c:297-313 | the search over lists b.. finds the first fit of the first list that has one; none means no member of those lists fits |
| FirstFit.NoFitAnywhere | malloclab-handout/mm_segregated.c:297-313 | with exact lists, a search from get_list(asize) that finds nothing means no free block anywhere is large enough |
| FirstFit.FoundIsFree | malloclab-handout/mm_segregated.c:297-313 | a found block is a free block in the searched lists that fits |
| FirstFit.ScanChain | malloclab-handout/mm_segregated.c:303-310 | the as-written inner loop scans one chain and then reads the next table entry |
| FirstFit.SearchAsWrittenReadsPastEnd | malloclab-handout/mm_segregated.c:297-313 | the as-written search finds the same block as the corrected one, but every miss reads free_lists[NUM_LISTS] |
| HeapCheck.ViewAt | malloclab-handout/mm_segregated.c:590-617 | what the checker reads of one block: its header tag, footer and links |
| HeapCheck.Scan | malloclab-handout/mm_segregated.c:585-621 | the block loop never raises the epilogue flag and raises the prologue flag only where that test exists |
| HeapCheck.BlockFlags | malloclab-handout/mm_segregated.c:586-619 | the tests of one block: never the epilogue flag; no flag exactly when the block passes its own size, link, footer, alignment and prologue tests (ViewOk), ends in bounds, is not a tail or head over the limit, and does not follow a free block |
| HeapCheck.Step | malloclab-handout/mm_segregated.c:585-621 | one iteration of the block loop: flags are only added, and a block raising none leaves them; free_token counts the run of free blocks; the tail (head) counter of the block's own list, and of no other, goes up by one for a tail (head) |
| HeapCheck.ScanCounts | malloclab-handout/mm_segregated.c:598-620 | the counters hold the number of tails and heads per list, and free_token is set exactly after a free block |
| HeapCheck.ScanGrows | malloclab-handout/mm_segregated.c:585-621 | flags only accumulate: the flags of a prefix are among those of the whole walk |
| HeapCheck.Flag128 | malloclab-handout/mm_segregated.c:598-602 | flag 128 is raised exactly when two consecutive blocks are free |
| HeapCheck.Flag16 | malloclab-handout/mm_segregated.c:590-591 | flag 16 is raised exactly when some block's header differs from its footer |
| HeapCheck.Flag2 | malloclab-handout/mm_segregated.c:606-608 | flag 2 is raised exactly when some list has more than limit + 1 tails (with the corrected limit 0, a second tail) |
| HeapCheck.Flag8 | malloclab-handout/mm_segregated.c:612-614 | flag 8 is raised exactly when some list has more than limit + 1 heads |
| HeapCheck.CheckerFlags | malloclab-handout/mm_explicit.c:441-460 | only the checker of mm_segregated.c tests the prologue and the epilogue; those of mm_oldrealloc.c and mm_explicit.c never raise either flag |
| HeapCheck.ViewsAt | malloclab-handout/mm_segregated.c:585-590 | the words the loop reads at its i-th step are those of the i-th walked block |
| HeapCheck.ScanQuiet | malloclab-handout/mm_segregated.c:586-596 | blocks that pass their own size, alignment, footer, link and prologue tests raise none of those flags, nor flag 32 when each ends in bounds |
| HeapCheck.TailsAtMostOne | malloclab-handout/mm_segregated.c:606-609 | when every tail of a list along a rising walk is one block, the list counts at most one tail |
| HeapCheck.HeadsAtMostOne | malloclab-handout/mm_segregated.c:612-615 | the same for heads |
| HeapHealth.WalkFrom | malloclab-handout/mm_segregated.c:585 | on a well-formed layout the walk from a block steps to the next block each time, stays on blocks, rises strictly and reaches every block above its start |
| HeapHealth.WalkFromPrologue | malloclab-handout/mm_segregated.c:585 | the checker's walk is the prologue followed by every block of the heap in address order |
| HeapHealth.FreeListed | malloclab-handout/mm_segregated.c:606-617 | a free block of a heap whose lists hold passes both link tests, and is a tail (head) only as the last (first) member of its list |
| HeapHealth.WalkViewsOk | malloclab-handout/mm_segregated.c:586-596 | every walked block of a valid heap passes the size, alignment, footer, link and prologue tests and ends at or below the epilogue |
| HeapHealth.WalkListEnds | malloclab-handout/mm_segregated.c:606-615 | along the walk of a valid heap, every list has at most one tail and one head |
| HeapHealth.WalkNoAdjacentFree | malloclab-handout/mm_segregated.c:598-602 | on a coalesced heap no two consecutive walked blocks are free |
| HeapHealth.LayoutPassesCheck | malloclab-handout/mm_segregated.c:579-621 | CheckerFlags is NoFlags for a valid, coalesced heap, with any limit and under each of the three checkers |
| HeapCheck.SecondTailMissed | malloclab-handout/mm_segregated.c:606-614 | two tails and two heads in one list raise flags 2 and 8 only with limit 0, not with the as-written post-increment |
| AllocFindings.ShrinkAsWrittenLeavesFreePair | malloclab-handout/mm_segregated.c:248-253 | when the successor is free, the as-written shrink leaves two adjacent free blocks |
| AllocFindings.GrowCopyAsWritten | malloclab-handout/mm_segregated.c:274-276 | the as-written memcpy writes oldsize bytes starting below bp |
| AllocFindings.GrowCopyOverlaps | malloclab-handout/mm_segregated.c:274-276 | when the predecessor is smaller than the old block, source and destination of that memcpy overlap |
| AllocFindings.NaiveCopyAsWritten | malloclab-handout/mm_oldrealloc.c:236-238 | the copy count is the smaller of size and the block size, header and footer included |
| AllocFindings.OldsizeCopyReadsPastBreak | malloclab-handout/mm_segregated.c:274-284 | for the last block, the oldsize bytes both moving branches copy (the coalescing memcpy and the fallback memcpy) read past the break; the payload alone does not |
| AllocFindings.NaiveCopyReadsPastBreak | malloclab-handout/mm_oldrealloc.c:236-238 | for the last block, that count reads past the break as it stands before malloc(size) (where it still stands when that malloc finds a fit without growing the heap); min(size, payload) does not |
| AllocFindings.FallbackCopyAsWritten | malloclab-handout/mm_segregated.c:282-283 | the fallback copies oldsize bytes to whatever malloc returned |
| AllocFindings.FallbackWritesNull | malloclab-handout/mm_segregated.c:282-283 | when malloc fails, the fallback writes through NULL |
| AllocFindings.CallocRequestAsWritten | malloclab-handout/mm_segregated.c:217 | the request is nmemb*size reduced mod 2^64 |
| AllocFindings.CallocFillAsWritten | malloclab-handout/mm_segregated.c:220-221 | memset writes the wrapped request's bytes at whatever malloc returned |
| AllocFindings.CallocRequestWraps | malloclab-handout/mm_segregated.c:217 | nmemb = 2^32 + 1 and size = 2^32 ask malloc for 2^32 bytes instead of failing |
| AllocFindings.CallocFillsNull | malloclab-handout/mm_segregated.c:220-221 | when malloc fails, memset writes through NULL |
| Transpose.BlockOrigins | cachelab-handout/trans.c:58-59 | two block origins on the size grid are equal or a whole block apart |
| Transpose.IsTranspose | cachelab-handout/trans.c:201-213 | is_transpose returns 1 exactly when B is the transpose of A, 0 otherwise |
| Transpose.Trans | cachelab-handout/trans.c:162-177 | the simple row-wise scan leaves B the transpose of A |
| Transpose.TransposeSubmit | cachelab-handout/trans.c:25-151 | for N = 32, 64 or 67, B ends as the transpose of A; for any other N, B is untouched |
| Transpose.Blocked8 | cachelab-handout/trans.c:55-79 | 8x8 blocking with the diagonal element deferred yields the transpose |
| Transpose.Quadrants | cachelab-handout/trans.c:80-127 | the 4x4-quadrant scheme yields the transpose |
| Transpose.TopHalfRow | cachelab-handout/trans.c:86-99 | one row of the first pass: top-left quadrant transposed, top-right staged in B's top-right quadrant, nothing else written |
| Transpose.SecondPassRow | cachelab-handout/trans.c:100-124 | one row of the second pass: the staged values move to the bottom-left and the rest of the block is finished |
| Transpose.CopyColumn | cachelab-handout/trans.c:108-111 | four column entries of A land in one row of B, nothing else written |
| Transpose.Clipped16 | cachelab-handout/trans.c:128-148 | 16x16 blocking clipped at the edges yields the transpose |
| ProxyCache.CacheObject.constructor | proxylab-handout/cache.c:32-43 | init_object: a detached object holding id, data and the data's length |
| ProxyCache.Find | proxylab-handout/cache.c:82-87 | the position the list walks stop at: the first object with that id, none before it, or the end |
| ProxyCache.TotalRemove | proxylab-handout/cache.c:146 | removing an object takes exactly its length out of the cached total |
| ProxyCache.TotalAppend | proxylab-handout/cache.c:118-122 | appending an object adds exactly its length to the cached total |
| ProxyCache.CacheList.constructor | proxylab-handout/cache.c:16-27 | init_cache: an empty list with first = last = NULL and the whole budget free |
| ProxyCache.CacheList.AddToEnd | proxylab-handout/cache.c:114-124 | add_to_end: the object becomes last (and first on an empty list) and its length leaves the budget; the list stays well-formed |
| ProxyCache.CacheList.DeleteObject | proxylab-handout/cache.c:129-153 | delete_object: the first object with the id is unlinked, its next cleared and its length returned to the budget; NULL and no change when absent |
| ProxyCache.CacheList.Unlink | proxylab-handout/cache.c:138-148 | the unlinking step: first, last and the predecessor's next bypass the object, and the budget is restored |
| ProxyCache.CacheList.EvictObject | proxylab-handout/cache.c:159-175 | evict_object: the front object leaves and its length returns to the budget; -1 and no change on an empty list |
| ProxyCache.CacheList.AddToCache | proxylab-handout/cache.c:182-199 | add_to_cache: evicts the fewest front objects that make room and appends the new object; -1 exactly when it is larger than the whole budget, with everything evicted |
| ProxyCache.CacheList.SearchCache | proxylab-handout/cache.c:76-109 | search_cache: on a hit, copies data and length out and moves the object to the end, others in order; -1 and no change on a miss |
| CacheCheck.SomeBefore | proxylab-handout/cache.c:230-248 | once the chain reaches NULL it stays there |
| CacheCheck.SameAfter | proxylab-handout/cache.c:230-248 | two equal nodes have equal successors however far on |
| CacheCheck.Periodic | proxylab-handout/cache.c:230-248 | a node that recurs after d steps makes the chain periodic with period d from there on |
| CacheCheck.RecurrenceIsCycle | proxylab-handout/cache.c:234-245 | a node met again before NULL means the chain is cyclic |
| CacheCheck.Pigeonhole | proxylab-handout/cache.c:230-248 | k distinct nodes that all have a successor need k keys in the successor map |
| CacheCheck.Collision | proxylab-handout/cache.c:230-248 | a chain alive long enough repeats a node among its first |succ| + 1 nodes |
| CacheCheck.Meets | proxylab-handout/cache.c:230-248 | a chain alive at the step bound has a step n where the hare's node n equals the tortoise's node n/2 |
| CacheCheck.CheckCache | proxylab-handout/cache.c:225-252 | check_cache reports a cycle exactly when the next chain from first never reaches NULL |
| CacheCheck.ListAcyclic | proxylab-handout/cache.c:225-252 | the chain of a well-formed list reaches NULL, so check_cache reports it OK |
| ProxyRequest.IndexOf | proxylab-handout/proxy.c:170 | index(): the first position of the character, none before it, or the end |
| ProxyRequest.SplitHostPort | proxylab-handout/proxy.c:170-175 | with a colon, host and port rejoined with ":" give the hostname and the host has no colon; without one, the port is "80" |
| ProxyRequest.SplitJoin | proxylab-handout/proxy.c:170-175 | splitting host + ":" + port for a colon-free host gives host and port back |
| ProxyRequest.EqualFoldMeaning | proxylab-handout/proxy.c:184-185 | strcasecmp == 0 exactly for strings of equal length that agree once lowered |
| ProxyRequest.IsGet | proxylab-handout/proxy.c:184-185 | only GET in any mix of cases passes the method test |
| ProxyRequest.ContainsMeaning | proxylab-handout/proxy.c:197-205 | strstr finds t exactly when t occurs at some position of s |
| ProxyRequest.ContainsWithin | proxylab-handout/proxy.c:197-205 | occurrence is transitive |
| ProxyRequest.ProxyNamesConnection | proxylab-handout/proxy.c:199-202 | a line that contains "Proxy-Connection:" contains "Connection:", so the earlier Connection test catches it |
| ProxyRequest.RewriteLine | proxylab-handout/proxy.c:197-210 | one header line as forwarded: the line itself, the proxy's User-Agent, "Connection: close" or the Host header, so the Proxy-Connection branch never supplies the result; a line changes only when it names User-Agent, Connection or Host; a line ending in "\r\n" stays so |
| ProxyRequest.ProxyConnectionSentAsConnection | proxylab-handout/proxy.c:199-202 | a Proxy-Connection line takes the Connection branch, so "Proxy-Connection: close" is never sent |
| ProxyRequest.HostLineReplaced | proxylab-handout/proxy.c:203-207 | a Host line becomes "Host: " + host + "\r\n" for the host without its port |
| ProxyRequest.BlankAt | proxylab-handout/proxy.c:194-196 | the position of the first "\r\n" line, none before it, or the end |
| ProxyRequest.RewriteAll | proxylab-handout/proxy.c:197-211 | every line rewritten, in order |
| ProxyRequest.HeadersMeaning | proxylab-handout/proxy.c:194-212 | the forwarded headers are the rewritten lines before the first blank line, in order, then "\r\n" |
| ProxyRequest.RequestLine | proxylab-handout/proxy.c:187-192 | the forwarded request line starts with the method and a space, ends with "HTTP/1.0\r\n" whatever version the client sent, and a space-free method ends at its first space |
| ProxyRequest.CacheKey | proxylab-handout/proxy.c:213-220 | the cache_id: for a space-free method and port and a colon-free host, cutting it at its first space, the next colon and the next space (KeyFields) gives method, host, port and filename back |
| ProxyRequest.Compose | proxylab-handout/proxy.c:160-220 | a request is composed exactly when the method is GET in any case |
| ProxyRequest.KeyIdentifiesRequest | proxylab-handout/proxy.c:214-220 | equal cache keys of space-free GET requests mean equal method, host, port and filename |
| ProxyRequest.ForwardRequest | proxylab-handout/proxy.c:160-220 | forward_request's strcpy/strcat sequence and header loop build Compose's request and key |
| ProxyResponse.CachebufAppend | proxylab-handout/proxy.c:354-362 | refuses (0) with no change past MAX_OBJECT_SIZE; otherwise writes the chunk at offset length, keeps all other bytes, returns 1 and the new length |
| ProxyResponse.RefusalSticks | proxylab-handout/proxy.c:270-272 | once the response so far is over MAX_OBJECT_SIZE, every longer prefix is too |
| ProxyResponse.ForwardServerResponse | proxylab-handout/proxy.c:255-347 | valid_size stays 1 exactly while the response fits; the whole response is then cached (add_to_cache cannot fail), and otherwise the cache is unchanged |

## Left out

- Sockets, threads, signals, `Rio_*` I/O, `printf` output and `exit` in every file are left out. The checker returns its flags instead of printing them, and `check_cache` returns a boolean.
- `mem_sbrk`, `mem_heap_lo` and `mem_heap_hi` are a library outside this model. The heap's growth is an abstract step that may fail: the `growOk` parameter.
- Allocator.Heap.Malloc: tags are unbounded here, while the source packs them in 32-bit words (mm_segregated.c:80-84), so a block of 2^32 bytes or more would lose its size. The heap's upper bound (memlib's limit) is outside the model, so only requests whose rounding overflows size_t are refused outright; larger heaps are limited only by `growOk`. For those refused requests, the first-fit and "NULL only when nothing fits" clauses are not promised, here or in the callers that pass them on (Relocate, ReallocLarger, Realloc, NaiveRealloc, Calloc).
- Allocator.Heap.ReallocLarger: moves the payload, Payload(bp) = oldsize - Overhead(cfg) bytes (oldsize - 16 in the segregated allocator), where both memcpy calls of mm_segregated.c:275 and :284 copy oldsize bytes (the block's footer and the next header too); so do CoalesceMove, GrowInPlace, Relocate and Realloc. The extra 16 bytes hold none of the caller's data, and for the last block they lie past the break (see Findings), so the model does not copy them and keeps them where they were.
- Allocator.Heap.Init: the lazy `mm_init()` calls in malloc and free (mm_segregated.c:173-175, 204-206), which ignore its -1, are not modelled. Every operation takes a heap that `Init` created.
- The heap starts at address 0, so the checker's lower-bound test on block pointers never fires and is not modelled.
- Pointer casts and 32-bit link offsets become block pointers; a NULL link is `None`.
- The cache's semaphores, `readcnt`, `open_reader` and `close_reader` are left out, because their point is concurrency.
- ProxyCache.CacheList.SearchCache: the -1 path taken when another thread deletes the object between the search and the delete (cache.c:102-104) is left out; it cannot happen without a concurrent deleter.
- `destroy_cache` and the `Malloc` calls of `init_object` are left out. They only allocate and free memory, which Dafny's heap does not model.
- CacheCheck.CheckCache: runs on a successor map over node numbers rather than on the objects' `next` fields. A chain of objects has no well-founded measure in Dafny's heap, and the map gives one (its key count).
- ProxyResponse.ForwardServerResponse: takes the response's pieces (status line, header lines, body blocks) as a sequence. The reading loops, the Content-Length parse and the early -1 returns on I/O errors are left out.
- `parse_request` is left out (sscanf format semantics); the method, hostname and filename are inputs. ProxyRequest.KeyIdentifiesRequest assumes what its "%s" scans guarantee: no space in method or hostname.
- `forward_cache_response` and `proxy_nocache.c` are left out. They are I/O only, or a copy of the request rewrite already modelled.
- The MAXLINE bounds of the fixed request buffers are left out: the model's strings are unbounded, and `strcat` overflow is not modelled.
- Transpose performance (cache misses) is out of scope; only the functional result is proved.
- Transpose.TransposeSubmit requires M to be a multiple of 8 for N = 32 or 64. Without that the blocked loops index A out of bounds.

## Findings

| source | as written | input that shows it | evidently intended | confidence | as-written member | corrected member |
|---|---|---|---|---|---|---|
| malloclab-handout/mm_segregated.c:297-313 | search_list scans the start list twice and, when nothing fits, reads free_lists[NUM_LISTS] | any request with no fitting free block | one pass over lists get_list(asize)..19 | high, not executed | FirstFit.SearchAsWrittenReadsPastEnd | Allocator.Heap.FindFit |
| malloclab-handout/mm_segregated.c:248-253 | the shrinking realloc frees the tail without coalescing it | shrink a block whose successor is free | the freed tail is coalesced with a free successor | high, not executed | AllocFindings.ShrinkAsWrittenLeavesFreePair | Allocator.Heap.ShrinkInPlace |
| malloclab-handout/mm_segregated.c:274-276 | memcpy moves the payload into the merged predecessor over overlapping ranges | predecessor of 24 bytes, block of 48 bytes | an overlap-safe move (memmove) | high, not executed | AllocFindings.GrowCopyOverlaps | Allocator.Heap.CoalesceMove |
| malloclab-handout/mm_segregated.c:282-286 | the fallback copies to malloc's result without a NULL check | growth fails and no block fits | return NULL and leave the old block untouched | high, not executed | AllocFindings.FallbackWritesNull | Allocator.Heap.Relocate |
| malloclab-handout/mm_segregated.c:274-284 | both moving branches copy oldsize = GET_SIZE(HDRP(ptr)) bytes: the payload, the block's footer and the next block's header | heap [free A, 24 bytes][allocated B, 48 bytes][epilogue], realloc(B, 40): the coalescing memcpy(A, B, 48) reads 4 bytes past the break and writes B's footer and the epilogue word into A's payload; the fallback does the same for the last block when malloc(newsize) finds a fit without extending the heap | copy the payload only | high, not executed | AllocFindings.OldsizeCopyReadsPastBreak | Allocator.Heap.ReallocLarger |
| malloclab-handout/mm_oldrealloc.c:236-238 | the copy count is min(size, block size), header and footer included | grow the last block before the epilogue while malloc(size) finds a fit without extending the heap (an extension moves the break past bp + GET_SIZE(HDRP(bp))) | copy at most the payload | medium, not executed | AllocFindings.NaiveCopyReadsPastBreak (stated against the break before malloc) | Allocator.Heap.NaiveRealloc |
| malloclab-handout/mm_segregated.c:216-222 | nmemb*size wraps in size_t, and memset runs on a NULL result | nmemb = 2^32 + 1, size = 2^32; or malloc failing | NULL on overflow, and zeroing only a real block | high, not executed | AllocFindings.CallocRequestWraps | Allocator.Heap.Calloc |
| malloclab-handout/mm_segregated.c:216-222 | memset(bp, 0, asize) runs when malloc returned NULL | growth fails and no block fits | return NULL | high, not executed | AllocFindings.CallocFillsNull | Allocator.Heap.Calloc |
| malloclab-handout/mm_segregated.c:346-354 | the rounding sum size + 16 + 7 (size + 24 + 7 in mm_explicit.c:156) wraps in size_t | malloc(2^64 - 1) asks for a 16-byte block | NULL for a request no block can hold | high, not executed | AllocFindings.AlignSizeWraps | Allocator.Heap.Malloc |
| malloclab-handout/mm_segregated.c:606-614 | `num_tail[l]++ > 1` and `num_head[l]++ > 1` fire only on a third tail or head | two free 32-byte blocks that are each the head and the tail of the same list | flag a second tail or head | high, not executed | HeapCheck.SecondTailMissed | HeapCheck.Flag2 |
