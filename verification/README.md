# Two memory allocators, modelled and proved in Dafny

The repository contains two allocators for host and device memory. This project models both as
state machines over one address space and proves what their designs promise.

**BuddyAllocator** (`src/cpp/allocators/bestfit_allocator`) carves arenas obtained from a system
allocator into blocks. Neighbouring blocks are linked as left and right buddies, free blocks are
also held in an ordered pool, and block descriptors live either at the head of their block or, for
device memory, in a side table. `BlockTable` models the linked blocks with `split` and `merge`,
`MetaCache` the two ways of storing descriptors, `MemoryBlocks` the operations that load and save
them, `PoolOrder` the pool and its search, and `BuddyAllocator` the class itself. The steps of
Alloc and Free are written down once as functions on states (`BuddyModel`, `BuddyRuns`); the
methods of the class are proved to make these steps, and the promises are proved about the steps
and about all runs made of them (`Accounting`, `BuddyLaws`, `BuddyHistory`, `BuddyTrim`).

**UniAllocator** (`src/cpp/allocators/uni_allocator`) is a dlmalloc derivative with boundary tags,
small bins with a bitmap, bitwise tries of large chunks with a ring per size, a designated victim
and a top chunk. `Heap` and `HeapLaws` treat the arena as a row of tagged chunks; `Bitmap`,
`TreeIndex`, `Rings`, `Tries`, `TreeBins`, `TreeUpdates`, `BinIndex` and `IndexLaws` the index of
free chunks; `TreeSearch` and `SmallSearch` the choice of a chunk; `MallocState` and
`UniAllocator` the classes that update all of this in place. `HeapViews` says what each step does to
the chunks handed out, the bins, the designated victim and top; `Collisions` and `UniLaws` when a
step throws; `UniClients` follows clients over several calls, as `BuddyClients` does for
BuddyAllocator.

## Main results

- Every Alloc of UniAllocator that returns normally keeps the arena tiled and consistently tagged,
  with no two free neighbours, and keeps the bins in exact agreement with the free chunks. So does
  every Free, exactly unless it releases the chunk below a top whose header word reads as in use.
- Whether top's word reads as in use can be told from the region: bit 1 of its end is set.
- A request is served from a least fitting binned chunk, from the designated victim or from top, in
  the order the code promises, for every well-formed trie and not only for those the code can build.
- `insert_large_chunk` throws exactly when a tree bin holds chunks but none of the size to be filed.
  Free and Alloc throw exactly when a coalesced chunk, or the remainder of a best fit that beats the
  designated victim, meets such a bin. Removal from a trie never throws. Inputs for both are given.
- The layout of a UniAllocator arena is a function of the chunks handed out, so Alloc followed by a
  Free that returns restores it, where top can be read. There, in reachable states, it throws exactly
  if Alloc used up a designated victim of at least 256 bytes whose size its tree bin refuses; an
  input is given.
- Every run of calls goes step by step as stated for Alloc and Free, and stops exactly at the first
  call that throws. Where top can be read, at every moment the chunks in use are exactly the
  client's, and every trie is a single node with its ring.
- In every reachable state of BuddyAllocator the blocks tile their arenas, the links are inverse to
  each other, no two buddies are both free, and the pool is exactly the set of free blocks.
- A request of BuddyAllocator is served from the pool whenever an entry fits, and then from the one
  with the least index, of these the smallest, of these the lowest.
- Alloc followed by Free restores all descriptors, all links and the pool; the counters are restored
  exactly when the block granted has the size asked for.
- The counters are true in every reachable state exactly if what is left of an arena after its last
  possible cut is more than a descriptor, or no cut is possible.
- Once everything has been freed, the destructor returns each region as it was obtained.
- Both ways of storing descriptors lead to the same behaviour in every run, whatever clients write
  into their payloads.

## Where the code departs from its design

- `insert_large_chunk` checks `ok_address(*C)` where `*C` is null (`uni_allocator.h:276-286`), so a
  second size never enters an occupied tree bin; it throws instead. `Collides` names this case, and
  `UniClients.ReachedFlat` shows that the tries so built are single nodes with their rings. The
  refused chunk's own `index` and `child` fields have then already been set.
- A root gets itself as parent (`uni_allocator.h:268`), and a replacement inherits the removed
  node's parent, so for roots only "the parent is not null" is kept.
- The header of top is its size or-ed with the flags (`uni_allocator.h:107`, `uni_allocator.cc:125`),
  and the size may be any number. If bit 1 of it is set, Free takes top for a chunk in use
  (`uni_allocator.cc:184`) and leaves the released chunk as a free chunk next to it.
  `Heap.TopReads` says when, and `UniClients.TopStrays` that it then happens in every such region.
- The payload starts 32 bytes into a chunk (`size_bits.h:2`) while the padding accounts for 8
  (`chunk.h:84`): `Chunks.PayloadInsideIff` says when the payload stays inside.
- InitOrExpand drops every region after the first, and Alloc retries without end
  (`uni_allocator.cc:134-135`): `AllocRetrying` shows that a retry cannot help.
- The bail-out of `split` (`memory_block.cc:68`) grants more than the counters account for:
  `BuddyHistory.CountersTrueIff` gives the exact condition.
- Size computations of BuddyAllocator can wrap: `BuddyRuns.RequestEnough` gives the exact condition.

## Modelling choices

- Addresses are integers, 0 is null, and the headers of small bins have negative addresses, which no
  chunk has. `size_t` arithmetic that can wrap is written out modulo 2^64; `binmap_t` is a sequence
  of 32 bits.
- The memory words of chunks are maps from addresses to fields. A header is kept as what is read
  back from its word; `Heap.WordsRead` ties the two together. `MallocState` keeps them in two
  fields of struct type, `bins` and `arena`, which its methods reassign; ghost parts name the rings,
  the trie slots and the chunk boundaries.
- Long functions of the source are split into methods, one per branch or loop.
- What the system allocator answers is a parameter. It answers null or a region that lies in the
  address space beside all regions held.
- `std::hash` is an uninterpreted function; only "what was saved passes its guards" is used.
- UniAllocator operations end in one of three ways: memory, MemoryCorruptedException, or the need
  for growth. Invariants are claimed after normal returns.
- Sizes of UniAllocator chunks are below 2^40, the range in which tree indices are right.

## Model

| member | source | states |
|---|---|---|
| `Bitmap.MarkBins` | src/cpp/allocators/uni_allocator/uni_allocator.h:127-148 | marking, clearing and testing a bit act on the set of marked bins as union, difference and membership |
| `Bitmap.LeastBitIndex` | src/cpp/allocators/uni_allocator/uni_allocator.h:156-169 | `x & -x` followed by counting trailing zeros yields the least marked bin |
| `Bitmap.LeftBitsOfBit` | src/cpp/allocators/uni_allocator/uni_allocator.h:161-163 | `left_bits(idx2bit(i))` is the mask of exactly the bins above `i` |
| `TreeIndex.IndexInBin` | src/cpp/allocators/uni_allocator/uni_allocator.h:440-450 | a size below 2^40 lies in the interval of the bin computed for it |
| `TreeIndex.IndexMonotone` | src/cpp/allocators/uni_allocator/uni_allocator.h:440-450 | a size with a smaller index is smaller |
| `TreeIndex.IndexBelow` | src/cpp/allocators/uni_allocator/uni_allocator.h:440-450 | the index is below 32 for every size |
| `TreeIndex.BinUnique` | src/cpp/allocators/uni_allocator/uni_allocator.h:440-450 | the bins' intervals are disjoint |
| `TreeIndex.IndexCorrectIff` | src/cpp/allocators/uni_allocator/uni_allocator.h:440-450 | with the 32-bit truncation of the shifted size, the index is right exactly for sizes below 2^40 or whose truncated value is at least 0xC000 |
| `IndexLaws.SharedHighBits` | src/cpp/allocators/uni_allocator/uni_allocator.h:440-455 | two sizes of one bin agree on every bit above the one that `leftshift_for_tree_index` moves to bit 63 |
| `IndexLaws.TreeIndexIs` | src/cpp/allocators/uni_allocator/uni_allocator.h:440-450 | sizes from 2^(k+8) up to one and a half times that are in tree bin 2k, those from there up to 2^(k+9) in bin 2k+1 |
| `IndexLaws.LastTreeIndex` | src/cpp/allocators/uni_allocator/uni_allocator.h:440-450 | all sizes from 12582912 on share bin 31 |
| `IndexLaws.ShiftIsTight` | src/cpp/allocators/uni_allocator/uni_allocator.h:452-455 | the shift leaves exactly the bits in which the sizes of a bin can differ |
| `Tries.RegisterStart` | src/cpp/allocators/uni_allocator/uni_allocator.h:271-276 | the shifted size starts a descent at the first bit in which sizes of the bin can differ |
| `Tries.RegisterStep` | src/cpp/allocators/uni_allocator/uni_allocator.h:271-280 | testing bit 63 selects the child whose interval holds the size, and shifting by one prepares the next level |
| `TreeBins.LeftmostLeast` | src/cpp/allocators/uni_allocator/tree_chunk.h:15-17 | below a node, every size is under the leftmost child or larger than that child's |
| `TreeBins.AncestorIn` | src/cpp/allocators/uni_allocator/tree_chunk.h:27-28 | an occupied slot has occupied ancestors up to the root |
| `Rings.RingInsert` | src/cpp/allocators/uni_allocator/uni_allocator.h:249-252 | linking behind a ring's head gives the ring with the chunk in second place |
| `Rings.RingRemove` | src/cpp/allocators/uni_allocator/uni_allocator.h:541-542 | unlinking gives the ring without the chunk |
| `TreeUpdates.JoinLinked` | src/cpp/allocators/uni_allocator/uni_allocator.h:288-294 | a chunk of an existing size joins its node's ring and all links stay right |
| `TreeUpdates.LeaveLinked` | src/cpp/allocators/uni_allocator/uni_allocator.h:335-343 | a chunk behind its node leaves the ring and all links stay right |
| `TreeUpdates.ReplacedLinked` | src/cpp/allocators/uni_allocator/uni_allocator.h:360-399 | linking a replacement in the place of a node gives right parent, child and treebin links everywhere |
| `TreeUpdates.PromoteOk` | src/cpp/allocators/uni_allocator/uni_allocator.h:345-358 | a leaf cut off below a node may take its place: its size fits every slot above it |
| `TreeUpdates.DropOk` | src/cpp/allocators/uni_allocator/uni_allocator.h:360-365 | a leaf without replacement can be dropped |
| `BinIndex.SmallInsertedOk` | src/cpp/allocators/uni_allocator/uni_allocator.h:237-253 | after `insert_small_chunk` the index is well formed |
| `BinIndex.SmallRemoval` | src/cpp/allocators/uni_allocator/uni_allocator.h:528-549 | after unlinking from a small bin the index is well formed and lacks that chunk; the neighbour checks of the code hold beforehand |
| `BinIndex.LargeRootedOk` | src/cpp/allocators/uni_allocator/uni_allocator.h:263-269 | after rooting a chunk in an empty tree bin the index is well formed |
| `BinIndex.LargeJoinedOk` | src/cpp/allocators/uni_allocator/uni_allocator.h:288-294 | after joining a same-size ring the index is well formed |
| `BinIndex.DescendStep` | src/cpp/allocators/uni_allocator/uni_allocator.h:273-280 | one step of the descent: either the next slot is on the path of the size, or the bin holds no chunk of that size |
| `BinIndex.LargeLeftOk` | src/cpp/allocators/uni_allocator/uni_allocator.h:335-343 | removing a chunk behind its node leaves a well-formed index |
| `BinIndex.LargeRotatedOk` | src/cpp/allocators/uni_allocator/uni_allocator.h:335-399 | removing a node that has a ring leaves a well-formed index with the node replaced by its ring predecessor |
| `BinIndex.LargePromotedOk` | src/cpp/allocators/uni_allocator/uni_allocator.h:344-399 | removing a lone node with descendants leaves a well-formed index with a leaf in its place |
| `BinIndex.LargeDroppedOk` | src/cpp/allocators/uni_allocator/uni_allocator.h:344-374 | removing a lone leaf leaves a well-formed index, its treemap bit cleared if it was the root |
| `IndexLaws.ExactlyOneBin` | src/cpp/allocators/uni_allocator/uni_allocator.h:178-303 | a chunk is binned if and only if some bin holds it, and then one bin in one place |
| `IndexLaws.FiledBySize` | src/cpp/allocators/uni_allocator/uni_allocator.h:236-303 | the bin a chunk is found in is the one its size maps to |
| `IndexLaws.RingHoldsSize` | src/cpp/allocators/uni_allocator/uni_allocator.h:288-294 | a trie node's ring holds all binned chunks of its size and no others |
| `Collisions.RefusedIffSecondSize` | src/cpp/allocators/uni_allocator/uni_allocator.h:276-286 | `insert_large_chunk` refuses exactly the sizes that would be a second one in their tree bin |
| `IndexLaws.TriesAreFlat` | src/cpp/allocators/uni_allocator/uni_allocator.h:255-303 | with one size per tree bin, which InitOrExpand establishes and Alloc and Free keep, every trie is a single node with its ring |
| `IndexLaws.SmallBitMeaning` | src/cpp/allocators/uni_allocator/uni_allocator.h:127-138 | a smallmap bit is set if and only if a binned chunk belongs to that bin |
| `IndexLaws.TreeBitMeaning` | src/cpp/allocators/uni_allocator/uni_allocator.h:140-148 | a treemap bit is set if and only if a binned chunk belongs to that bin |
| `IndexLaws.BinnedAreFree` | src/cpp/allocators/uni_allocator/uni_allocator.h:561-592 | between operations exactly the free chunks other than the designated victim and top are binned, with their header sizes |
| `TreeSearch.SearchStep` | src/cpp/allocators/uni_allocator/uni_allocator.h:468-485 | one step of the search along the bits of the request: what fits is below the next slot, in the subtree set aside, or no better than the best so far |
| `TreeSearch.ScanStep` | src/cpp/allocators/uni_allocator/uni_allocator.h:497-504 | one step to the leftmost child keeps every better chunk below the scan |
| `TreeSearch.NextBin` | src/cpp/allocators/uni_allocator/uni_allocator.h:487-495 | the bit trick selects the least occupied tree bin above a given one, or shows there is none |
| `TreeSearch.LeastOfBin` | src/cpp/allocators/uni_allocator/uni_allocator.h:487-504 | the least fitting chunk of the least occupied bin is the least of all tree chunks |
| `SmallSearch.NextSmallBin` | src/cpp/allocators/uni_allocator/uni_allocator.cc:64-73 | the bit trick selects the small bin with the least size that is at least the request |
| `SmallSearch.SmallBits` | src/cpp/allocators/uni_allocator/uni_allocator.cc:49-54 | the test of the two lowest bits succeeds exactly if a chunk of the very size is binned |
| `SmallSearch.NoSmallBits` | src/cpp/allocators/uni_allocator/uni_allocator.cc:65-89 | without a bit left no small chunk fits |
| `UniAllocators.UniAllocator.NextSmallIndex` | src/cpp/allocators/uni_allocator/uni_allocator.cc:68-72 | computes the small bin with the least size that is at least the request |
| `UniAllocators.UniAllocator.AllocLargeFromTrees` | src/cpp/allocators/uni_allocator/uni_allocator.cc:94-102 | serves a large request from the trees with a best fit, or leaves everything as it was when none fits or the designated victim is as good; throws if and only if a best fit that beats the victim leaves a large remainder that its tree bin refuses |
| `MallocStates.MallocState.InitTop` | src/cpp/allocators/uni_allocator/uni_allocator.h:99-109 | the arena starts at the least aligned address of the region and ends with it; all of it becomes top, whatever bits its size leaves in the header word |
| `MallocStates.MallocState.InitBins` | src/cpp/allocators/uni_allocator/uni_allocator.h:116-124 | every small-bin header points at itself |
| `MallocStates.MallocState.InsertSmallChunk` | src/cpp/allocators/uni_allocator/uni_allocator.h:236-253 | never throws; exactly the chunk is added, at the front of its bin |
| `MallocStates.MallocState.UnlinkFirstSmallChunk` | src/cpp/allocators/uni_allocator/uni_allocator.h:177-191 | never throws; exactly the first chunk of the bin is removed |
| `MallocStates.MallocState.UnlinkSmallChunk` | src/cpp/allocators/uni_allocator/uni_allocator.h:528-549 | never throws; exactly the chunk is removed, wherever it is in its bin |
| `MallocStates.MallocState.InsertLargeChunk` | src/cpp/allocators/uni_allocator/uni_allocator.h:255-303 | throws if and only if the tree bin is occupied without a chunk of that size; otherwise exactly the chunk is added, second in the ring of its size or as the root of an empty bin; on a throw no chunk, node or ring has changed |
| `MallocStates.MallocState.DescendAndJoin` | src/cpp/allocators/uni_allocator/uni_allocator.h:271-301 | the descent terminates and meets a node of the size if and only if the bin holds one, and then the chunk becomes second in its ring |
| `MallocStates.MallocState.UnlinkLargeChunk` | src/cpp/allocators/uni_allocator/uni_allocator.h:332-400 | over every well-formed trie: terminates, never throws, leaves a well-formed trie with exactly the chunk removed; a node with a ring is replaced by the last of its ring, a lone node by the leaf reached by going right where possible |
| `MallocStates.MallocState.DetachLeaf` | src/cpp/allocators/uni_allocator/uni_allocator.h:344-358 | the loop ends at a leaf strictly below the node and cuts it off |
| `MallocStates.MallocState.AdoptChildren` | src/cpp/allocators/uni_allocator/uni_allocator.h:375-398 | the replacement takes over parent and children |
| `MallocStates.MallocState.InsertChunk` | src/cpp/allocators/uni_allocator/uni_allocator.h:305-312 | adds exactly the chunk, or throws if and only if its tree bin refuses the size |
| `MallocStates.MallocState.UnlinkChunk` | src/cpp/allocators/uni_allocator/uni_allocator.h:551-558 | removes exactly the chunk, never throws |
| `MallocStates.MallocState.ReplaceDv` | src/cpp/allocators/uni_allocator/uni_allocator.h:314-325 | the chunk becomes the designated victim and the old one is binned |
| `MallocStates.MallocState.FindLargeFit` | src/cpp/allocators/uni_allocator/uni_allocator.h:458-504 | over every well-formed set of tree bins: a chunk of the least size that fits, or null if and only if none does |
| `MallocStates.MallocState.FindSmallFit` | src/cpp/allocators/uni_allocator/uni_allocator.h:403-418 | a least tree chunk |
| `MallocStates.MallocState.TmallocSmall` | src/cpp/allocators/uni_allocator/uni_allocator.h:402-437 | never throws; hands out the front of a least tree chunk; a remainder of 32 bytes or more becomes the designated victim and the old one is binned with its size |
| `MallocStates.MallocState.FindBetterThanDv` | src/cpp/allocators/uni_allocator/uni_allocator.h:458-507 | a best fit that beats the designated victim strictly, with the wrapped difference when the victim is too small; null if and only if there is none or the victim is as good |
| `MallocStates.MallocState.TmallocLarge` | src/cpp/allocators/uni_allocator/uni_allocator.h:457-526 | takes such a best fit and bins the remainder; null with nothing changed if there is none; throws if and only if one leaves a large remainder that its tree bin refuses |
| `Chunks.PackRoundTrip` | src/cpp/allocators/uni_allocator/chunk.h:19-42 | size and flags can be read back from a header word if and only if the size is a multiple of 8 |
| `Chunks.FlagsRead` | src/cpp/allocators/uni_allocator/chunk.h:19-59 | the flags read back from a word are those written and those the size itself sets |
| `Heap.WordsRead` | src/cpp/allocators/uni_allocator/chunk.h:19-59 | in every chunk of the arena the flags the code tests are those its word reads back, and below top so is the size |
| `Heap.TopReads` | src/cpp/allocators/uni_allocator/uni_allocator.h:99-109 | the word of top reads as in use if and only if bit 1 of the address where the arena ends is set, however much has been handed out |
| `HeapViews.FirstReadable` | src/cpp/allocators/uni_allocator/uni_allocator.cc:13-35 | for the caller: that is the case if and only if bit 1 of the end of the region is set |
| `Chunks.RequestSizeOk` | src/cpp/allocators/uni_allocator/chunk.h:112-118 | padding gives an aligned chunk size with room for the request and one header word, small exactly for small requests |
| `Chunks.RequestSizeLeast` | src/cpp/allocators/uni_allocator/chunk.h:112-122 | below 2^64 - 128 bytes the padded size is the least multiple of 16 that is at least 32 and at least the request plus 8 |
| `Chunks.AlignOffsetLeast` | src/cpp/allocators/uni_allocator/chunk.h:94-97 | the offset leads to the least address that is a multiple of 16 |
| `Chunks.PayloadInsideIff` | src/cpp/allocators/uni_allocator/chunk.h:83-122 | the payload, which starts 32 bytes into its chunk, stays inside exactly for at most 8 bytes or with an unsplit remainder |
| `Heap.WholeOk` | src/cpp/allocators/uni_allocator/uni_allocator.h:193-198 | handing out a free chunk whole keeps the tags consistent |
| `Heap.SplitOk` | src/cpp/allocators/uni_allocator/uni_allocator.cc:81-84 | splitting a free chunk keeps the tags consistent |
| `Heap.DvSplitOk` | src/cpp/allocators/uni_allocator/uni_allocator.cc:107-111 | splitting the designated victim keeps the tags consistent |
| `Heap.TopSplitOk` | src/cpp/allocators/uni_allocator/uni_allocator.cc:121-127 | splitting top keeps the tags consistent |
| `Heap.MergeOk` | src/cpp/allocators/uni_allocator/uni_allocator.cc:161-214 | coalescing a run of chunks keeps the tags consistent |
| `Heap.ReleasedOk` | src/cpp/allocators/uni_allocator/uni_allocator.cc:161-230 | releasing a chunk with full coalescing keeps the tags consistent and takes back exactly that chunk, unless the chunk lies below a top that reads as in use |
| `Heap.StrayTouches` | src/cpp/allocators/uni_allocator/uni_allocator.cc:183-214 | then the released chunk stays a free chunk of its own right below top, and the arena is no longer consistently tagged |
| `Heap.ReleasedTags` | src/cpp/allocators/uni_allocator/uni_allocator.cc:161-183 | the tags around a chunk in use tell Free its neighbours, top excepted |
| `HeapLaws.Tiling` | src/cpp/allocators/uni_allocator/uni_allocator.cc:41-230 | every address of the arena lies in exactly one chunk |
| `HeapLaws.TagsTell` | src/cpp/allocators/uni_allocator/chunk.h:19-68 | sizes are aligned and at least 32, `pinuse` tells whether the predecessor is in use, `prev_foot` after a free chunk is its size, and no two free chunks touch |
| `HeapLaws.Determined` | src/cpp/allocators/uni_allocator/uni_allocator.cc:141-230 | the chunks handed out determine the whole layout: every gap is one free chunk |
| `HeapLaws.AllFree` | src/cpp/allocators/uni_allocator/uni_allocator.cc:141-230 | with nothing handed out the arena is one top chunk and nothing is binned or elected |
| `HeapLaws.RoundTrip` | src/cpp/allocators/uni_allocator/uni_allocator.cc:161-214 | coalescing what was just handed out with its neighbours gives the layout from before, wherever the chunk came from, if top reads as free |
| `HeapLaws.Conservation` | src/cpp/allocators/uni_allocator/uni_allocator.cc:41-230 | bytes in use, bytes free and top add up to the arena |
| `UniAllocators.UniAllocator.TakeExact` | src/cpp/allocators/uni_allocator/uni_allocator.cc:52-63 | an exact small bin serves the request with its first chunk, which has exactly that size |
| `UniAllocators.UniAllocator.TakeNext` | src/cpp/allocators/uni_allocator/uni_allocator.cc:65-88 | the next small bin serves the request with its first chunk, a best fit; a remainder of 32 bytes or more becomes the designated victim and the old one is binned with its size |
| `UniAllocators.UniAllocator.AllocSmall` | src/cpp/allocators/uni_allocator/uni_allocator.cc:49-93 | when it returns memory for a request beyond the designated victim, the chunk has the least fitting size among all binned chunks, a remainder of 32 bytes or more has become the victim and the old victim is binned; when it does not, none fits |
| `UniAllocators.UniAllocator.AllocDvOrTop` | src/cpp/allocators/uni_allocator/uni_allocator.cc:104-132 | the designated victim if large enough, else top if strictly larger, else growth, with the heap unchanged |
| `UniAllocators.UniAllocator.Alloc` | src/cpp/allocators/uni_allocator/uni_allocator.cc:41-138 | hands out exactly one new chunk, of the padded size or less than 32 bytes more, chosen as best fit before designated victim before top, and leaves bins, victim and top as that choice demands; without a throw it returns memory if and only if some multiple of 16 that holds the request with one header word has room in the bins, the victim or top, and never from 2^64 - 128 bytes on; otherwise nothing has changed; throws if and only if a best fit that beats the victim leaves a remainder that its tree bin refuses; keeps one size per tree bin |
| `UniAllocators.UniAllocator.RoomIff` | src/cpp/allocators/uni_allocator/uni_allocator.cc:94-132 | memory is not exhausted for a request if and only if some size that is enough has room |
| `UniLaws.SmallChoice` | src/cpp/allocators/uni_allocator/uni_allocator.cc:44-93 | where a small request is served: by a chunk of its very size, else by the victim, else by a least binned chunk that fits, else by top |
| `UniLaws.LargeChoice` | src/cpp/allocators/uni_allocator/uni_allocator.cc:94-132 | where a large request is served: by a least fitting chunk smaller than a victim that would do, else by that victim, else by top |
| `UniAllocators.UniAllocator.FreeIntoTop` | src/cpp/allocators/uni_allocator/uni_allocator.cc:184-196 | the released chunk joins a top that reads as free, and with it a designated victim just below |
| `UniAllocators.UniAllocator.FreeIntoDv` | src/cpp/allocators/uni_allocator/uni_allocator.cc:197-201 | the released chunk joins the designated victim above it, which now begins where the coalesced chunk does and has the size of both |
| `UniAllocators.UniAllocator.FreeBehindDv` | src/cpp/allocators/uni_allocator/uni_allocator.cc:170-176 | the designated victim below takes in the released chunk and its size; the invariant holds unless the next chunk is a top that reads as in use |
| `UniAllocators.UniAllocator.FreeForward` | src/cpp/allocators/uni_allocator/uni_allocator.cc:183-227 | the forward half of Free in all its branches, also for a top that reads as in use, with the exact condition for a throw and the new designated victim |
| `UniAllocators.UniAllocator.Free` | src/cpp/allocators/uni_allocator/uni_allocator.cc:141-234 | takes back exactly the chunk and keeps the whole invariant, if and only if the chunk is not just below a top that reads as in use; the coalesced chunk joins top or the designated victim or is binned, and its binned neighbours leave their bins; throws if and only if it goes to a tree bin that refuses its size; keeps one size per tree bin |
| `UniLaws.BackGiven` | src/cpp/allocators/uni_allocator/uni_allocator.cc:165-229 | what a release leaves where top can be read: the coalesced chunk is part of top, is the victim, or is binned with its size |
| `HeapViews.BinnedView` | src/cpp/allocators/uni_allocator/uni_allocator.cc:52-93 | what handing out a binned chunk does to bins, victim and top, derived from the layout |
| `HeapViews.DvView` | src/cpp/allocators/uni_allocator/uni_allocator.cc:104-120 | what handing out from the designated victim does to bins, victim and top |
| `HeapViews.TopView` | src/cpp/allocators/uni_allocator/uni_allocator.cc:121-132 | what handing out from top does to bins, victim and top |
| `HeapViews.FreeView` | src/cpp/allocators/uni_allocator/uni_allocator.cc:161-227 | what a release does to bins, victim and top |
| `Collisions.SameSizeSwap` | src/cpp/allocators/uni_allocator/uni_allocator.h:506-518 | which of several best fits is taken makes no difference to whether its remainder is refused |
| `Collisions.NoCollision` | src/cpp/allocators/uni_allocator/uni_allocator.h:506-518 | if the remainder of one best fit is accepted, no other choice would have thrown |
| `Collisions.OwnSizeFits` | src/cpp/allocators/uni_allocator/uni_allocator.h:276-294 | with one size per bin, a chunk taken out of its tree bin can go back in |
| `UniLaws.TakenOneSize` | src/cpp/allocators/uni_allocator/uni_allocator.cc:41-138 | an Alloc that returns keeps one size per tree bin |
| `UniLaws.GivenBackOneSize` | src/cpp/allocators/uni_allocator/uni_allocator.cc:161-227 | a Free that returns keeps one size per tree bin |
| `UniLaws.EnclosedAround` | src/cpp/allocators/uni_allocator/uni_allocator.cc:161-183 | between chunks in use Free coalesces with nothing |
| `UniLaws.ThrowsAfterAlloc` | src/cpp/allocators/uni_allocator/uni_allocator.cc:41-230 | of the chunk Alloc has just handed out, when Free throws, told from the state before Alloc |
| `UniLaws.ReturnThrowsIff` | src/cpp/allocators/uni_allocator/uni_allocator.cc:104-132 | with one size per bin this is the case exactly if Alloc used up a designated victim whose size its tree bin refuses, or cut such a chunk from a top that reads as in use |
| `UniClients.RoundTrip` | src/cpp/allocators/uni_allocator/uni_allocator.cc:41-234 | Alloc followed by Free throws exactly under that condition on the state before; otherwise it restores the layout if and only if the chunk did not come from a top that reads as in use |
| `UniClients.RoundTripMayThrow` | src/cpp/allocators/uni_allocator/uni_allocator.cc:112-117 | an input on which Free throws on what Alloc has just returned |
| `UniClients.FreeMayThrow` | src/cpp/allocators/uni_allocator/uni_allocator.cc:216-226 | an input on which Free throws |
| `UniClients.AllocMayThrow` | src/cpp/allocators/uni_allocator/uni_allocator.h:512-518 | an input on which Alloc throws |
| `UniClients.TopStrays` | src/cpp/allocators/uni_allocator/uni_allocator.cc:183-217 | in every region whose top reads as in use, a request of one byte and its release already leave two free chunks side by side |
| `UniClients.Step` | src/cpp/allocators/uni_allocator/uni_allocator.cc:41-234 | one call throws if and only if a remainder or a coalesced chunk is refused, and otherwise serves the chosen chunk, or leaves everything as it was, or gives the chunk back |
| `UniClients.Run` | src/cpp/allocators/uni_allocator/uni_allocator.cc:13-234 | any sequence of calls from a zeroed state takes these steps one after the other and stops early exactly at the first call that throws; the region ends where top reads as free |
| `UniClients.RunSafe` | src/cpp/allocators/uni_allocator/uni_allocator.cc:13-234 | at every moment of every such run the arena is consistently tagged, no tree bin has two sizes, and the chunks in use are exactly those whose pointers the client holds |
| `UniClients.ReachedFlat` | src/cpp/allocators/uni_allocator/uni_allocator.h:255-303 | in every state reached every trie is a single node with its ring |
| `UniClients.ReachedEmpty` | src/cpp/allocators/uni_allocator/uni_allocator.cc:141-230 | in every state reached in which the client holds nothing the arena is one top chunk |
| `UniAllocators.UniAllocator.InitOrExpand` | src/cpp/allocators/uni_allocator/uni_allocator.cc:13-35 | the first region becomes the arena, all of it one top chunk from its least aligned address up to its last word; every later region is dropped |
| `UniAllocators.UniAllocator.AllocRetrying` | src/cpp/allocators/uni_allocator/uni_allocator.cc:41-138 | from a zeroed state too: the first region sets it up, and after that retrying never helps, a request that does not fit at first fits after no number of regions |
| `BlockTable.SplitLinked` | src/cpp/allocators/bestfit_allocator/memory_block.cc:62-102 | `split` keeps all blocks linked to their neighbours and tiling their regions |
| `BlockTable.MergeLinked` | src/cpp/allocators/bestfit_allocator/memory_block.cc:104-129 | `merge` does too; the third neighbour is relinked |
| `BlockTable.MergeUndoesSplit` | src/cpp/allocators/bestfit_allocator/memory_block.cc:62-129 | merging the two halves of a split restores all descriptors |
| `BlockTable.RegionTiled` | src/cpp/allocators/bestfit_allocator/memory_block.cc:62-129 | the blocks met from a region's base by `right_buddy` lie end to end up to its end, and they are all the blocks of the region |
| `BlockTable.IdleRegion` | src/cpp/allocators/bestfit_allocator/buddy_allocator.cc:95-140 | a region without occupied blocks is one free block with null buddies |
| `MetaCache.MetadataCache.Load` | src/cpp/allocators/bestfit_allocator/meta_cache.cc:25-36 | in either mode the descriptor loaded is the one last saved, and its guards hold |
| `MetaCache.MetadataCache.Save` | src/cpp/allocators/bestfit_allocator/meta_cache.cc:38-48 | stores exactly the guarded descriptor, an invalid one included, where the mode keeps them, and changes exactly one live descriptor |
| `MetaCache.MetadataCache.Invalidate` | src/cpp/allocators/bestfit_allocator/meta_cache.cc:50-54 | removes at most that descriptor, and leaves memory as it is |
| `MetaCache.MetadataCache.ClientWrite` | src/cpp/allocators/bestfit_allocator/meta_cache.cc:25-54 | in memory, writes outside live descriptors change no descriptor that can be loaded; with a side table, no write does |
| `MemoryBlocks.SplitAt` | src/cpp/allocators/bestfit_allocator/memory_block.cc:62-102 | the sequence of loads and saves of `split` has the effect of splitting in the block table |
| `MemoryBlocks.MergeWith` | src/cpp/allocators/bestfit_allocator/memory_block.cc:104-129 | the sequence of loads and saves of `merge` has the effect of merging in the block table; what is stored for the absorbed block is a guarded INVALID_CHUNK descriptor, in either mode |
| `MemoryBlocks.SetType` | src/cpp/allocators/bestfit_allocator/memory_block.cc:138-142 | changes exactly the kind of one block |
| `MemoryBlocks.MarkAsFree` | src/cpp/allocators/bestfit_allocator/memory_block.cc:131-136 | marks an occupied block free |
| `MemoryBlocks.InitBlock` | src/cpp/allocators/bestfit_allocator/memory_block.cc:22-28 | a fresh region joins the block table as one block |
| `PoolOrder.FindExistChunk` | src/cpp/allocators/bestfit_allocator/buddy_allocator.cc:205-225 | terminates with the least entry, by index then size then address, that is large enough, or with none if and only if there is none |
| `BuddyModel.OccupyPool` | src/cpp/allocators/bestfit_allocator/buddy_allocator.cc:227-254 | after SplitToAlloc the pool is again the set of entries of the free blocks |
| `BuddyModel.OccupyCoalesced` | src/cpp/allocators/bestfit_allocator/buddy_allocator.cc:227-254 | SplitToAlloc leaves no two free buddies |
| `BuddyModel.ReleasedLinked` | src/cpp/allocators/bestfit_allocator/buddy_allocator.cc:95-140 | after Free all blocks are linked |
| `BuddyModel.ReleasedCoalesced` | src/cpp/allocators/bestfit_allocator/buddy_allocator.cc:95-140 | Free leaves no two free buddies |
| `BuddyModel.ReleasedPool` | src/cpp/allocators/bestfit_allocator/buddy_allocator.cc:95-140 | after Free the pool is again the set of entries of the free blocks |
| `BuddyModel.ErasesFindTheirEntries` | src/cpp/allocators/bestfit_allocator/buddy_allocator.cc:100-140 | every erase of Free finds its entry and its insert adds a new one |
| `Regions.AddRegionLinked` | src/cpp/allocators/bestfit_allocator/buddy_allocator.cc:180-202 | a fresh region joins without disturbing others |
| `Regions.DropRegionLinked` | src/cpp/allocators/bestfit_allocator/buddy_allocator.cc:84-93 | a region that is one block can be given back without disturbing others |
| `Regions.DropUndoesAdd` | src/cpp/allocators/bestfit_allocator/buddy_allocator.cc:156-168 | a region that comes and goes leaves no trace |
| `Accounting.OccupyBytes` | src/cpp/allocators/bestfit_allocator/buddy_allocator.cc:68-72 | handing out moves the bytes of the block granted from free to occupied |
| `Accounting.ReleasedBytes` | src/cpp/allocators/bestfit_allocator/buddy_allocator.cc:95-98 | Free moves the bytes of the block released from occupied to free |
| `Accounting.RegionsFit` | src/cpp/allocators/bestfit_allocator/buddy_allocator.cc:180-202 | disjoint regions of one size together stay below 2^64 bytes |
| `BuddyRuns.RequestEnough` | src/cpp/allocators/bestfit_allocator/buddy_allocator.cc:30-38 | a request has room for its payload if and only if computing its size does not wrap around |
| `BuddyRuns.RequestWraps` | src/cpp/allocators/bestfit_allocator/buddy_allocator.cc:37-38 | a request of 2^64 - 64 bytes is computed as zero |
| `BuddyRuns.AllocKeeps` | src/cpp/allocators/bestfit_allocator/buddy_allocator.cc:35-73 | Alloc keeps blocks linked and coalesced, the pool in agreement, arenas at the maximum size, and bytes conserved |
| `BuddyRuns.FreeKeeps` | src/cpp/allocators/bestfit_allocator/buddy_allocator.cc:75-150 | Free keeps the same invariant |
| `BuddyLaws.Isolation` | src/cpp/allocators/bestfit_allocator/memory_block.cc:144-153 | a payload overlaps no other live payload and no live descriptor |
| `BuddyLaws.AllocHands` | src/cpp/allocators/bestfit_allocator/buddy_allocator.cc:35-73 | Alloc hands out one new block with room for the rounded request and leaves all others alone |
| `BuddyLaws.AllocFits` | src/cpp/allocators/bestfit_allocator/buddy_allocator.cc:35-73 | its payload holds what was asked for, unless the size wraps |
| `BuddyLaws.AllocFails` | src/cpp/allocators/bestfit_allocator/buddy_allocator.cc:35-73 | Alloc returns null if and only if the system refuses what the pool cannot serve, and then changes nothing |
| `BuddyLaws.AllocFromPool` | src/cpp/allocators/bestfit_allocator/buddy_allocator.cc:52-73 | a request that some pool entry can serve is cut from the entry with the least index, then size, then address that fits, 64 bytes into it, and no region is added |
| `BuddyLaws.AllocFromArena` | src/cpp/allocators/bestfit_allocator/buddy_allocator.cc:55-73 | only if no entry fits, an arena is fetched and its front handed out; on a GPU an arena of index 1 is counted as a fallback |
| `BuddyLaws.AllocDirect` | src/cpp/allocators/bestfit_allocator/buddy_allocator.cc:46-50 | a request beyond the maximum chunk size becomes a region of its own, with pool, counters and all other blocks left alone |
| `BuddyLaws.FreeTakes` | src/cpp/allocators/bestfit_allocator/buddy_allocator.cc:75-150 | Free takes back exactly the block |
| `BuddyLaws.ReleaseUndoesOccupy` | src/cpp/allocators/bestfit_allocator/buddy_allocator.cc:95-140 | releasing what was just handed out restores every descriptor and link |
| `BuddyLaws.RoundTrip` | src/cpp/allocators/bestfit_allocator/buddy_allocator.cc:35-150 | Alloc then Free restores blocks, links and pool (with a refill: plus one whole free arena), and the counters if and only if the block granted has the size asked for |
| `BuddyHistory.RunSafe` | src/cpp/allocators/bestfit_allocator/buddy_allocator.cc:35-150 | the invariant holds in every state reached by calls that are legal for the client |
| `BuddyHistory.RunHonours` | src/cpp/allocators/bestfit_allocator/buddy_allocator.cc:35-150 | over any run the blocks handed out are exactly those the client got and has not freed, each with room for what was asked |
| `BuddyClients.SideBySide` | src/cpp/allocators/bestfit_allocator/meta_cache.cc:25-54 | over any run in which clients call the allocator and write their payloads, an allocator with descriptors at the head of their blocks and one with a side table return the same pointers and end with the same blocks, pool and counters |
| `BuddyHistory.ArenasFit` | src/cpp/allocators/bestfit_allocator/buddy_allocator.cc:68-69 | occupied and free bytes add up to the maximum size times the arenas held, below 2^64 |
| `BuddyHistory.AllocCounts` | src/cpp/allocators/bestfit_allocator/buddy_allocator.cc:68-69 | an Alloc keeps the counters true if and only if it is refused, huge, or grants exactly the size asked for |
| `BuddyHistory.FreeCounts` | src/cpp/allocators/bestfit_allocator/buddy_allocator.cc:97-98 | Free keeps the counters true and does not underflow |
| `BuddyHistory.CutsExactly` | src/cpp/allocators/bestfit_allocator/memory_block.cc:67-70 | with exact chunk sizes the bail-out of `split` happens only on an exact fit |
| `BuddyHistory.Drifts` | src/cpp/allocators/bestfit_allocator/memory_block.cc:67-70 | with other chunk sizes a first request already makes the counters drift |
| `BuddyHistory.CountersTrueIff` | src/cpp/allocators/bestfit_allocator/buddy_allocator.cc:68-98 | the counters are true in every reachable state if and only if the chunk sizes are exact |
| `BuddyHistory.FullyCoalesced` | src/cpp/allocators/bestfit_allocator/buddy_allocator.cc:95-140 | every arena is back in the pool as one block if and only if no block is occupied |
| `BuddyHistory.Drained` | src/cpp/allocators/bestfit_allocator/buddy_allocator.cc:19-28 | the destructor then hands back each arena once, with its address, size and index |
| `BuddyHistory.RunDrained` | src/cpp/allocators/bestfit_allocator/buddy_allocator.cc:19-28 | after any run whose allocations have all been freed, the pool holds every region held, each as one block |
| `BuddyTrim.TrimmedSafe` | src/cpp/allocators/bestfit_allocator/buddy_allocator.cc:256-318 | the clean-up operations release only whole idle arenas, keep the invariant, true counters and everything handed out |
| `BuddyTrim.ReserveKept` | src/cpp/allocators/bestfit_allocator/buddy_allocator.cc:286-318 | without fallback arenas and with true counters, a clean-up that released something leaves more than twice the used bytes plus one arena free if and only if used bytes plus one arena are below 2^63 |
| `BuddyTrim.TrimmedLast` | src/cpp/allocators/bestfit_allocator/buddy_allocator.cc:256-318 | what a clean-up releases comes from the end of the pool and the rest stays |
| `BuddyTrim.TrimmedFallback` | src/cpp/allocators/bestfit_allocator/buddy_allocator.cc:256-284 | the fallback clean-up runs only on a GPU, releases only arenas of another index than 0, and takes each off the count |
| `BuddyTrim.NormalTurns` | src/cpp/allocators/bestfit_allocator/buddy_allocator.cc:286-318 | the normal clean-up releases an arena only while fallback arenas are left or twice the used bytes plus one arena are less than the free bytes, and only the last pool entry |
| `BuddyTrim.NormalStops` | src/cpp/allocators/bestfit_allocator/buddy_allocator.cc:286-318 | it stops with one of these failing, or with the last entry smaller than an arena |
| `BuddyTrim.FallbackStops` | src/cpp/allocators/bestfit_allocator/buddy_allocator.cc:256-284 | the fallback clean-up stops with none left, or with a last entry that is smaller than an arena or of index 0 |
| `BuddyAllocators.BuddyAllocator.constructor` | src/cpp/allocators/bestfit_allocator/buddy_allocator.cc:11-17 | starts empty |
| `BuddyAllocators.BuddyAllocator.Alloc` | src/cpp/allocators/bestfit_allocator/buddy_allocator.cc:35-73 | makes the step of the state machine, in either mode of the cache |
| `BuddyAllocators.BuddyAllocator.SystemAlloc` | src/cpp/allocators/bestfit_allocator/buddy_allocator.cc:156-168 | a huge request becomes a region of its own |
| `BuddyAllocators.BuddyAllocator.RefillPool` | src/cpp/allocators/bestfit_allocator/buddy_allocator.cc:170-203 | adds one arena as one free block |
| `BuddyAllocators.BuddyAllocator.SplitToAlloc` | src/cpp/allocators/bestfit_allocator/buddy_allocator.cc:227-254 | hands out the front of a pool entry and files the rest |
| `BuddyAllocators.BuddyAllocator.Free` | src/cpp/allocators/bestfit_allocator/buddy_allocator.cc:75-150 | makes the step of the state machine; a huge block goes back to the system with its own address, size and index |
| `BuddyAllocators.BuddyAllocator.FreeBlock` | src/cpp/allocators/bestfit_allocator/buddy_allocator.cc:95-140 | marks, merges right, merges left and files |
| `BuddyAllocators.PoolUpdates` | src/cpp/allocators/bestfit_allocator/buddy_allocator.cc:100-140 | the two conditional erases and the insert turn the pool into that of the merged blocks |
| `BuddyAllocators.BuddyAllocator.CleanIdleFallBackAlloc` | src/cpp/allocators/bestfit_allocator/buddy_allocator.cc:256-284 | terminates; releases last entries in turn until none is due or the last one is not a whole fallback arena |
| `BuddyAllocators.BuddyAllocator.CleanIdleNormalAlloc` | src/cpp/allocators/bestfit_allocator/buddy_allocator.cc:286-318 | terminates; releases last entries in turn until there is no more to spare or the last one is not a whole arena |
| `BuddyAllocators.BuddyAllocator.Destroy` | src/cpp/allocators/bestfit_allocator/buddy_allocator.cc:19-28 | hands every pool entry back once, in order, with its address and index and the size of an arena |
| `BuddyAllocators.BuddyAllocator.ClientWrite` | src/cpp/allocators/bestfit_allocator/meta_cache.cc:25-54 | writing a payload changes no descriptor the allocator reads |

## Left out

- UniAllocators.UniAllocator.Alloc: ends where the code would ask for another region; the recursion of Alloc on itself is AllocRetrying, for finitely many regions.
- UniAllocators.UniAllocator.Free: the pointer is null or was computed from a chunk of the arena, and not from a top that reads as in use; what Free does behind other pointers is not modelled, nor is what further calls do once a chunk has been left next to such a top. The test `should_trim` with `sys_trim` does nothing in the code.
- UniClients.Run: for regions that end where top reads as free; UniClients.TopStrays shows that the others are rightly left out. A request that fits nowhere is not served, where the code would not return.
- UniAllocators.UniAllocator.InitOrExpand: the region must be larger than its alignment and the trailing word and smaller than 2^40 bytes, beyond which tree indices go wrong; a null answer of the underlying allocator, which the code does not check, is not modelled.
- MallocStates.MallocState.InitTop: without the header of the fake trailing chunk, which lies past the arena, and without trim_check, which is never acted on.
- MallocStates.MallocState.InsertLargeChunk: on a throw the fields of the chunk that was to be inserted are not described.
- Client writes to UniAllocator memory, because payloads may reach into the next chunk.
- BuddyAllocators.BuddyAllocator.Alloc: requires that the rounded size has not wrapped below the size of a descriptor; what the code does then is memory corruption.
- BuddyAllocators.BuddyAllocator.Free: only pointers to live blocks; the debug checks against double frees are not modelled as errors.
- BuddyAllocators.BuddyAllocator.Destroy: with descriptors in memory, only when nothing is occupied, since it would read headers in memory already handed back; with blocks occupied it may hand back parts of arenas.
- The change of the maximum chunk size on the first device allocation, which is compiled for CUDA only.
- The clean-up operations are not called by Free in the code either; they are modelled as operations of their own.
- The system allocators, CUDA, pinned memory and locking of pages, which are foreign calls.
- The strength of the guard hashes.
- Locks: every operation is one atomic step.
- Used, GetMinChunkSize and GetMaxChunkSize, footers, segments, debug checks, printing: no logic.
