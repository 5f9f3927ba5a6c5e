# Verified models of Beat Me on the DL, Hackermud and Faggin

This project models the algorithmic parts of three programs in Dafny and proves what they are for.

- **The allocator** (`beatmeonthedl/malloc.c`, dlmalloc 2.8.6). A heap of chunks with boundary tags, a
  designated victim, a top chunk, 32 small bins and 32 tries keyed on the bits of the chunk size.
  `AllocatorRuns.dfy` has the theorem over whole runs; `MallocState.dfy` (module `Dlmalloc`) has the
  routines as methods of one class. Below them are the tries (`SizeTrie`, `TrieRemove`, `TrieSearch`,
  `TrieWalk`), the bins (`FreeLinks`, `Bins`, `TreeBins`, `BinChecks`, `BinMap`, `TreeIndex`), the
  boundary tags and the heap (`BoundaryTags`, `ChunkWrites`, `HeapView`, `HeapSteps`,
  `CanonicalLayout`, `TrimOrder`, `Parcels`, `Payloads`, `Stores`, `Handing`), which chunk serves a
  request (`Choices`), and request arithmetic (`Requests`, `Alignment`, `HeadWord`). `FreeRuns` compares orders of frees. The configuration is an
  8-byte `size_t`, alignment 16, run-time checks on, no footers, no locks, no mspaces, one contiguous
  segment from MORECORE. `faults` counts the runs of the corruption and usage error actions; no method
  ever raises it.
- **The Equihash prover and verifier** (`hackermud/pow.cpp`): `Equihash` (the prover against a search
  that the puzzle determines, and the verifier), `EquihashRounds` (what finds room in a round) and
  `EquihashSearch` (which solutions are found), over `WordXor`. The hash is a parameter.
- **BLAKE2b** (`hackermud/blake2b.cpp` and its headers): `Blake2bRound` (vector round against the scalar
  round), `Blake2b` (compression and the standard's hash), `Blake2bStream` (streaming, keys, long
  outputs). **MD5** (`hackermud/md5.cpp`): `Md5Steps`, `Md5`. `ByteValues` has
  the values of bytes for both.
- **The intrusive list and hash table** (`hackermud/nutil_list.h`, `hackermud/nutil_hash.h`):
  `LinkRings`, `LinkWorld`, `NutilList`, `NutilHash`. Links are addresses, next-object pointers carry
  the end-of-list tag in their low bit, and `NextLink` does the original's pointer arithmetic.
- **Item fingerprints and the inventory** (`hackermud/item.cpp`, `hackermud/bitwriter.cpp`,
  `hackermud/player.cpp`): `BitWriter`, `ItemFingerprint`, `Player`.
- **The program counter stack of the MCS-4 emulator** (`faggin/mcs4.c`): `Mcs4`.

`dafny verify dfyconfig.toml` checks everything.

Results worth knowing when changing the code:

- `compute_tree_index` for GNU C shifts the size into a 32-bit variable. `TreeIndex.IndexExact` says for
  which sizes from 2^40 on the index is still right. The allocator is modelled with a segment below 2^40
  bytes, so that all chunks are smaller.
- The layout that frees leave does not depend on their order, but the size of top does, because of the
  trims on the way: `TrimOrder.OrderDecides` has an example, `TrimOrder.OrdersAgreeIff` says when. The
  system takes memory back whenever it is offered, or never; what it offers is taken as a whole.
- `ialloc` adds sizes up modulo 2^64. From a total of 2^64 on, the aggregate is too small for the
  elements and the heap is broken, unless `malloc` refuses (`Parcels.TotalWraps`, `Parcels.NoLayout`).
- `internal_memalign` never ends its rounding loop for alignments above 2^63 (`Alignment.RoundingEnds`).
- The number of Equihash inputs is computed in 64 bits and passed in 32; with 31-bit blocks it is 0
  and no proof is found (`Equihash.FillLengthIs`).
- The Equihash search loses a solution exactly if a part of it comes when its row has five tuples already,
  or when the list of forks of that round is full (`EquihashSearch.FoundIffRoom`). It can fail although
  there is a solution (`EquihashSearch.LateSolution`). Solutions whose halves do not collide block by
  block are not looked for.
- `TLink::InsertBefore` and `TLink::InsertAfter` on the link itself break its ring
  (`LinkRings.BeforeItselfBreaks`, `LinkRings.AfterItselfBreaks`).
- Five bytes are too few for the fingerprints of some items; `ItemFingerprint.FingerprintDetermines`
  says for which the server's fingerprint still tells the item. The client build does not cut it, and
  three items can overrun the buffer of `GetItemFingerprintString` (`ItemFingerprint.ThreeOverrun`).
- `AddItemToInventory` with an item that is in the list already leaves the counters wrong; with an
  equipped item it puts the item in two places (`Player.Run`).
- The call stack of the MCS-4 holds three return addresses; a fourth call loses its own
  (`Mcs4.ReturnUndoesCall`).

## Model

| member | source | states |
|---|---|---|
| AllocatorRuns.Run | beatmeonthedl/malloc.c:3450-3476 | for every sequence of malloc, free, realloc, in-place realloc, memalign, ialloc, bulk free and trim calls in which only held pointers are freed or resized, and of stores of any words where held pointers point, from a zeroed state: no corruption or usage error is reported; before and after every step the whole heap is intact and the held pointers are exactly the chunks in use, aligned to 16, large enough for their requests and not overlapping; the states go from the first to the last by the outcomes of the steps: a step is served exactly if free space or the system can serve it in the state before, then exactly what was asked for changes in what is held and in use, the end of top and its trim threshold follow, and no byte behind a pointer that stays held changes except where the step stores; otherwise nothing changes |
| AllocatorRuns.Do | beatmeonthedl/malloc.c:4539-4784 | one such step has its outcome: served exactly under the stated condition on heap, footprint and MORECORE; then pointers held, chunks in use, bytes, the end of top and its threshold are those before with exactly the change asked for, else the whole state is the same; invariant and fault count are kept |
| AllocatorRuns.ServiceDetermined | beatmeonthedl/malloc.c:4032-4238 | whatever happened before, what is in use, where the segment starts and where top ends decide which requests can be served |
| AllocatorRuns.BytesStay | beatmeonthedl/malloc.c:2182-2188 | over any part of a run, a byte behind a pointer that is held throughout stays what it is until the program stores there: no call of the allocator changes it |
| AllocatorRuns.CopyKeeps | beatmeonthedl/malloc.c:5213-5219 | what realloc copies does not touch the bytes behind any other pointer |
| Dlmalloc.MallocState.DlMalloc | beatmeonthedl/malloc.c:4539-4673 | the result is null if and only if no free chunk nor top has room and the system cannot give enough within the footprint limit, and then the heap is unchanged; otherwise exactly one new chunk of the padded size up to 31 bytes more is in use where nothing was; requests from MAX_REQUEST on are refused; no run-time check fails; the chunk that serves the request is the one that the comment at the head of the routine names: for a small request the first of its small bin, or of the next, else the victim, else the least binned chunk that fits; for a large one a free chunk of least size, the victim before a binned chunk of its size; top only if every free chunk is too small; what is left of it stays top, becomes or stays the victim, or goes to a bin, as the branch taken says |
| Choices.TopIsLast | beatmeonthedl/malloc.c:4545-4558 | by that choice a chunk is taken where top starts only if no free chunk of the heap has room |
| Choices.LargeFromBins | beatmeonthedl/malloc.c:4480-4492 | the best fit of the bins, if it is smaller than a victim that fits, is a free chunk of least size in the whole heap |
| Choices.VictimChosen | beatmeonthedl/malloc.c:4633-4651 | the victim is taken if it suffices once the bins were passed over, which for a large request means that no binned chunk that fits is smaller |
| Choices.SmallFound | beatmeonthedl/malloc.c:4594-4614 | the first marked small bin from that of the request on has the least binned chunk that fits |
| Choices.SplitJoins | beatmeonthedl/malloc.c:4816-4823 | the end of a chunk that is cut in two joins top, the victim or the binned chunk behind it, or is binned alone |
| Choices.GrownJoins | beatmeonthedl/malloc.c:4861-4874 | of a binned chunk that a chunk has grown into, the rest is binned and nothing else changes in bins, victim and top |
| Dlmalloc.MallocState.DlFree | beatmeonthedl/malloc.c:4677-4784 | exactly the given chunk stops being in use, free neighbours merge, the invariant holds, no usage or corruption check fails, and top is trimmed exactly if the chunk joined it and it exceeds the threshold; the free space goes to top if that is next to it, else to the victim if that is a neighbour, else to a bin |
| Dlmalloc.MallocState.DisposeChunk | beatmeonthedl/malloc.c:4358-4424 | exactly the given chunk stops being in use, the free space goes to top, victim or a bin as it does in free, and the invariant holds |
| Dlmalloc.MallocState.SysAlloc | beatmeonthedl/malloc.c:4032-4238 | memory from MORECORE becomes the first segment or extends it; the request is served from top if and only if its size does not wrap around, the footprint limit allows it and MORECORE gives enough, else the heap is unchanged; the footprint stays within its limit and its maximum; after it top has less than the padding and a page, or two pages when the segment is the first, and segment and footprint are whole pages more |
| Dlmalloc.MallocState.SysTrim | beatmeonthedl/malloc.c:4290-4353 | memory is given back only from top, more than the requested pad stays, no chunk in use changes, and the end of top and the threshold are those of TrimOrder.PadTrimmed, and without a pad those of TrimOrder.Trimmed |
| Dlmalloc.MallocState.DlMallocTrim | beatmeonthedl/malloc.c:5329-5337 | memory is given back exactly if the call says so, more than the pad stays in top, no chunk in use changes, and top ends where the pad says |
| Dlmalloc.MallocState.TryReallocChunk | beatmeonthedl/malloc.c:4806-4883 | the chunk is resized in place exactly if the room behind it suffices (its own size, with a free, victim or top neighbour); what is cut off joins what is behind, what is missing comes from top, from the victim, which keeps the rest, or from a binned chunk, whose rest is binned; otherwise nothing changes |
| Dlmalloc.MallocState.DlReallocInPlace | beatmeonthedl/malloc.c:5225-5254 | succeeds if and only if the request is representable and there is room in place; the pointer stays the same, and the end of the chunk goes where TryReallocChunk says |
| Dlmalloc.MallocState.DlRealloc | beatmeonthedl/malloc.c:5180-5223 | fails, leaving the heap and with it the old chunk unchanged, if and only if the size is not representable or there is neither room in place nor a new chunk; otherwise the chunk is resized in place or moved to where nothing was in use, and then as many bytes as both sizes allow are copied and no other payload byte changes; with room in place the chunk is not moved, and without it the new chunk is the one that malloc would choose |
| Dlmalloc.MallocState.InternalMemalign | beatmeonthedl/malloc.c:4885-4957 | of the chunk that malloc took in the heap in between, exactly one part stays in use: it starts at a multiple of the least power of two at or above the alignment and has the padded size up to 32 bytes more; leader and remainder, each empty or at least a minimal chunk, are not in use; null exactly if the request is refused or malloc has no such chunk; the chunk that malloc took is the one it would choose for the request with alignment and a minimal chunk on top |
| Dlmalloc.MallocState.KeepAligned | beatmeonthedl/malloc.c:4907-4947 | cutting leader and remainder off a chunk leaves exactly the aligned part in use |
| Dlmalloc.TookFromNothing | beatmeonthedl/malloc.c:4653-4663 | where a chunk is taken no chunk in use started before |
| Dlmalloc.MallocState.Ialloc | beatmeonthedl/malloc.c:4966-5083 | for every input whose total fits into 64 bits: either malloc has no chunk for it and nothing changes, or one aggregate chunk is cut, where nothing was in use, into adjacent element chunks, and the pointer array chunk if none was given; the parts add up to the aggregate, every element but the last has exactly its padded size and the last at least that; for a larger total either nothing changes or the chunk got is one that no such layout fits into; the aggregate is the chunk that malloc would choose |
| Dlmalloc.MallocState.SplitElements | beatmeonthedl/malloc.c:5047-5063 | the splitting loop: the i-th pointer is the sum of the parts before it, the last element absorbs the excess |
| Dlmalloc.MallocState.BulkFree | beatmeonthedl/malloc.c:5092-5132 | all given chunks stop being in use, nothing else changes, every array entry is null afterwards and none is left unfreed; top ends where one trim at the end leaves it |
| Dlmalloc.MallocState.TmallocLarge | beatmeonthedl/malloc.c:4429-4497 | best fit over all tree bins: the chunk used is the smallest binned one that fits and smaller than a fitting victim; null exactly when none is; what is left goes to a bin, or is part of the chunk if it is less than a minimal chunk |
| Dlmalloc.MallocState.FindLarge | beatmeonthedl/malloc.c:4429-4478 | the search alone: own bin with the deepest untaken right subtree, next non-empty bin by left and least bits, leftmost walk; the remainder found is the least of all, and all loops end |
| Dlmalloc.MallocState.Descend | beatmeonthedl/malloc.c:4435-4457 | the first loop: what it found and the subtree it leaves together hold the best fit of the bin |
| Dlmalloc.MallocState.WalkLeftmost | beatmeonthedl/malloc.c:4468-4475 | the second loop: the minimum of the candidate and the subtree |
| Dlmalloc.MallocState.TmallocSmall | beatmeonthedl/malloc.c:4500-4535 | the chunk used is the smallest of all tries; what is left becomes the victim and the old one is binned |
| Dlmalloc.MallocState.MallocSmall | beatmeonthedl/malloc.c:4570-4622 | a small request is served by the first chunk of its bin, else the first of the next bin, else, if the victim is too small, the first chunk of the next marked bin or the smallest of the tries, with the rest as new victim; null only if no binned chunk fits and the victim is too small |
| Dlmalloc.MallocState.TakeDv | beatmeonthedl/malloc.c:4633-4651 | a victim that suffices is split, or used up when less than a minimal chunk would remain |
| Dlmalloc.MallocState.TakeTop | beatmeonthedl/malloc.c:4653-4663 | the low end of top is taken |
| Dlmalloc.MallocState.InsertSmallChunk | beatmeonthedl/malloc.c:3565-3581 | the chunk is the first of its bin from then on and all other bins are as they were, map bits are set exactly for non-empty bins, and the check passes |
| Dlmalloc.MallocState.UnlinkSmallChunk | beatmeonthedl/malloc.c:3584-3607 | its bin has the other chunks in their order and all other bins are as they were; both corruption branches are unreachable |
| Dlmalloc.MallocState.UnlinkFirstSmallChunk | beatmeonthedl/malloc.c:3610-3625 | the first chunk of a marked bin has the size of the bin and is the only one removed |
| Dlmalloc.MallocState.InsertLargeChunk | beatmeonthedl/malloc.c:3643-3692 | the tries hold exactly one chunk more: trie paths, unique sizes on tree nodes, rings of equal sizes |
| Dlmalloc.MallocState.UnlinkLargeChunk | beatmeonthedl/malloc.c:3711-3780 | the tries hold exactly one chunk less, including rightmost-leaf replacement of an interior node |
| Dlmalloc.MallocState.ReplaceDv | beatmeonthedl/malloc.c:3629-3638 | the old victim goes to its small bin and the new chunk is the victim |
| Dlmalloc.MallocState.FirstTop | beatmeonthedl/malloc.c:3891-3903 | the whole of a new segment but its last words becomes top: the heap invariant holds, no chunk is there, and fewer than 96 bytes are lost |
| Dlmalloc.MallocState.InitBins | beatmeonthedl/malloc.c:3906-3913 | every small bin header points to itself |
| TrieRemove.UnlinkRep | beatmeonthedl/malloc.c:3711-3780 | on the links, unlinking a member of a ring, a leaf or an interior node yields the trie without exactly that chunk, and touches no link outside |
| TrieRemove.RemoveTreeOk | beatmeonthedl/malloc.c:3711-3780 | the tree after removal keeps the path invariant and has exactly the other chunks |
| TrieRemove.TakeLeafWF | beatmeonthedl/malloc.c:3725-3740 | the rightmost-leaf descent takes one node off a trie that stays well formed |
| SizeTrie.InsertRep | beatmeonthedl/malloc.c:3643-3692 | on the links, the insertion loop yields the trie with the chunk hung at its path or in the ring of its size |
| SizeTrie.InsertTreeWF | beatmeonthedl/malloc.c:3650-3691 | insertion keeps every size on the bit path from its bin root and sizes unique |
| SizeTrie.InsertTreeMembers | beatmeonthedl/malloc.c:3650-3691 | insertion adds exactly one chunk and its size |
| SizeTrie.WFRange | beatmeonthedl/malloc.c:3296-3344 | all sizes below a node lie in the range of its prefix |
| TrieSearch.BestIsLeast | beatmeonthedl/malloc.c:4439-4456 | the best fit of a trie is the least size that is large enough, and absent exactly if there is none |
| TrieSearch.LeftmostBest | beatmeonthedl/malloc.c:4468-4475 | the least size of a trie is found on its leftmost path |
| TrieSearch.SetAsideRight | beatmeonthedl/malloc.c:4447-4454 | a right subtree set aside later is better than one set aside before |
| TrieSearch.SteerStep | beatmeonthedl/malloc.c:4437-4455 | the top bit of the shifted size decides between the halves of the range |
| TrieWalk.FirstBinIsBest | beatmeonthedl/malloc.c:4458-4466 | the first bin with a fitting chunk has the best fit over all bins |
| TrieWalk.NextBin | beatmeonthedl/malloc.c:4458-4466 | left and least bits select the next non-empty bin, all of whose chunks fit; no such bin means nothing fits |
| TrieWalk.FirstBinSmallest | beatmeonthedl/malloc.c:4504-4515 | the least marked tree bin holds the smallest large chunk |
| Bins.InsertSmallOk | beatmeonthedl/malloc.c:3565-3581 | inserting into a small bin keeps all bins and maps right |
| Bins.UnlinkSmallOk | beatmeonthedl/malloc.c:3584-3607 | unlinking from a small bin keeps all bins and maps right |
| TreeBins.InsertLargeOk | beatmeonthedl/malloc.c:3643-3692 | inserting into a tree bin keeps all bins and maps right |
| TreeBins.UnlinkLargeOk | beatmeonthedl/malloc.c:3711-3780 | unlinking from a tree bin keeps all bins and maps right |
| FreeLinks.RingInsertOk | beatmeonthedl/malloc.c:3572-3580 | inserting behind a header keeps the ring |
| FreeLinks.RingRemoveOk | beatmeonthedl/malloc.c:3595-3599 | unlinking a member keeps the ring of the others |
| TreeIndex.IndexPartitions | beatmeonthedl/malloc.c:2833-2845 | for 256 <= S < 2^40 the index of S is the bin whose size range holds S |
| TreeIndex.InBinUnique | beatmeonthedl/malloc.c:2905-2907 | the size ranges of the bins do not overlap |
| TreeIndex.IndexMonotone | beatmeonthedl/malloc.c:2833-2845 | the index is monotone in the size below 2^40 |
| TreeIndex.IndexExact | beatmeonthedl/malloc.c:2835-2840 | over all 64-bit sizes, the exact condition under which the truncation to 32 bits leaves the index right |
| TreeIndex.IndexWrapsAt40Bits | beatmeonthedl/malloc.c:2835-2840 | a size of 2^40 gets index 0, outside its bin |
| TreeIndex.ShiftIndexPartitions | beatmeonthedl/malloc.c:2876-2892 | the branch-free version finds the right bin for every size |
| TreeIndex.ShiftIndexAgrees | beatmeonthedl/malloc.c:2876-2892 | both versions of the index agree exactly under the condition of IndexExact |
| BinMap.LeftBitsMask | beatmeonthedl/malloc.c:2928 | left_bits of one bit is the mask of all higher bits |
| BinMap.LeastBitIsolates | beatmeonthedl/malloc.c:2925 | least_bit isolates the lowest set bit |
| BinMap.LeastSetBit | beatmeonthedl/malloc.c:2959-2973 | the bit index is that of the lowest set bit |
| BinMap.ClearBits | beatmeonthedl/malloc.c:2917-2921 | clearing a map bit changes that bit only |
| BoundaryTags.CarveSplit | beatmeonthedl/malloc.c:4487-4488 | splitting a free chunk keeps tiling, P bits and feet, and changes two chunks only |
| BoundaryTags.Coalesce | beatmeonthedl/malloc.c:4405-4418 | merging a free region into one chunk keeps tiling, P bits, feet and the absence of touching free chunks |
| BoundaryTags.CoalesceTop | beatmeonthedl/malloc.c:4389-4398 | merging a free region into top keeps the tags |
| BoundaryTags.MergeInUse | beatmeonthedl/malloc.c:5113-5117 | merging two neighbouring chunks in use keeps the tags |
| HeapSteps.RegionOk | beatmeonthedl/malloc.c:4358-4418 | a chunk in use and its free neighbours are a region between two chunks in use, or up to top |
| HeapSteps.JoinOk | beatmeonthedl/malloc.c:4405-4419 | one free chunk replaces the region and exactly one chunk stops being in use |
| HeapSteps.ResizeTopOk | beatmeonthedl/malloc.c:3891-3903 | moving the end of top, with its fencepost, keeps the whole heap sound and every chunk as it was |
| Payloads.PayloadsDisjoint | beatmeonthedl/malloc.c:2182-2188 | payloads of different chunks in use do not overlap |
| Payloads.PayloadUntouched | beatmeonthedl/malloc.c:2391-2401 | no word the allocator keeps reaches into a payload |
| Payloads.WordsApart | beatmeonthedl/malloc.c:2391-2401 | words kept for different chunks are different words |
| CanonicalLayout.LayoutIsCanonical | beatmeonthedl/malloc.c:3418-3448 | the chunks in use and the base alone determine every chunk address and size, which chunks are free, and where top starts; the whole layout is the same exactly if the segments end at the same place |
| TrimOrder.TopAfter | beatmeonthedl/malloc.c:4729-4740 | where top starts after any set of frees: at the highest end of the chunks that stay in use |
| TrimOrder.FreeStepEnd | beatmeonthedl/malloc.c:4729-4738 | freeing pointers one by one, with the trims on the way, ends where the fold over the order says |
| TrimOrder.OrdersAgreeIff | beatmeonthedl/malloc.c:4737-4738 | freeing the same pointers in any two orders leaves the same end of top if and only if no memory goes back, or no chunk freed has this shape: top can be made to start behind it, is trimmed there, and what is freed afterwards has whole pages but does not reach the threshold |
| TrimOrder.BulkAgreesIff | beatmeonthedl/malloc.c:5127-5128 | bulk free and every order of single frees leave the same end of top if and only if, in addition, a chunk joined top or top was below its threshold |
| TrimOrder.TakenIff | beatmeonthedl/malloc.c:4737-4738 | whether any memory goes back does not depend on the order: it does if and only if the system takes it, a chunk joined top, and top with everything freed exceeds the threshold |
| TrimOrder.KeptBounds | beatmeonthedl/malloc.c:4290-4353 | one trim at the end keeps least, and no order that trims keeps more than the threshold |
| TrimOrder.OrderDecides | beatmeonthedl/malloc.c:4737-4738 | a heap with chunks of 1 MB and 2 MB before top on which the two orders of freeing keep 4016 bytes and 1 MB more than that |
| FreeRuns.FreeEach | beatmeonthedl/malloc.c:4677-4784 | calling free on one pointer after the other frees exactly those and ends top where the fold says |
| FreeRuns.FreeInTwoOrders | beatmeonthedl/malloc.c:4677-4784 | on two equal heaps, the same pointers freed in two orders leave the same chunks and the same start of top, and the same size of top under the condition of OrdersAgreeIff |
| FreeRuns.FreeEachAndBulk | beatmeonthedl/malloc.c:5092-5132 | on two equal heaps, single frees and bulk free leave the same chunks and the same start of top; bulk free keeps no more of top, and as much under the condition of BulkAgreesIff |
| Stores.StoreKeepsHeap | beatmeonthedl/malloc.c:2391-2401 | whatever word a program stores in a payload, boundary tags and chunks stay as they are |
| Stores.StoreKeepsLinks | beatmeonthedl/malloc.c:2391-2401 | nor does it change a link of a free chunk or bin header |
| Handing.HoldsParceled | beatmeonthedl/malloc.c:5047-5063 | after ialloc the pointers held are those before and those handed out, each with room for what was asked |
| Parcels.CutElement | beatmeonthedl/malloc.c:5055-5057 | cutting an element off the front leaves a sound heap with both parts in use |
| Parcels.CutArray | beatmeonthedl/malloc.c:5037-5045 | cutting the pointer array off the end leaves a sound heap with both parts in use |
| Parcels.ContentsSize | beatmeonthedl/malloc.c:5000-5010 | the contents size is the sum of the padded element sizes modulo 2^64, and the sum itself if and only if that is below 2^64 |
| Parcels.LaidNeedsTotal | beatmeonthedl/malloc.c:5047-5063 | the layout ialloc promises is possible only for a total below 2^64 |
| Parcels.NoLayout | beatmeonthedl/malloc.c:5011-5063 | beyond that total no layout of the chunk got is the one promised |
| Parcels.TotalWraps | beatmeonthedl/malloc.c:5000-5057 | two elements of 2^63 bytes: the aggregate asked for is 64 bytes, and the head of the first element breaks the heap |
| Requests.Request2SizeIs | beatmeonthedl/malloc.c:2226-2231 | on all 64-bit sizes a padded request is the true padded size modulo 2^64 |
| HeadWord.PackRoundTrip | beatmeonthedl/malloc.c:2254-2260 | size and the two flag bits packed in one word are read back independently |
| HeadWord.SetInuseOnWord | beatmeonthedl/malloc.c:3049-3051 | set_inuse on the word sets the size and the in-use bit and keeps the P bit |
| HeadWord.ClearPinuseOnWord | beatmeonthedl/malloc.c:2262 | clear_pinuse on the word clears the P bit only |
| HeadWord.TestsOnWords | beatmeonthedl/malloc.c:2257-2258 | is_inuse on the word holds exactly for a chunk marked in use or one without a P bit, the mark of directly mapped chunks |
| Requests.Request2SizeIsLeast | beatmeonthedl/malloc.c:2226-2231 | a padded request is the least chunk size with room for the bytes and the head, and small exactly below the small limit |
| Requests.SystemSizeOk | beatmeonthedl/malloc.c:4047-4049 | the size asked of the system is whole pages and covers the request and its padding by less than a page, exactly unless it wraps |
| Requests.ExtraSizeOk | beatmeonthedl/malloc.c:4104-4112 | what is asked for on top of what top has is whole pages, and covers the difference and the padding by less than a page |
| Requests.FirstSizeOk | beatmeonthedl/malloc.c:4084-4092 | a first segment is asked for such that it ends on a page boundary |
| Requests.TrimSizeOk | beatmeonthedl/malloc.c:4296-4300 | trimming releases whole pages, less than what top has above the pad, and leaves a page of that at most |
| Alignment.PowerTest | beatmeonthedl/malloc.c:4889 | the bit test holds exactly for powers of two |
| Alignment.RoundingEnds | beatmeonthedl/malloc.c:4889-4893 | the doubling loop reaches the alignment exactly for alignments up to 2^63 |
| Alignment.RoundAlignment | beatmeonthedl/malloc.c:4887-4893 | the result is the least power of two, at least a minimal chunk, at or above the alignment |
| Alignment.AlignedSpotOk | beatmeonthedl/malloc.c:4916-4920 | the chosen spot is aligned and leaves a leader of at least a minimal chunk |
| Equihash.Prover.FindProof | hackermud/pow.cpp:138-188 | the result is the first solution without duplicate inputs among all that the searches for the nonces from 2 on find, in their order, and an empty proof if and only if there is none up to MAX_NONCE; it has 2^k pairwise distinct inputs below 2^(width+1) and passes the test; the inputs of a proof cancel the top bits of the whole words of their hashes |
| Equihash.Prover.ResolveCollisions | hackermud/pow.cpp:96-136 | the memory after a round is the recording of all colliding pairs of the memory before, in the order of the loops, into an empty table; in the last round the solutions are those of the pairs that cancel the last block; every stored tuple resolves to inputs that cancel one block more |
| Equihash.Prover.SearchNonce | hackermud/pow.cpp:148-166 | the rounds for one nonce find exactly what the puzzle determines: EquihashSearch.FoundIffRoom says what that is |
| EquihashSearch.FoundIffRoom | hackermud/pow.cpp:96-136 | a solution that collides block by block and has no duplicates is found, up to swapped halves, if and only if every part of it came in time: fewer than five inputs or collisions before it in its row, and the list of forks of its round not full |
| EquihashSearch.FailsIff | hackermud/pow.cpp:138-188 | the search for a nonce finds nothing without duplicates if and only if every such solution has a part that came too late |
| EquihashSearch.LateSolution | hackermud/pow.cpp:70-71 | a puzzle that has a solution and on which the search fails: five other inputs come before it in its row |
| EquihashSearch.PresentIffRoom | hackermud/pow.cpp:107-130 | the same for the tables before the last round |
| EquihashSearch.EntryUnique | hackermud/pow.cpp:107-130 | at most one entry of a table stands for the same distinct inputs |
| EquihashRounds.RoundExact | hackermud/pow.cpp:98-128 | exactly the collisions that come early are recorded, each in the place and with the fork that the number of those before it gives; the list of forks has 3 * 2^width places, cut to 32 bits |
| EquihashRounds.FilledIs | hackermud/pow.cpp:59-80 | input i is in the table, in the row of its first block, if and only if fewer than five smaller inputs have that block |
| EquihashRounds.AfterDiffers | hackermud/pow.cpp:121-127 | no two entries of a table have the same reference |
| EquihashRounds.ForkOnce | hackermud/pow.cpp:105-111 | no fork comes twice in a round |
| Equihash.AtPosition | hackermud/pow.cpp:105-107 | the loops come to every pair of entries of a row, and in the stated order |
| Equihash.ResolvedOk | hackermud/pow.cpp:96-136 | over any number of rounds, tuples after r rounds stand for inputs that cancel r blocks |
| Equihash.FilledOk | hackermud/pow.cpp:59-80 | every tuple of the filled memory has the blocks of its input |
| Equihash.SolutionsSolve | hackermud/pow.cpp:112-117 | everything that the last round finds solves the puzzle |
| Equihash.Prover.ResolvePair | hackermud/pow.cpp:107-130 | the pair at hand is taken as the collision at its place in the order of all pairs, and none other |
| Equihash.Prover.FillMemory | hackermud/pow.cpp:59-80 | the memory is filled with all inputs one after the other: EquihashRounds.FilledIs says which are stored and where |
| Equihash.SumsJoin | hackermud/pow.cpp:107-128 | two entries of a row join to an entry of the next round: blocks cancel, the next block is the new row |
| Equihash.NewBecomesOk | hackermud/pow.cpp:133-135 | the tuples made in a round satisfy the table invariant of the next |
| Equihash.Collide | hackermud/pow.cpp:109-127 | the fork of two colliding tuples resolves to their joined inputs and its row is in range |
| Equihash.LastRound | hackermud/pow.cpp:112-117 | in the last round a cancelled collision passes the test |
| Equihash.ResolveTreeByLevel | hackermud/pow.cpp:82-89 | a fork of level r stands for 2^(r+1) inputs in range |
| Equihash.ResolveKept | hackermud/pow.cpp:82-89 | later rounds do not change what an earlier fork stands for |
| Equihash.FillLengthIs | hackermud/pow.cpp:151 | the number of inputs is 2^(width+1), and 0 for 31-bit blocks, where it is cut to 32 bits |
| Equihash.HasDuplicate | hackermud/pow.cpp:175-186 | the scan of the sorted inputs finds a duplicate exactly if there is one |
| Equihash.Test | hackermud/pow.cpp:191-220 | the verifier accepts exactly the inputs for which, in each of the first k + 1 hash words, the exclusive or of the whole words has no bit among the top n / (k + 1) of 32 |
| Equihash.PassesIffCancels | hackermud/pow.cpp:200-216 | all blocks cancel if and only if in every word the exclusive or of the whole words is below 2^(32 - width) |
| Equihash.TopBitsIs | hackermud/pow.cpp:208 | a block is the word rounded down to a multiple of 2^(32 - width) and divided by it |
| Equihash.ThreeForksARow | hackermud/pow.cpp:98 | the list of forks has three places a row, up to blocks of 30 bits; the product is cut to 32 bits beyond |
| WordXor.XorZeroIffEqual | hackermud/pow.cpp:208-211 | an exclusive or is zero exactly for equal values |
| WordXor.XorShifted | hackermud/pow.cpp:204-211 | shifting the words first and taking the exclusive or then is the same as the other way round |
| Blake2bRound.Round | hackermud/blake2b-round.h:147-157 | one vector round is the round of section 3.2 of RFC 7693 under its row of sigma, for every instruction set, state and message |
| Blake2bRound.GHalf | hackermud/blake2b-round.h:47-83 | each half of G acts on the four columns at once |
| Blake2bRound.Diagonalize | hackermud/blake2b-round.h:86-126 | both forms turn diagonals into columns |
| Blake2bRound.Undiagonalize | hackermud/blake2b-round.h:101-137 | both forms turn columns back into diagonals |
| Blake2bRound.RotationsAgree | hackermud/blake2b-round.h:32-39 | byte shuffles, half swaps and doubling rotate as the shifts of the standard do |
| Blake2bRound.LoadsAgree | hackermud/blake2b-load-sse41.h:17-400 | the shuffles of the SSE4.1 header load the same words as the SSE2 header in all 48 quarters |
| Blake2bRound.Sse2Loads | hackermud/blake2b-load-sse2.h:17-64 | the SSE2 header loads the words that sigma names |
| Blake2bRound.ColumnsMixed | hackermud/blake2b-round.h:148-151 | the four column steps of the scalar round act on four separate columns |
| Blake2bRound.TwoHalves | hackermud/blake2b-round.h:47-83 | the two half rounds make up G of section 3.1 of RFC 7693 |
| Blake2b.Compress | hackermud/blake2b.cpp:247-315 | twelve vector rounds and the feed-forward compute F of section 3.2 of RFC 7693 |
| Blake2b.SigmaRepeats | hackermud/blake2b.cpp:48-62 | rows 10 and 11 of sigma are rows 0 and 1 |
| Blake2b.IVIs | hackermud/blake2b.cpp:40-46 | the initial values are the first 64 bits of the fractions of the square roots of the first eight primes, as section 2.6 of RFC 7693 says |
| Blake2b.WordAtIs | hackermud/blake2b-load-sse2.h:17-64 | a word read from a block is its eight bytes as a number, low byte first |
| Blake2b.BytesAre | hackermud/blake2b.cpp:349-368 | the bytes of the digest are the numbers in the chain value, word after word, low byte first |
| Blake2b.ToWordIs | hackermud/blake2b.cpp:95-108 | a counter word has the value of its half of the counter |
| Blake2b.IncrementCounter | hackermud/blake2b.cpp:95-108 | the two-word counter with the carry test adds modulo 2^128 |
| Blake2b.IncrementCounter128 | hackermud/blake2b.cpp:97-102 | the 128-bit form adds the same |
| Blake2b.StartIs | hackermud/blake2b.cpp:176-211 | the bytewise exclusive or with the parameter block is the first chain value of section 3.3 of RFC 7693 |
| Blake2b.BeforeLastIs | hackermud/blake2b.cpp:318-368 | a split with whole blocks before and one to 128 bytes after is the only one: the last block is never early |
| Blake2bStream.State.Update | hackermud/blake2b.cpp:318-346 | whatever was fed before, exactly the new bytes are added; chain value, counter and buffer stay consistent, and the last block waits |
| Blake2bStream.State.Final | hackermud/blake2b.cpp:349-368 | the digest is that of section 3.3 of RFC 7693 for all bytes fed, however they were split; a length over 64 is refused without effect |
| Blake2bStream.State.FirstBlock | hackermud/blake2b.cpp:325-334 | counting, compressing and shifting one full block keeps the invariant |
| Blake2bStream.State.InitKey | hackermud/blake2b.cpp:213-245 | lengths out of range are refused; the padded key is the first block |
| Blake2bStream.Blake2bOf | hackermud/blake2b.cpp:371-394 | the one-call form computes the keyed or unkeyed digest, or refuses the lengths |
| Blake2bStream.Blake2bLong | hackermud/blake2b.cpp:434-468 | the output is the variable-length hash of section 3.3 of RFC 9106, with exactly the requested length |
| Blake2bStream.Le32Is | hackermud/blake2b.cpp:434-446 | the output length is hashed as four bytes, low byte first |
| Md5.CMD5.UpdateDigest | hackermud/md5.cpp:210-245 | whatever was fed before, exactly the new bytes are added; registers, buffer and split counter stay consistent |
| Md5.CMD5.GetDigest | hackermud/md5.cpp:247-304 | the digest is that of section 3 of RFC 1321 for all bytes fed, however they were split; short buffers are refused without effect; its sixteen bytes are the four registers in order, each low byte first; counter, registers and buffer are cleared |
| Md5.OutputIs | hackermud/md5.cpp:280-297 | read as numbers, low byte first, the sixteen bytes are the registers a, b, c, d |
| Md5.WordsAre | hackermud/md5.cpp:75-90 | word i of a block is the number in bytes 4 * i to 4 * i + 3, low byte first |
| Md5.Low4Is | hackermud/md5.cpp:270-278 | the four bytes of a length are the number modulo 2^32, low byte first |
| Md5.CMD5.DoBody | hackermud/md5.cpp:92-197 | one or more whole blocks are processed in order |
| Md5.Count | hackermud/md5.cpp:215-218 | the 29-bit and 32-bit halves count bytes modulo 2^61 |
| Md5.LengthBytes | hackermud/md5.cpp:270-278 | the eight appended bytes are the length in bits modulo 2^64 |
| Md5.PaddedParts | hackermud/md5.cpp:254-268 | the padded message of sections 3.1 and 3.2 of RFC 1321 ends in one block or two |
| Md5.ChainJoin | hackermud/md5.cpp:105-189 | blocks can be processed in any number of calls |
| Md5Steps.FirstRound | hackermud/md5.cpp:112-127 | sixteen unrolled steps with rotating roles are sixteen operations of the standard |
| Md5Steps.ThirdRound | hackermud/md5.cpp:148-163 | the alternating H and H2 steps are operations of the standard |
| Md5Steps.StepIsOperation | hackermud/md5.cpp:59-62 | the macro is the operation of section 3.4 of RFC 1321 |
| Md5Steps.MacroAgrees | hackermud/md5.cpp:50-54 | the rewritten F and G, both forms of H, and I equal their definitions |
| NutilList.LinkMemory.RemoveFromList | hackermud/nutil_list.h:191-194 | the link leaves exactly the list it was in; all other lists are as before |
| NutilList.LinkMemory.InsertBefore | hackermud/nutil_list.h:198-206 | the object moves to just before another one, out of whatever list it was in; only those two lists change |
| NutilList.LinkMemory.InsertAfter | hackermud/nutil_list.h:210-218 | the object moves to just after another one, out of whatever list it was in; only those two lists change |
| NutilList.LinkMemory.Unlink | hackermud/nutil_list.h:228-234 | the link is alone afterwards; only its list changes |
| NutilList.TList.InsertBefore | hackermud/nutil_list.h:428-434 | the list is the sequence with the object before another, or at the end |
| NutilList.TList.InsertAfter | hackermud/nutil_list.h:438-444 | the list is the sequence with the object after another, or at the front |
| NutilList.TList.UnlinkAll | hackermud/nutil_list.h:350-357 | terminates with an empty list and all its links alone; no other list changes |
| NutilList.TList.Tail | hackermud/nutil_list.h:374-376 | the last object, or null for an empty list |
| NutilList.Neighbours | hackermud/nutil_list.h:244-266 | what Next and Prev read at every position of a ring |
| LinkRings.NextLinkIs | hackermud/nutil_list.h:181-187 | the offset computed from the previous link leads to the next link, from the head too |
| LinkRings.RemoveOk | hackermud/nutil_list.h:191-194 | bypassing a link leaves the ring of the others |
| LinkRings.InsertOk | hackermud/nutil_list.h:198-218 | linking in an object makes the ring with it at that place |
| LinkRings.BeforeItselfBreaks | hackermud/nutil_list.h:198-206 | an object inserted before itself is in no well-formed ring afterwards |
| LinkRings.AfterItselfBreaks | hackermud/nutil_list.h:210-218 | an object inserted after itself is its own next object and previous link, and in no well-formed ring afterwards |
| LinkWorld.DetachOk | hackermud/nutil_list.h:191-194 | over all lists at once, leaving one keeps every ring and changes one sequence |
| LinkWorld.AttachOk | hackermud/nutil_list.h:198-218 | over all lists at once, joining one keeps every ring and changes one sequence |
| NutilHash.THash.Find | hackermud/nutil_hash.h:244-247 | the first object of the row of the key that equals it, or null |
| NutilHash.THash.FindInternal | hackermud/nutil_hash.h:270-277 | the walk returns the first match from its start on |
| NutilHash.MatchFound | hackermud/nutil_hash.h:270-277 | a match is returned exactly if some object of the row equals the key |
| NutilHash.THash.FindDecides | hackermud/nutil_hash.h:234-247 | if objects are in the rows of the keys they equal, Find decides membership in the whole table |
| NutilHash.THash.InRowOfKey | hackermud/nutil_hash.h:234-247 | the condition of FindDecides holds if every object is in the row of its own hash value and keys have the hash values of the objects they equal |
| NutilHash.THash.AddNode | hackermud/nutil_hash.h:227-230 | an added object is in the row of its own hash value, and every other object stays in its row |
| NutilHash.DetachKeepsRows | hackermud/nutil_hash.h:206-215 | an object that leaves its row, or moves, leaves all others in theirs |
| NutilHash.THash.Add | hackermud/nutil_hash.h:234-240 | the object moves to the end of the row of its hash value |
| NutilHash.THash.UnlinkAll | hackermud/nutil_hash.h:206-215 | every row is empty afterwards and no other list changes |
| ItemFingerprint.FingerprintDetermines | hackermud/item.cpp:268-384 | the five-byte fingerprint of the server determines the quantised item if and only if its code has at most forty bits |
| ItemFingerprint.FingerprintDecodes | hackermud/item.cpp:268-384 | a decoder recovers levels, disk usage and rounded modifiers from a fingerprint that fits |
| ItemFingerprint.DecodeCode | hackermud/item.cpp:276-381 | the code is uniquely decodable whatever follows it |
| ItemFingerprint.CodeOfKept | hackermud/item.cpp:276-381 | items that are the same to the decoder have the same code |
| ItemFingerprint.RoundedIs | hackermud/item.cpp:277-291 | a modifier keeps its top four bits, at a cost of five bits and one per halving |
| ItemFingerprint.LevelExact | hackermud/item.cpp:329-338 | a level is recovered exactly if and only if it is at most 19 |
| ItemFingerprint.GetItemFingerprint | hackermud/item.cpp:268-384 | the bytes written are the packed code, cut to five bytes by the server build, and their number |
| ItemFingerprint.GetFingerprints | hackermud/player.cpp:513-523 | seven equipped items: the fingerprints one behind the other; the 35 bytes are overrun on the server never, on the client if and only if the codes take more |
| ItemFingerprint.CodeBound | hackermud/item.cpp:268-384 | no code takes more than sixteen bytes |
| ItemFingerprint.ThreeOverrun | hackermud/player.cpp:513-523 | three items with negative modifiers write 48 bytes |
| BitWriter.CBitWriter.WriteBits | hackermud/bitwriter.cpp:17-43 | the bits written so far are followed by the low bits of the value, highest first |
| BitWriter.CBitWriter.Flush | hackermud/bitwriter.cpp:50-76 | the output is all bits, zero padded to whole bytes, or as many bytes as there is room for |
| BitWriter.UnpackPacked | hackermud/bitwriter.cpp:17-76 | unpacking the bytes gives the bits and the padding |
| Player.CPlayer.EquipItem | hackermud/player.cpp:260-300 | succeeds exactly under its five conditions; the items on the player stay the same, counters, limits, maximum and current stats stay consistent; a stat above its new maximum falls to it and any other stays |
| Player.CPlayer.UnequipItem | hackermud/player.cpp:302-335 | succeeds exactly if the item fits; the item moves to the front of the list, nothing is lost; a stat above its new maximum falls to it and any other stays |
| Player.CPlayer.AddItemToInventory | hackermud/player.cpp:337-354 | succeeds exactly if the item fits; the counters stay right if and only if the item was not in the list already, and the whole invariant if and only if the player did not have it at all |
| Player.CPlayer.RemoveItemFromInventory | hackermud/player.cpp:356-383 | succeeds exactly if the item is in the list; the disk space drops by its usage, so the reset branch is never taken |
| Player.Run | hackermud/player.cpp:260-383 | any run of add, remove, equip and unequip answers and ends as the account of single steps says; it keeps the invariant if and only if no step adds an item that is in the list or in a slot already, and stops at the first that does; up to there the items on the player are those at the start plus those that were added minus those that were removed; base stats and limits are not touched |
| Player.Do | hackermud/player.cpp:260-383 | one operation succeeds, changes list, slots and current stats, and keeps the invariant, each exactly under the stated condition |
| Player.RunConserves | hackermud/player.cpp:260-383 | over any number of steps that double no item, what was brought less what was taken is there, and every item is in one place |
| Player.StepConserves | hackermud/player.cpp:260-383 | one step brings, takes away or moves one item at most |
| Player.DiskSumRemoved | hackermud/player.cpp:374-380 | the disk usage of a list is that of the rest and the removed item |
| Player.EquippedMore | hackermud/player.cpp:280-285 | filling a slot adds one item and its modifiers |
| Player.Wrap | hackermud/player.cpp:283-285 | sixteen-bit addition and subtraction of modifiers keep the stat equal to base plus equipment modulo 2^16 |
| Mcs4.SetGet | faggin/mcs4.c:168-192 | writing one 12-bit counter leaves the other three alone |
| Mcs4.SetCounters | faggin/mcs4.c:182-192 | the six bytes refine four independent counters |
| Mcs4.EvenCounter | faggin/mcs4.c:168-176 | as a number, counter 0 or 2 is sixteen times its first byte plus the high half of the next |
| Mcs4.OddCounter | faggin/mcs4.c:168-176 | counter 1 or 3 is 256 times the low half of that byte plus the byte after it |
| Mcs4.Cpu.OpJms | faggin/mcs4.c:532-543 | pushes the counter moved on twice and jumps to 256 times the low half of the byte at the counter plus the byte after it, addresses taken modulo 2048; the stack pointer wraps at depth three; two cycles are counted |
| Mcs4.Cpu.OpBbl | faggin/mcs4.c:662-675 | pops and loads the low half of the byte at the counter into the accumulator, or moves on by one byte when there is nothing to pop |
| Mcs4.ReturnUndoesCall | faggin/mcs4.c:532-675 | a return undoes a call if and only if the stack was not full |
| Mcs4.CallReturns | faggin/mcs4.c:532-675 | after any balanced body that fits, a return resumes where its call had moved on to: for a call at address a that is not in the last two bytes of a page, at a + 2 |
| Mcs4.AdvanceIs | faggin/mcs4.c:197-202 | moving on goes to the next address, and from the last address of a page to the first of the same page |
| Mcs4.TargetIs | faggin/mcs4.c:534-537 | where a call goes, as a number |
| Mcs4.BalancedRun | faggin/mcs4.c:532-675 | balanced calls that fit leave the stack pointer and every return address as they were |

## Left out

- System memory: `mmap`, `mremap`, direct mapping of large requests, and MORECORE that is not contiguous. MORECORE is a parameter that may extend the one segment, refuse, or take memory back.
- `add_segment`, `prepend_alloc`, `release_unused_segments` and the release counter: only one segment is modelled.
- Footers, locks, mspaces, `mallopt`, `dlmallinfo`, statistics, inspection, and `dlcalloc` beyond `dlmalloc`.
- The contents of memory, except what programs store behind held pointers and what `dlrealloc` copies: `ialloc` and `calloc` clear payloads. Chunk heads, feet and links are kept in maps of their own; `Payloads` and `Stores` show that they and the payloads of chunks in use do not meet.
- Chunk sizes from 2^40 on: see `TreeIndex.IndexExact` for what goes wrong with the bins.
- Dlmalloc.MallocState.InternalMemalign: alignments above 2^63, for which the loop does not end.
- Dlmalloc.MallocState.Ialloc: for a total of 2^64 or more, what the original writes outside the aggregate that it got; see `Parcels.TotalWraps`.
- AllocatorRuns.Run: steps with alignments above 2^63 or `ialloc` totals from 2^64 on, and MORECORE beyond 2^40 bytes, are skipped.
- Dlmalloc.MallocState.SysAlloc: memory that is mapped, not contiguous, or obtained in two attempts. After a refused MORECORE call the original takes the space for non-contiguous for good and asks for the whole size from then on, where the model goes on asking for what top lacks: `CanServe` is the condition of the original up to the first refusal.
- Dlmalloc.MallocState.SysTrim: MORECORE takes back all it is offered or nothing, where the original copes with any part.
- TrimOrder.OrdersAgreeIff: the system takes memory back at every trim or at none.
- Calls with invalid pointers: the corruption and usage error actions are only shown never to run on valid ones.
- Equihash: printing, and `std::sort`, which is a sorted permutation here.
- BLAKE2b: the XOP code path, salt, personalisation and tree parameters other than the last-node flag, and null pointers.
- Blake2bStream.Blake2bLong: an output length of 0, for which the original hashes from an uninitialised state.
- MD5: the constants are data; that they come from the sine function is not modelled.
- Lists: object lifetimes (`DeleteAll`, destructors of whole objects), and lists whose offset was never set.
- The network, database, room and command code of Hackermud, and reading and writing player data: text and stream output.
- Player: stat changes other than by equipment, and slots outside the seven, which the original does not check; the hexadecimal text of the fingerprints.
- The other instructions of the MCS-4, and its run loop.
- The challenge front ends, builders, pollers and solvers.
