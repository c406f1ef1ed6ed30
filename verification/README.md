# Memory management and randomness of the WebAssembly C library

This project models four parts of the C library that this repository builds for WebAssembly, and proves what
they promise. All four get their memory from `sbrk`, which only grows, in whole pages of 64 KiB, and may
refuse; others may make memory grow between two calls.

- **dlmalloc** (`Dl*.dfy`), as configured in `dlmalloc/src/dlmalloc.c` for wasm32: no mmap, no trimming,
  16-byte alignment, no footers. The class `Malloc` keeps head words, feet, bins and bin maps, the
  designated victim and top; beside them a ghost view says which chunks there are. `Valid()` is what the
  code's own debug checks look for (`dlmalloc/src/malloc.c:3224-3486`): chunks tile each segment, every tag
  agrees with its neighbour, no two free chunks meet, and each free chunk is exactly one of top, dv, or a
  member of the bin for its size. The tree bins are modelled down to their links: tries keyed on size bits,
  rings of equal sizes, parents and children, and the bin map.
- **emmalloc** (`Em*.dfy`). Sizes, free-list links and block records all live in the words of one flat
  memory; the ghost `shape` says which regions there are. `Valid()` says that every block is tiled from its
  root region to its end sentinel, that bottom and ceiling of each region agree, that no two free regions
  meet, that each free region is in exactly the list of its bucket, and that a clear bit of the mask means
  an empty list.
- **mman** (`Mman*.dfy`), the emulation of mmap, munmap and msync by a sorted table of page ranges in an
  array. The abstract view, `OwnerAt`, maps each address to its owner: nothing, the pool, or a live mapping
  with its protection, flags, file, file offset and whether the file backs it. System calls are oracles
  whose answers are parameters.
- **arc4random** (`RandomStream`, `ChaCha20`, `Arc4Random`, `UniformRandom`), a generator read through a
  reserve, and the rejection sampler on top of it; `ChaChaVectors` ties the generator to the values of RFC 8439.

`Words`, `Alignment`, `Pages`, `Rings` and `Sbrk` hold what they share: 32-bit words and bit tricks,
alignment, page arithmetic, circular lists and linear memory.

The operations in the table are modelled for all sizes, alignments, addresses and flags, and for pointers
that are null or were handed out and not freed; memory may grow up to the last of its 2^32 bytes. Unless one
traps, hangs or overruns, it takes a valid state to a valid state, so the invariants hold in every state
reached that way. Its contract says exactly, or with a condition that can be checked before the call, when
it does one of those three. What an operation does is stated on the abstract view: `Live()` for the
allocators, `OwnerAt` and the contents of memory and files for mman, `Draw` for the generator. Where several
places could serve an allocation, the contract says which one does, from the state before (`Picks`, `Foretold`,
`FirstFit`).

Where the code and its own text differ, the model follows the code:

- emmalloc's check against `MAX_ALLOC_SIZE` is meant to stop every request whose size would overflow. Three
  sums still wrap. `attempt_allocate` adds the aligned payload address and the size in 32 bits:
  `EmScan.AcceptsTooSmall` is a free region that is too small and passes the test, and
  `EmScan.AcceptsExactly` says that the test is right if and only if the region does not wrap (`Wraps`).
  Rounding the bytes to claim up to a page wraps for sizes in the last page below 2^32: `EmScan.ClaimWraps`
  gives such a size and `EmScan.ClaimCovers` the exact condition. `attempt_region_resize` adds the new size
  to the address as well (`ResizeWraps`; `Emmalloc.GrowsPastEnd` is a state in which that happens). A call
  that runs on after such a wrap has the fate `Overrun`, and the model says nothing about the state after
  it: the code writes outside the memory it may use, or, where an attempt needs no padding, writes only
  inside the region and hands out a payload that is too small. An allocation overruns only if it is not
  `Safe`: some free region wraps, or the memory to be claimed does. The condition is exact where the scan
  accepts a region (`ScanDecides`) and where no free region is accepted (`ClaimOverruns`).
- `claim_more_memory` takes everything from `__heap_base` to the end of memory as the initial heap, even if
  others have obtained pages by `sbrk` before the first allocation: `Emmalloc.PageBefore` and
  `Emmalloc.SharedHeap` are such a run, and `Emmalloc.ClaimShares` the exact condition.
- The loop in `internal_memalign` that doubles up to the alignment ends if and only if the alignment is at
  most 2^31 (`DlRequest.DoublingEnds`); beyond that the value wraps to zero (`DlRequest.NeverEnds`).
- `mmap` hands a rounded length beyond `PTRDIFF_MAX` to `sbrk` as a negative increment, on which this `sbrk`
  aborts; `Mapper.Mmap` says exactly when, and `Mman.AbortsOn` gives a length.
- `sbrk` does not refuse the last page below 2^32. An entry of the region table that goes up to 2^32 has the
  end zero in the sums of `first_overlap`, `writeback`, `unmap_range` and `msync`. Then `munmap` may return
  0 and unmap nothing, even of another mapping (`MmanSearch.MissesOther`), or free more than its range
  (`MmanSearch.FreesTooMuch`), `msync` may refuse a range that is covered, nothing of that entry is written
  back, and a failed `mmap` may leave its pages live. All of this is modelled. The search is right at every
  address if and only if no entry goes up to 2^32 (`MmanSearch.RightEverywhere`); the contracts of `Munmap`,
  `Msync` and `Mmap` say what they do in every table, and that it is what it should be under that condition
  (`NoneAtEnd`), which holds in particular as long as memory is smaller than 2^32 bytes
  (`MmanTable.RoomLeft`).
- dlmalloc's second try takes memory that ends at 2^32 for none, because its end is the address zero: the
  pages are lost (`Loses`). Where the rest of a block that is too small would be too large for one
  increment, the code keeps the block and refuses the request (`FallsShort`). `Malloc.GivesPageBack` is a
  state in which pages would be given back, on which `sbrk` aborts.
- The build defines NDEBUG, so nothing notices when `getentropy` fails: the generator then runs on the
  all-zero key (`RngState.WithoutEntropy`).
- In the generator, `chacha20_update` permutes the state in place and carries the permuted state into the
  next block (`ChaCha20.Update`), whereas section 2.4 of RFC 8439 computes each block from the initial state
  with a new counter. No claim is made that the streams agree after the first block.
- dlmalloc's `smallmap` bit decides whether the links of a bin header mean anything; the invariant on the
  lists is conditional on it.

## Model

| member | source | states |
|---|---|---|
| Sbrk.LinearMemory.Sbrk | libc-bottom-half/sources/sbrk.c:7-32 | memory only grows, by whole pages, up to all of the 2^32 bytes; success returns the old end, which is zero once memory is full, failure changes nothing; it succeeds if and only if nothing is asked for or the engine grants pages that there still are |
| DlTreeIndex.Log2TrickCorrect | dlmalloc/src/malloc.c:2886-2903 | the three branch-free normalizing steps of the generic `compute_tree_index` find the highest set bit of a 16-bit number |
| DlTreeIndex.TreeIndexCorrect | dlmalloc/src/malloc.c:2886-2917 | the bit trick puts a size into bin i if and only if `minsize(i) <= S` and (i is the last bin or `S < minsize(i+1)`) |
| DlBinMap.Bit2IdxInverse | dlmalloc/src/malloc.c:2973-2983 | the generic `compute_bit2idx` inverts `idx2bit` for every bin |
| DlBinMap.LeastMarked | dlmalloc/src/malloc.c:2935-2983 | `least_bit` and `compute_bit2idx` together find the lowest marked bin of any non-empty map |
| DlBinMap.LeftOfMeaning | dlmalloc/src/malloc.c:4483-4488 | `left_bits(idx2bit(idx)) & treemap` holds exactly the marked bins beyond idx |
| DlBinMap.LeftInSmallMeaning | dlmalloc/src/malloc.c:4631-4633 | `(smallbits << idx) & left_bits(idx2bit(idx))` holds exactly the marked bins beyond idx |
| DlBinMap.LowTwoBits | dlmalloc/src/malloc.c:4613-4616 | `smallbits & 0x3` tells whether bin idx or idx + 1 is marked, and its lowest bit which |
| DlRequest.RequestSizes | dlmalloc/src/malloc.c:2236-2241 | a padded request is a multiple of 16, at least the minimum chunk, and has room for the bytes and the overhead, with less than a whole unit to spare |
| DlRequest.RoundAlignment | dlmalloc/src/malloc.c:4923-4929 | for at most 2^31 the alignment loop ends and gives the least power of two that is at least what was asked; beyond, it hangs; a power of two stays what it is |
| DlRequest.DoublingEnds | dlmalloc/src/malloc.c:4925-4926 | doubling from 32 in 32 bits reaches the alignment at some step if and only if the alignment is at most 2^31 |
| DlRequest.NeverEnds | dlmalloc/src/malloc.c:4926 | no step of the doubling reaches 2^31 + 1 |
| DlChunk.FieldsOfWord | dlmalloc/src/malloc.c:2254-2270 | size, CINUSE and PINUSE are recovered from a head word by masking |
| DlChunk.PinuseUpdates | dlmalloc/src/malloc.c:2272 | setting or clearing PINUSE changes that bit of the head word and no other field |
| DlTrie.StepKey | dlmalloc/src/malloc.c:3668-3672 | the top bit of the shifted key chooses the child whose interval holds the size, and shifting once gives the key there; bits remain to be tested as long as the size is unresolved |
| DlTrie.RootKeyAt | dlmalloc/src/malloc.c:3668 | the initial left shift brings the first size bit that a bin leaves unresolved to the top |
| DlTrie.SameSizeComparable | dlmalloc/src/malloc.c:3368-3389 | two positions of one bin that can hold the same size lie on one path |
| DlTrie.ForkOrders | dlmalloc/src/malloc.c:3306-3354 | where two paths part, every size on the 0 side is below every size on the 1 side |
| DlForest.OccupiedAbove | dlmalloc/src/malloc.c:3306-3354 | every position above an occupied one is occupied |
| DlForest.AddNodeOk | dlmalloc/src/malloc.c:3671-3680 | planting a leaf for a new size keeps the forest a trie with one node for each size |
| DlForest.AddToRingOk | dlmalloc/src/malloc.c:3686-3694 | joining the ring of a node of equal size keeps the forest |
| DlForest.TakeFromRingOk | dlmalloc/src/malloc.c:3724-3734 | leaving a ring keeps the forest, also when the tree node itself leaves |
| DlForest.TakeNodeOk | dlmalloc/src/malloc.c:3735-3790 | replacing an interior node by any leaf below it keeps every size within the interval of its position |
| DlTreeBins.TreeBins.InsertLarge | dlmalloc/src/malloc.c:3653-3702 | `insert_large_chunk` ends, keeps tries, rings, links and treemap, and adds exactly that chunk |
| DlTreeBins.TreeBins.CutLeaf | dlmalloc/src/malloc.c:3736-3750 | the walk for a replacement ends at a leaf below X and cuts it off; it returns null only if X is a leaf itself |
| DlTreeBins.TreeBins.UnlinkLarge | dlmalloc/src/malloc.c:3721-3790 | `unlink_large_chunk` keeps tries, rings, links and treemap, and removes exactly that chunk |
| DlTreeBins.TreeBins.WalkBits | dlmalloc/src/malloc.c:4453-4481 | after the walk along the bits of nb, every chunk that could do better lies in the subtree returned; if nothing was seen, only later bins can fit |
| DlTreeBins.TreeBins.NextBin | dlmalloc/src/malloc.c:4482-4490 | the search goes on in the first occupied later bin, which holds the best fit if anything does |
| DlTreeBins.TreeBins.FindLarge | dlmalloc/src/malloc.c:4453-4499 | the chunk found has the smallest size that is at least nb among all tree chunks; null if and only if none is large enough |
| DlTreeBins.TreeBins.FindSmall | dlmalloc/src/malloc.c:4524-4541 | for a small request the chunk found is the smallest in all trees |
| DlSmallBins.SmallBins.Insert | dlmalloc/src/malloc.c:3575-3591 | `insert_small_chunk` keeps all lists and the smallmap, and adds exactly that chunk, as the first of its list |
| DlSmallBins.SmallBins.Unlink | dlmalloc/src/malloc.c:3594-3617 | `unlink_small_chunk` keeps all lists, clears the bit exactly when the list becomes empty, and removes exactly that chunk |
| DlSmallBins.SmallBins.UnlinkFirst | dlmalloc/src/malloc.c:3620-3635 | a marked bin yields the first chunk of its list, of exactly its size, and only that chunk leaves |
| Rings.RingInsert | dlmalloc/src/malloc.c:3690-3694 | inserting after a member keeps a ring circular in both directions |
| Rings.RingRemove | dlmalloc/src/malloc.c:3724-3730 | taking a member out keeps a ring circular in both directions |
| DlHeap.Tiled | dlmalloc/src/malloc.c:3428-3456 | every address between the bounds of a segment belongs to exactly one chunk |
| DlHeap.SplitOk | dlmalloc/src/malloc.c:3059-3071 | cutting a chunk in use in two keeps the boundary-tag heap |
| DlHeap.ReleaseOk | dlmalloc/src/malloc.c:2291-2297 | `set_free_with_pinuse` between chunks in use keeps the heap: tags agree, the foot is written, no two free chunks meet |
| DlHeap.MergeOk | dlmalloc/src/malloc.c:3059-3062 | a chunk in use that takes in the next one keeps the heap |
| DlHeap.CarveOk | dlmalloc/src/malloc.c:4511-4513 | cutting a request off a free chunk, the rest staying free, keeps the heap |
| DlHeap.WithPrevOk | dlmalloc/src/malloc.c:4384-4410 | coalescing with the chunk that `prev_foot` leads to keeps the heap |
| DlHeap.WithNextOk | dlmalloc/src/malloc.c:4429-4438 | coalescing with the next chunk keeps the heap |
| DlHeap.ToTopOk | dlmalloc/src/malloc.c:4413-4422 | a chunk that joins top keeps the heap |
| DlHeap.FromTopOk | dlmalloc/src/malloc.c:4689-4697 | a chunk cut from the bottom of top keeps the heap |
| DlHeap.NewAreaOk | dlmalloc/src/malloc.c:3987-4037 | a retired top, its segment record and the new top keep the heap |
| DlGrow.AbsorbOk | dlmalloc/src/malloc.c:4896-4913 | growing into part of the next free chunk keeps the heap |
| DlGrow.ShiftOk | dlmalloc/src/malloc.c:4874-4886 | moving the start of the designated victim up keeps the heap |
| DlMalloc.Malloc.constructor | dlmalloc/src/malloc.c:2640-2642 | the zeroed state is valid and nothing is live |
| DlMalloc.Malloc.InsertChunk | dlmalloc/src/malloc.c:3794-3796 | a chunk goes to the smallbin or treebin of its size, and no other bin changes |
| DlMalloc.Malloc.UnlinkChunk | dlmalloc/src/malloc.c:3798-3800 | a binned chunk leaves its bin, and no other bin changes |
| DlMalloc.Malloc.DisposeChunk | dlmalloc/src/malloc.c:4382-4448 | a live chunk becomes free and is coalesced with free neighbours, dv or top; heap and indexes agree again, and exactly it is no longer live; dv stays, or grows by the chunk, or goes to top with it (`DvFollows`) |
| DlMalloc.Malloc.TakePrev | dlmalloc/src/malloc.c:4384-4410 | the free chunk before p is found through `prev_foot` and leaves its bin unless it is dv |
| DlMalloc.Malloc.ReplaceDv | dlmalloc/src/malloc.c:3639-3648 | the old victim is binned and the new one takes its place; this is only ever called with a small `dvsize` |
| DlMalloc.Malloc.UseChunk | dlmalloc/src/malloc.c:3064-3067 | a free chunk in no bin becomes exactly one more live chunk |
| DlMalloc.Malloc.SplitChunk | dlmalloc/src/malloc.c:4511-4513 | a free chunk is divided into a live one of exactly nb bytes and a free one with the rest |
| DlMalloc.Malloc.TmallocLarge | dlmalloc/src/malloc.c:4453-4521 | null if and only if no tree chunk fits or dv fits at least as well; else the best-fitting tree chunk is allocated with exactly nb bytes, and dv stays |
| DlMalloc.Malloc.TmallocSmall | dlmalloc/src/malloc.c:4524-4559 | the smallest tree chunk is allocated, and what follows its first nb bytes becomes dv |
| DlMalloc.Malloc.FromDv | dlmalloc/src/malloc.c:4669-4687 | dv is allocated from its start; what is left becomes dv, or nothing does if it is less than a chunk |
| DlMalloc.Malloc.CutTop | dlmalloc/src/malloc.c:4689-4697 | nb bytes are allocated at the old top, which moves up by nb |
| DlMalloc.Malloc.SmallRequest | dlmalloc/src/malloc.c:4609-4657 | a small request is served from the bins if and only if a binned chunk has exactly its size, or dv is too small and any binned chunk fits (`Binned`); it gets the best fit, and a remainder becomes dv (`PicksBin`) |
| DlMalloc.Malloc.NextSmall | dlmalloc/src/malloc.c:4626-4651 | the chunk of the next marked smallbin is the best fit of all binned chunks; it is split and its remainder becomes dv |
| DlMalloc.Malloc.GetCore | dlmalloc/src/malloc.c:4042-4190 | memory is obtained if and only if `Obtains`, and it traps if and only if `GivesBack`: the first increment was granted apart from top and the rest refused; memory obtained starts at the old end of memory and has exactly `Increment` bytes, whole pages; it suffices for the request, together with top if contiguous, if and only if not `FallsShort`: the rest is too large for an increment; a failed call leaves memory as it was if and only if the second try did not reach 2^32 (`Loses`); contiguous growth is given up if and only if `Disables` |
| DlMalloc.Malloc.GivesPageBack | dlmalloc/src/malloc.c:4145-4166 | a reachable state in which a request for a page makes the allocator give memory back |
| DlMalloc.Malloc.FirstSegment | dlmalloc/src/malloc.c:4195-4209 | the first segment becomes top |
| DlMalloc.Malloc.ExtendTop | dlmalloc/src/malloc.c:4219-4227 | contiguous memory makes top larger and nothing else |
| DlMalloc.Malloc.RecordPlace | dlmalloc/src/malloc.c:3987-3997 | the segment record always fits as an aligned chunk at the end of the old top |
| DlMalloc.Malloc.SegmentStartingAt | dlmalloc/src/malloc.c:4231-4237 | no segment starts where new memory ends, so `prepend_alloc` is never reached |
| DlMalloc.Malloc.SegmentEndingAt | dlmalloc/src/malloc.c:4217-4221 | only the newest segment can end where new memory starts |
| DlMalloc.Malloc.AddSegment | dlmalloc/src/malloc.c:3987-4037 | the old top becomes a binned chunk followed by the segment record and fenceposts, the new memory becomes top; live chunks stay |
| DlMalloc.Malloc.SysAlloc | dlmalloc/src/malloc.c:4042-4262 | a request is served with exactly nb bytes if and only if `Provides`: memory is obtained and suffices; they start at the old top if memory is contiguous with it, else 8 bytes into the new memory; it traps if and only if pages would be given back; a size that wraps is refused; refusal leaves all live chunks, and memory too unless pages are lost at 2^32 or do not suffice (`Wastes`); contiguous growth is given up if and only if its call is refused or too large (`Disables`) |
| DlMalloc.Malloc.Malloc | dlmalloc/src/malloc.c:4568-4709 | success adds exactly one live chunk of the padded size; which chunk serves is told from the state before (`Picks`): the best fit among the binned chunks if one is wanted (`Binned`: of exactly the size, or any that fits if dv is too small, or for a large request any that fits better than dv), or else dv if it suffices, or else the bottom of top, or else new memory, and so are the new dv and top; a request that dv, top or any binned chunk can serve never fails and never asks the system; one that asks makes memory grow by exactly `Increment`, fails only if sbrk does not provide the memory (`Provides`), and traps only if pages would be given back; a refused one has grown memory if and only if `Wastes` |
| DlMalloc.Malloc.Free | dlmalloc/src/malloc.c:4713-4835 | exactly the freed chunk is no longer live; heap and indexes agree; dv stays, grows or goes to top (`DvFollows`); null does nothing |
| DlMalloc.Malloc.TryReallocChunk | dlmalloc/src/malloc.c:4842-4919 | resizing in place succeeds if and only if the chunk and what is free after it are large enough; then exactly its size changes, and dv is what is left of it; else nothing changes at all |
| DlMalloc.Malloc.Realloc | dlmalloc/src/malloc.c:5269-5343 | in place whenever there is room; else a new chunk, the one `Malloc` would pick in the state before, the copied length is min(old payload, bytes), and the old chunk is freed; a request that the free chunks can serve never fails; failure leaves the old chunk live, and happens below `MAX_REQUEST` only if sbrk does not provide the memory |
| DlMalloc.Malloc.GiveLeader | dlmalloc/src/malloc.c:4955-4970 | the part before the first aligned spot becomes a free chunk and the rest stays live |
| DlMalloc.Malloc.Memalign | dlmalloc/src/malloc.c:4921-4993 | hangs if and only if the alignment is beyond 2^31; success gives a payload aligned to the least power of two from 16 on that is at least the alignment asked for, of the padded size, the first such place in the chunk that `Malloc` would pick for the widened request, and exactly one more live chunk; the widened request succeeds if the chunks can serve it, and else fails only if sbrk does not provide the memory |
| DlMalloc.Malloc.LivePayloads | dlmalloc/src/malloc.c:3269-3289 | live payloads start 16-byte aligned after their head, run up to the end of the first word of the next chunk, lie inside memory, and are disjoint |
| DlMalloc.Malloc.OthersGrow | libc-bottom-half/sources/sbrk.c:7-32 | growth of memory by others between two calls keeps the allocator valid |
| DlMalloc.Malloc.RoomFacts | dlmalloc/src/malloc.c:4842-4919 | how far a chunk can grow in place, by what follows it |
| DlIndex.BinLast | dlmalloc/src/malloc.c:3460-3486 | binning the one free chunk left out makes bins and heap agree again |
| DlSegments.Granules | dlmalloc/src/malloc.c:2681-2683 | granularity rounding covers a size exactly when it does not wrap |
| EmBuckets.BucketCorrect | emmalloc/emmalloc.c:226-303 | `compute_free_list_bucket` gives bucket b if and only if the size lies between the least payload of b and that of the next bucket, as the table of buckets says |
| EmBuckets.BucketMonotone | emmalloc/emmalloc.c:813-818 | larger payloads have no lower buckets, so a region in a strictly higher bucket is strictly larger than the request |
| EmLists.PutFirstRing | emmalloc/emmalloc.c:404-415 | linking right after the sentinel keeps the ring in memory |
| EmLists.PutLastRing | emmalloc/emmalloc.c:379-392 | linking right before the sentinel keeps the ring in memory |
| EmLists.UnlinkedRing | emmalloc/emmalloc.c:394-402 | unlinking keeps the ring of the others in memory |
| EmFreeLists.AddFirstOk | emmalloc/emmalloc.c:404-416 | the linked region is in the list of its bucket, and every other one stays in its own |
| EmFreeLists.DropOk | emmalloc/emmalloc.c:394-402 | exactly the unlinked region is in no list any more |
| EmFreeLists.AddFirstWrites | emmalloc/emmalloc.c:404-416 | linking writes link words of free regions and sentinels only |
| EmFreeLists.DropWrites | emmalloc/emmalloc.c:394-402 | unlinking writes link words of free regions and sentinels only |
| EmShape.JoinOk | emmalloc/emmalloc.c:988-1010 | a region in use that takes in the next one keeps the tiling |
| EmShape.SplitOk | emmalloc/emmalloc.c:698-708 | cutting a region in two keeps the tiling |
| EmShape.ShiftOk | emmalloc/emmalloc.c:679-690 | moving the boundary between two regions keeps the tiling |
| EmShape.ExtendOk | emmalloc/emmalloc.c:582-606 | swallowing the end sentinel of the previous block keeps the tiling |
| EmShape.NewBlockOk | emmalloc/emmalloc.c:607-622 | a new block with its root region and end sentinel keeps the tiling |
| EmShape.NoFreeNeighbours | emmalloc/emmalloc.c:682-684 | the regions beside a free region are never free |
| EmTiling.BlockTiled | emmalloc/emmalloc.c:476-500 | every address of a block lies in exactly one region, from the root region to the end sentinel |
| EmTiling.RegionBlock | emmalloc/emmalloc.c:476-500 | every region lies within a block of the list of all regions |
| EmHeap.LinkInOk | emmalloc/emmalloc.c:404-416 | `link_to_free_list` keeps lists, links and bitmask on the whole state; no size mark and no payload changes |
| EmHeap.TakeOutOk | emmalloc/emmalloc.c:394-402 | `unlink_from_free_list` keeps lists and links on the whole state; a stale mask bit is allowed |
| EmHeap.PutBackOk | emmalloc/emmalloc.c:379-392 | `prepend_to_free_list` keeps lists and links on the whole state |
| EmSpans.FreedHeap | emmalloc/emmalloc.c:988-1011 | one free region over the freed one and its free neighbours leaves a whole heap in which exactly that allocation is gone |
| EmSpans.AllocHeap | emmalloc/emmalloc.c:675-715 | bump and split leave lists, blocks and all marks but those of the new region right, and every other payload untouched |
| EmSpans.AllocLive | emmalloc/emmalloc.c:675-715 | the new allocation is one more, and no other shrinks |
| EmGrowth.AddedHeap | emmalloc/emmalloc.c:576-623 | the words of a new block leave a whole heap with the same allocations |
| EmGrowth.ExtendedHeap | emmalloc/emmalloc.c:576-606 | the words of a longer block leave lists and marks right, with the same allocations |
| EmMalloc.Emmalloc.constructor | emmalloc/emmalloc.c:134-216 | the statically initialized lists, empty and linked to themselves, are valid before any memory is claimed |
| EmMalloc.Encoding | emmalloc/emmalloc.c:84 | the free flag marks a size as odd, and decoding removes it |
| EmMalloc.Emmalloc.UnlinkFromFreeList | emmalloc/emmalloc.c:394-402 | exactly that region leaves its list, and only link words change |
| EmMalloc.Emmalloc.LinkToFreeList | emmalloc/emmalloc.c:404-416 | that region is first in the list of its bucket, whose bit is set |
| EmMalloc.Emmalloc.PrependToFreeList | emmalloc/emmalloc.c:379-392 | that region is last in the list of its bucket |
| EmMalloc.Emmalloc.Free | emmalloc/emmalloc.c:950-1018 | exactly that allocation is gone, coalesced with free neighbours into a region that is first in its list; all other payloads are untouched; null does nothing |
| EmMalloc.Emmalloc.MergeLeft | emmalloc/emmalloc.c:988-998 | the free region before is found through its ceiling and leaves its list |
| EmMalloc.Emmalloc.MergeRight | emmalloc/emmalloc.c:1000-1008 | the free region after is told by its two sizes and leaves its list |
| EmMalloc.Emmalloc.AddBlock | emmalloc/emmalloc.c:607-623 | new memory apart from the newest block becomes a block of one free region |
| EmMalloc.Emmalloc.ExtendBlock | emmalloc/emmalloc.c:576-606 | contiguous memory extends the newest block, through its free last region or its swallowed sentinel; no allocation changes |
| EmMalloc.Emmalloc.ClaimMoreMemory | emmalloc/emmalloc.c:532-624 | succeeds if and only if the initial heap suffices, only for the first block, or sbrk grants the pages; then the blocks gain exactly the claimed addresses, with free memory before the last sentinel; it traps exactly from 2^31 bytes on and overruns exactly if rounding to pages wraps; failure changes nothing |
| EmMalloc.Emmalloc.ClaimShares | emmalloc/emmalloc.c:547-554 | claimed memory meets pages that others obtained if and only if it is the initial heap and memory has grown since the start |
| EmMalloc.Emmalloc.SharedHeap | emmalloc/emmalloc.c:547-554 | whatever page others have obtained before the first claim, the claim makes it part of the heap |
| EmMalloc.Emmalloc.PageBefore | emmalloc/emmalloc.c:547-554 | a program that calls sbrk for a page before its first allocation reaches a state in which that page is its own and the initial heap would suffice |
| EmMalloc.Emmalloc.Bump | emmalloc/emmalloc.c:679-690 | the region before a free one grows by the bytes that aligning its payload skips |
| EmMalloc.Emmalloc.AttemptAllocate | emmalloc/emmalloc.c:656-726 | with the sum in 32 bits: overruns if and only if the region wraps, allocates if and only if the aligned payload fits; then one allocation is added, at the first aligned payload of that region and with less than a region to spare, and no other payload changes, not even that of the enlarged region before it |
| EmMalloc.Emmalloc.Cycle | emmalloc/emmalloc.c:804-811 | the first region of a bucket goes to the end of its list |
| EmMalloc.Emmalloc.TryBucket | emmalloc/emmalloc.c:796-830 | one bucket of the scan: its first region decides exactly whether it allocates or overruns; else that region is cycled, or the stale bit cleared |
| EmScan.NextBit | emmalloc/emmalloc.c:789-795 | `ctz` leads to the next set bit of the mask, and it is below 64 |
| EmScan.ClearBit | emmalloc/emmalloc.c:824-829 | clearing a stale bit of the mask is flipping the lowest bit of the shifted mask, which decreases |
| EmScan.SkipBit | emmalloc/emmalloc.c:819-820 | shifting past a tried bucket keeps the shifted mask in step with the index, and decreases it |
| EmMalloc.Emmalloc.ScanBuckets | emmalloc/emmalloc.c:780-835 | the scan ends with `bucketMask == used >> bucketIndex` kept; it allocates or overruns as the first accepted region, lowest bucket first, decides, or every marked bucket from that of the request on is non-empty and its first region is not accepted |
| EmMalloc.Emmalloc.TrySome | emmalloc/emmalloc.c:843-859 | up to 99 regions of the highest bucket are tried, all of them if there are no more, and none unless a bucket from 30 on is marked; an allocation is at the first aligned payload of an accepted one, an overrun needs one, and none before the cursor is accepted |
| EmMalloc.Emmalloc.TryRest | emmalloc/emmalloc.c:868-881 | the walk goes on to the end of that bucket: it allocates at the first aligned payload of an accepted region, or none of its regions is accepted |
| EmMalloc.Emmalloc.Search | emmalloc/emmalloc.c:749-859 | scan and bounded walk: the outcome, and the payload, are those of the region the scan accepts first, if there is one; otherwise no allocation changes and it is known what has been tried |
| EmScan.RoomSuits | emmalloc/emmalloc.c:665-671 | a payload with room for the padding suits at any address |
| EmScan.NothingLeft | emmalloc/emmalloc.c:780-880 | after scan and walk nothing suitable is left out: no region has a size class that guarantees a fit, and one that would fit is not of the highest size class in use |
| EmMalloc.Emmalloc.AllocateMemory | emmalloc/emmalloc.c:749-887 | for every size and alignment: ends, each retry taking the initial heap or a page; success gives one more allocation, at a multiple of the alignment asked for and of 16, large enough and with less than a region to spare; refusal leaves all allocations and tells that the heap is exhausted in the sense of `NothingLeft` and that nothing can be claimed; it traps only for claims of 2^31 bytes or more and overruns only if not `Safe`; `Foretold` says which exactly, and at which address, where the scan accepts a region and where no free region is accepted |
| EmMalloc.Emmalloc.Retry | emmalloc/emmalloc.c:864-866 | the recursion after a claim: it serves the request from what is free now, and if nothing was accepted before, from the claimed region if that has room, and it overruns if and only if the claimed region wraps |
| EmMalloc.Emmalloc.FarFromEnd | emmalloc/emmalloc.c:86-88 | a request is safe if end of memory, alignment and size together stay below 2^32 |
| EmScan.RequestOk | emmalloc/emmalloc.c:728-747 | validated sizes are the least multiples of 4 from 8 on that are at least what was asked; a validated alignment is a multiple of the one asked for; validating twice changes nothing |
| EmScan.AlignedAsAsked | emmalloc/emmalloc.c:728-736 | what is aligned to the validated alignment is aligned to the one asked for and to 16 |
| EmScan.AcceptsExactly | emmalloc/emmalloc.c:665-671 | the 32-bit test accepts a region if and only if the aligned payload fits or the region wraps, never both; so it is right if and only if the region does not wrap |
| EmScan.AcceptsTooSmall | emmalloc/emmalloc.c:669-671 | a region of 2^28 bytes near the end of memory is accepted for 0x6000_0000 bytes, which it cannot hold |
| EmScan.ClaimCovers | emmalloc/emmalloc.c:557 | rounding the claimed bytes up to pages covers them if and only if it does not wrap |
| EmScan.ClaimWraps | emmalloc/emmalloc.c:86-88 | a size below MAX_ALLOC_SIZE for which the rounded number of bytes to claim is zero |
| EmMalloc.Emmalloc.Memalign | emmalloc/emmalloc.c:889-896 | as `AllocateMemory`; a payload is a multiple of the alignment asked for |
| EmMalloc.Emmalloc.Malloc | emmalloc/emmalloc.c:912-921 | success gives one more allocation, 16-byte aligned, of at least the size asked; failure leaves all and means that nothing can be claimed; traps and overruns as `AllocateMemory` |
| EmMalloc.Emmalloc.AlignedAlloc | emmalloc/emmalloc.c:905-910 | alignment zero traps; otherwise it succeeds only for an alignment that is a multiple of 4 and divides the size, with a payload that is a multiple of it, and then answers, traps and overruns as `Memalign` |
| EmMalloc.Emmalloc.PosixMemalign | emmalloc/emmalloc.c:1260-1268 | error 22 if and only if the alignment is no multiple of 4, 12 if memory is refused; otherwise it answers, with a multiple of the alignment, traps and overruns as `Memalign` |
| EmMalloc.Emmalloc.UsableSize | emmalloc/emmalloc.c:923-942 | the usable size is the size of the region less its two marks |
| EmMalloc.Emmalloc.AttemptRegionResize | emmalloc/emmalloc.c:1027-1089 | succeeds if and only if the region and the free one after it are large enough; then exactly its size changes, its payload is kept up to the smaller size, and no other payload changes; overruns if and only if the next region is free and the new end passes 2^32 |
| EmMalloc.Emmalloc.LargestWraps | emmalloc/emmalloc.c:1099-1119 | wherever a free region follows an allocation, the largest size that passes the check wraps |
| EmMalloc.Emmalloc.GrowsPastEnd | emmalloc/emmalloc.c:1099-1119 | a state reached with the first allocation in which reallocating to that size overruns |
| EmResize.ResizedHeap | emmalloc/emmalloc.c:1042-1084 | the words of the rest leave lists, blocks and all marks but those of the region itself right |
| EmResize.PayloadWrite | emmalloc/emmalloc.c:76-84 | writes within a payload leave the heap whole and all other payloads as they were |
| EmMalloc.Emmalloc.Copy | emmalloc/emmalloc.c:1144 | memcpy between two payloads copies them word by word and disturbs nothing else |
| EmMalloc.Emmalloc.MoveTo | emmalloc/emmalloc.c:1138-1146 | copying to a new allocation and freeing the old one preserves the first min(old usable, new) bytes, although the old region may have grown in between |
| EmMalloc.Emmalloc.AlignedRealloc | emmalloc/emmalloc.c:1099-1151 | in place if and only if there is room and the new end does not wrap; else the payload moves to a multiple of the alignment asked for; a refused request leaves the old block and all others and means that nothing can be claimed; size 0 frees; overruns if resizing wraps, and else only if not `Safe`, for a move exactly as `Foretold` says |
| EmMalloc.Emmalloc.Realloc | emmalloc/emmalloc.c:1240-1249 | the same with the default alignment |
| EmMalloc.Emmalloc.LivePayloads | emmalloc/emmalloc.c:76-82 | allocations are word aligned, inside memory, and disjoint |
| EmMalloc.Emmalloc.OthersGrow | libc-bottom-half/sources/sbrk.c:7-32 | growth of memory by others between two calls keeps the allocator valid |
| Alignment.AlignUpOk | emmalloc/emmalloc.c:128 | `ALIGN_UP` gives the least multiple of a power of two that is at least the address |
| Alignment.AlignUpWraps | emmalloc/emmalloc.c:128 | `ALIGN_UP` in 32 bits is that multiple if it stays below 2^32, and zero else |
| Alignment.HasAlignmentOk | emmalloc/emmalloc.c:129 | `HAS_ALIGNMENT` tells whether the address is a multiple of a power of two |
| Pages.PageCeilOk | libc-bottom-half/mman/mman.c:78-80 | `page_ceil` is the least multiple of a page that is at least n, or zero once the sum wraps |
| Pages.PageCeilCovers | libc-bottom-half/mman/mman.c:382-386 | `page_ceil(n) >= n` if and only if the sum does not wrap, so `len < length` detects overflow exactly |
| Mman.Mapper.FirstOverlap | libc-bottom-half/mman/mman.c:84-94 | finds what the bisection over 32-bit ends finds (`FirstIndex`), for any sorted table; that is the first region whose end is above the address, or nothing although there is one, which takes an entry up to 2^32 |
| MmanSearch.RightEverywhere | libc-bottom-half/mman/mman.c:84-94 | `first_overlap` is right at every address if and only if no entry goes up to 2^32 |
| MmanSearch.LastMissed | libc-bottom-half/mman/mman.c:84-94 | within an entry up to 2^32 nothing is ever found |
| MmanSearch.MissesOther | libc-bottom-half/mman/mman.c:237-239 | with one mapping and the last page of the address space in the table, the search misses the mapping, so unmapping it does nothing |
| MmanSearch.FreesTooMuch | libc-bottom-half/mman/mman.c:246-260 | a range that ends inside an entry up to 2^32 frees all of that entry |
| MmanSearch.ClearedRight | libc-bottom-half/mman/mman.c:237-320 | while no entry goes up to 2^32, what `unmap_range` makes of the page map is what it should |
| Mman.Mapper.Reserve | libc-bottom-half/mman/mman.c:98-110 | the table keeps its entries and has room for the entries asked for if and only if it had before or realloc succeeds; realloc may make memory grow |
| Mman.Mapper.InsertAt | libc-bottom-half/mman/mman.c:113-117 | an entry is inserted in place, with the later ones moved up |
| Mman.Mapper.RemoveAt | libc-bottom-half/mman/mman.c:119-122 | an entry is removed in place, with the later ones moved down |
| Mman.Mapper.FrefRelease | libc-bottom-half/mman/mman.c:124-129 | one reference less; the descriptor is closed exactly when the last is gone |
| Mman.Mapper.Writeback | libc-bottom-half/mman/mman.c:133-155 | under any short writes and interruptions, bytes go to their own file offsets from the start on, nothing past the backed end, taken in 32 bits, is written, and without an error all of them are; after one a prefix is |
| Mman.Mapper.CoalesceAround | libc-bottom-half/mman/mman.c:158-172 | abutting free regions are merged unless an entry goes up to 2^32; no address changes its owner in any case |
| Mman.Mapper.AcquirePages | libc-bottom-half/mman/mman.c:180-230 | first fit, else new memory; pages come zeroed and were not live, at most one entry is added, and nothing else changes |
| MmanTable.TakeOwner | libc-bottom-half/mman/mman.c:182-205 | taking the front of a free region changes the owner of these pages only |
| MmanTable.UnmapAllOwner | libc-bottom-half/mman/mman.c:237-320 | cutting each entry at the range refines the page map: live pages of the range become free, every other address keeps its owner, file offset and backing |
| MmanTable.UnmapAllSize | libc-bottom-half/mman/mman.c:237-320 | the number of entries grows by the number of entries cut at the two ends |
| MmanTable.CutsAtMostOne | libc-bottom-half/mman/mman.c:237-320 | at most one entry is cut at a point |
| MmanTable.UnmapAllResult | libc-bottom-half/mman/mman.c:237-320 | the table stays sorted and page aligned, keeps or lacks an entry up to 2^32, and without one free regions can meet only in or beside the range |
| MmanTable.LastPage | libc-bottom-half/mman/mman.c:84-94 | an entry goes up to 2^32 if and only if the last page has an owner |
| Mman.TwoSlots | libc-bottom-half/mman/mman.c:232-237 | two spare slots are enough for any range |
| MmanRefs.UnmapFrefs | libc-bottom-half/mman/mman.c:256-317 | the counts follow the pieces into which an entry falls |
| MmanRefs.SpliceFrefs | libc-bottom-half/mman/mman.c:256-317 | replacing an entry by fragments keeps every count equal to the number of entries |
| MmanRefs.Mentioned | libc-bottom-half/mman/mman.c:43-49 | a reference exists if and only if some entry of the table mentions it |
| MmanRefs.UnmapNoRefs | libc-bottom-half/mman/mman.c:237-320 | a reference that no entry mentions is mentioned by no piece after unmapping |
| Mman.Mapper.UnmapWhole | libc-bottom-half/mman/mman.c:256-263 | a region wholly in the range becomes free and gives up its reference |
| Mman.Mapper.UnmapHead | libc-bottom-half/mman/mman.c:264-279 | the tail survives with its file offset and backing |
| Mman.Mapper.UnmapTail | libc-bottom-half/mman/mman.c:280-292 | the head survives with its backing |
| Mman.Mapper.UnmapMiddle | libc-bottom-half/mman/mman.c:293-317 | head and tail survive and share the reference, counted twice |
| Mman.Mapper.UnmapRange | libc-bottom-half/mman/mman.c:237-320 | for any table and range, by 32-bit ends: does to the page map exactly what `Cleared` says (nothing if the search misses, an entry up to 2^32 as a whole), and stays within capacity; exactly the references no longer in the table go, their descriptors and no others are closed; each count is that of the table; without an I/O error shared writable pages are written back before they go, and with errors each entry has a prefix written |
| MmanSync.FlushedByte | libc-bottom-half/mman/mman.c:133-155 | a file byte that one address alone backs ends up with what memory holds there |
| MmanSync.FlushOthers | libc-bottom-half/mman/mman.c:133-155 | a file byte that nothing in the range backs is left alone |
| MmanSync.FlushNext | libc-bottom-half/mman/mman.c:506-516 | writing back entry by entry is writing back the whole range |
| MmanSync.BacksExactly | libc-bottom-half/mman/mman.c:133-138 | an entry below 2^32 is written back exactly as far as the file backs it within the range, if it has a reference and is writable; of an entry up to 2^32 nothing is |
| MmanSync.PartialBytes | libc-bottom-half/mman/mman.c:140-153 | whatever fails, a file byte is what it was or what memory holds at an address that backs it |
| MmanSync.PrivateStores | libc-bottom-half/mman/mman.c:133-155 | noninterference: what is stored where no entry has a reference makes no difference to any file, whatever range is written back |
| MmanSync.PrivatePartial | libc-bottom-half/mman/mman.c:133-155 | the same when writes fail, wherever they do |
| MmanSync.SharedStore | libc-bottom-half/mman/mman.c:133-155 | writing a whole mapping back after a store into it is one write to the file, at the place of the store and as far as the file goes |
| Mman.Mapper.Populate | libc-bottom-half/mman/mman.c:399-427 | under any short reads the mapping holds the bytes of the file up to its end or that of the mapping |
| Mman.Mapper.Abandon | libc-bottom-half/mman/mman.c:411-416 | a mapping that cannot be completed is undone, and live pages keep their owner, if the search finds it; else its pages stay live and nothing else changes; contents, references and descriptors are as before in either case |
| Mman.WholeEntry | libc-bottom-half/mman/mman.c:411-416 | unmapping exactly one entry cuts none, and misses it if and only if the search for its start finds nothing |
| Mman.Mapper.Attach | libc-bottom-half/mman/mman.c:429-443 | a shared writable mapping gets a descriptor of its own with one reference |
| Mman.Mapper.MapFile | libc-bottom-half/mman/mman.c:399-443 | fills the entry from the file and attaches a reference if and only if `MAP_SHARED` and `PROT_WRITE` are set, or gives the mapping up as `Abandon` does, without a trace in references and descriptors; it succeeds if reads, malloc and dup do |
| Mman.Mapper.MapPages | libc-bottom-half/mman/mman.c:388-447 | the mapping shows file bytes and then zeros, on pages that were not live, at the first fit or else at the end memory has when pages are acquired, and changes nothing else; it has a reference if and only if it maps a file and `MAP_SHARED` and `PROT_WRITE` are set; it succeeds if the pool fits or the system grants pages, and the file can be read and duplicated; a failed call keeps live pages, contents, references and descriptors, and brings no page to life unless an entry goes up to 2^32 or the new one would have, and then its pages stay live |
| Mman.Mapper.Mmap | libc-bottom-half/mman/mman.c:322-448 | as `MapPages`, also that a reference exists if and only if the mapping is not anonymous and its flags and prot have `MAP_SHARED` and `PROT_WRITE`, with the exact set of accepted arguments and the errno of refused ones; refused arguments change nothing; it aborts if and only if no free region fits and the rounded length is beyond `PTRDIFF_MAX` |
| Mman.AbortsOn | libc-bottom-half/mman/mman.c:365-386 | a length and flags that are accepted and, with an empty table, abort |
| Mman.Mapper.Munmap | libc-bottom-half/mman/mman.c:450-471 | EINVAL if and only if the arguments are unaligned, empty or wrap, ENOMEM if and only if the table cannot grow; else, while no entry goes up to 2^32, refines the page map of the range, and in any table does exactly what `Cleared` says; closes exactly the descriptors whose last page went; without an I/O error writes shared writable pages back, and with one a prefix of each entry |
| Mman.Mapper.Covered | libc-bottom-half/mman/mman.c:492-504 | the cursor loop tells whether every address of the range is live and the cursor gets past it (`Seen`): no entry goes up to 2^32, or the search finds the start and the range ends before that entry |
| Mman.Mapper.SyncAll | libc-bottom-half/mman/mman.c:506-516 | every shared writable entry in the range is written back; after an I/O error a prefix of each is |
| Mman.Mapper.Msync | libc-bottom-half/mman/mman.c:473-519 | EINVAL exactly for bad arguments; ENOMEM exactly for ranges that wrap or are not wholly live or not `Seen`, so exactly for uncovered ones while no entry goes up to 2^32; success writes the whole range back, an I/O error a prefix of each entry |
| Mman.Mapper.StoreThrough | libc-bottom-half/mman/mman.c:322-519 | a program maps, stores and then unmaps or syncs: without `MAP_SHARED` or without `PROT_WRITE` no file changes, whatever fails; for a shared writable file mapping the file ends up as by one write of the stored bytes at their offset, cut off where the file ends, if the call succeeds and, for munmap, no write fails and the search does not miss the mapping |
| Mman.Mapper.OthersGrow | libc-bottom-half/sources/sbrk.c:7-32 | growth of memory by others between two calls keeps the table valid |
| MmanFiles.Files.PWrite | libc-bottom-half/mman/mman.c:140-151 | the oracle moves a non-empty prefix to its offset, or fails, or is interrupted |
| MmanFiles.WriteMore | libc-bottom-half/mman/mman.c:137-153 | consecutive writes make up one |
| ChaCha20.QuarterRoundAt | libc-top-half/sources/arc4random.c:14-22 | a quarter round in place |
| ChaCha20.RoundsInPlace | libc-top-half/sources/arc4random.c:24-38 | the in-place rounds are ten double rounds (`Rounds`), whose meaning `DoubleRoundMeans` and the fixed blocks give |
| ChaCha20.Update | libc-top-half/sources/arc4random.c:40-52 | one block is put out, the sum of the state and its permuted form as little-endian bytes, and the state is left permuted with its counter one up; `ZeroBlock` and `SecondBlock` are two of its blocks |
| ChaCha20.WordBytes | libc-top-half/sources/arc4random.c:54-60 | the word read at i has the bytes b[i] to b[i + 3], lowest first |
| ChaCha20.BytesWord | libc-top-half/sources/arc4random.c:40-52 | reading the four bytes of a word gives the word back |
| ChaChaVectors.QuarterRoundVector | libc-top-half/sources/arc4random.c:14-22 | the quarter round meets the values of section 2.1.1 of RFC 8439 |
| ChaChaVectors.DoubleRoundMeans | libc-top-half/sources/arc4random.c:24-38 | for any state, a double round is a quarter round on each column of the 4 by 4 state and then one on each diagonal |
| ChaChaVectors.ZeroBlock | libc-top-half/sources/arc4random.c:40-52 | the block of the all-zero key, nonce and counter is that of appendix A.1 of RFC 8439 |
| ChaChaVectors.SecondBlock | libc-top-half/sources/arc4random.c:40-52 | the next block of the same key, from the permuted state, byte by byte |
| ChaCha20.Init | libc-top-half/sources/arc4random.c:54-60 | the initial state holds the constants, the key and zeros |
| ChaCha20.BlocksAppend | libc-top-half/sources/arc4random.c:62-82 | output of whole blocks followed by more is one longer output |
| ChaCha20.Rng | libc-top-half/sources/arc4random.c:62-82 | the output is the key stream of the old key, and the key becomes output that is never handed out |
| ChaChaVectors.ZeroKeyNext | libc-top-half/sources/arc4random.c:62-82 | the key that follows the all-zero key, byte by byte |
| ChaChaVectors.DrawnFirst | libc-top-half/sources/arc4random.c:91-132 | the first 64 bytes that the all-zero key delivers, byte by byte |
| RandomStream.DrawReadsStream | libc-top-half/sources/arc4random.c:91-132 | a draw delivers the next bytes of one infinite stream and leaves those after them |
| RandomStream.DrawTwice | libc-top-half/sources/arc4random.c:91-132 | n bytes and then m bytes are n + m bytes, and leave the same state |
| RandomStream.RunReadsStream | libc-top-half/sources/arc4random.c:91-132 | over any run of requests, every byte handed out is the stream byte at its place in the run |
| RandomStream.DrawRefilled | libc-top-half/sources/arc4random.c:110-121 | refilling early makes no difference |
| Arc4Random.RngState.Initialize | libc-top-half/sources/arc4random.c:100-106 | the first use takes the key from getentropy with an empty reserve, and keeps the zero key if that fails; later uses change nothing |
| Arc4Random.RngState.WithoutEntropy | libc-top-half/sources/arc4random.c:100-106 | wherever getentropy fails, the generator delivers the same bytes: those of the all-zero key |
| Arc4Random.RngState.WholeBlocks | libc-top-half/sources/arc4random.c:110-115 | whole blocks go straight into the buffer |
| Arc4Random.RngState.TakeReserve | libc-top-half/sources/arc4random.c:122-129 | bytes leave the reserve and are replaced by zeros |
| Arc4Random.RngState.Buf | libc-top-half/sources/arc4random.c:91-132 | the buffer gets exactly the drawn bytes, nothing beyond them is written, and the consumed part of the reserve stays zero |
| Arc4Random.RngState.Next | libc-top-half/sources/arc4random.c:134-141 | a word is the next four bytes of the stream |
| UniformRandom.RejectedOk | libc-top-half/sources/arc4random.c:151-154 | `min` is 2^32 mod the bound, and less than half of all draws |
| UniformRandom.Uniform | libc-top-half/sources/arc4random.c:143-160 | works on the generator itself: the value returned is the last word drawn, modulo the bound, and that word is the first of the stream that is not below `min`; the generator has moved past exactly the words drawn; bounds below 2 give 0 without a draw |
| UniformRandom.FirstAccepted | libc-top-half/sources/arc4random.c:152-154 | the loop stops at the first stream word not below `min`; all before it are below |
| UniformRandom.NextWord | libc-top-half/sources/arc4random.c:134-141 | the i-th call returns the i-th word of the stream |
| UniformRandom.ResidueCount | libc-top-half/sources/arc4random.c:143-160 | q whole periods contain each residue q times |
| UniformRandom.UniformIsExact | libc-top-half/sources/arc4random.c:143-160 | whatever the state, the call returns c if and only if the word it settles on is one of `WordsFor` c, and these are exactly (2^32 - min)/bound words for every c below the bound; more than half of all draws are accepted |

## Left out

- Locks and threads: every public call is one step. The thread-local state of the generator is one object.
- dlmalloc's mmapped chunks, mspaces, footers, trimming, statistics, footprint limit, bulk operations and `prepend_alloc`: not in this build, or never reached (`SegmentStartingAt`).
- dlmalloc's corruption checks (`RTCHECK`, `ABORT`): the conditions they test follow from `Valid()`.
- DlMalloc.Malloc.SysAlloc: giving memory back with a negative increment is `trapped`, since this `sbrk` aborts on it; the model says nothing about the process after that.
- DlMalloc.Malloc.Realloc: the bytes that memcpy moves are not modelled, only their number; heads, feet and links of dlmalloc are kept in maps apart from payloads, so writing through a payload is not modelled there.
- DlChunk.FieldsOfWord: head words in the heap are records of size and flags; that the record is what the word encodes is stated for single words only.
- EmMalloc.Emmalloc.AllocateMemory: `Safe` is exact for each single attempt and each claim. For a whole call it is one way in one case: the scan accepts nothing, yet some free region would be accepted. Which of these is met first then depends on the order of the lists, on the bounded walk, and, since a claim makes no allowance for alignment and may have to be repeated, on every list the repeated scans turn. After `Overrun` the model says nothing about the state; 2^31 bytes or more to claim are `Trapped`, since this `sbrk` aborts on them.
- EmMalloc.Emmalloc.AlignedAlloc: division by an alignment of zero is `Trapped`, as in WebAssembly.
- EmMalloc.Emmalloc.Copy: memory is modelled by words at word addresses; a payload's bytes within a word are not told apart.
- emmalloc's calloc, whose product may overflow, and the code under `#if 0`, verbose logging, tracing and validation.
- Mman.Mapper.Mmap: the hint address is ignored as in the source; nothing is said after `Aborted` beyond what the contract states; the errno of a failed read, dup or allocation is not compared with that of the call beneath it.
- Mman.Mapper.Writeback: file offsets are unbounded, so overflow of `off_t` is not modelled; a script of outcomes is finite, so interruptions are too, and a write that is not interrupted moves at least a byte.
- Errno values of failed calls other than those stated.
- Arc4Random.RngState.Buf: what getentropy does is a parameter; one that fails is taken to leave the key alone.
- No claim is made that the generator is unpredictable, nor that it agrees with the key stream of RFC 8439 beyond the first block.
- UniformRandom.Uniform: the loop makes at most `limit` draws, a bound of the caller's choice, and says so if all of them are rejected; it ends for every limit beyond the first accepted word of the stream. The seed stands for what getentropy gives on first use.
- DlMalloc.Malloc.Memalign: this is `internal_memalign`; `dlmemalign` calls it beyond alignment 16 and `dlmalloc` else, and `dlposix_memalign` after checking that the alignment is a power of two and not too large for the size.
- dlmalloc's calloc, which checks its product for overflow and clears the chunk, and wrappers that only forward.
- Path lookup (preopens), crt files, generated syscall wrappers, signal stubs and math builtins: forwarding or declarations.
