/** emmalloc: a boundary-tag allocator that keeps sizes, links and records in one flat memory. */
module EmMalloc {
  import opened Words
  import opened Alignment
  import opened Sbrk
  import opened Pages
  import opened EmBuckets
  import opened EmLists
  import opened EmFreeLists
  import opened EmShape
  import opened EmHeap
  import opened EmSpans
  import opened EmGrowth
  import opened EmResize
  import opened EmScan

  const FREE_REGION_FLAG: nat := 1

  /* DECODE_CEILING_SIZE: `size & ~FREE_REGION_FLAG` */
  function DecodeCeilingSize(size: nat): nat { AndNot(size, FREE_REGION_FLAG) }

  /* `size | FREE_REGION_FLAG` */
  function EncodeFree(size: nat): nat { Or(size, FREE_REGION_FLAG) }

  lemma LowOr(x: nat)
    requires x % 2 == 0
    ensures Or(x, 1) == x + 1
  {
    assert Or(x / 2, 0) == x / 2;
  }

  lemma LowAndNot(x: nat)
    ensures AndNot(x, 1) == x - x % 2
  {
    assert AndNot(x / 2, 0) == x / 2;
  }

  lemma Encoding(size: nat)
    requires Quad(size)
    ensures EncodeFree(size) == size + 1
    ensures DecodeCeilingSize(size) == size && DecodeCeilingSize(size + 1) == size
    ensures size % 2 == 0 && (size + 1) % 2 == 1
  {
    LowOr(size);
    LowAndNot(size);
    LowAndNot(size + 1);
    hide Or; hide AndNot;
  }

  /* freeRegionBuckets as initialized: every sentinel is linked to itself. */
  function EmptyLists(bk: nat): Mem {
    map a: nat | bk <= a < bk + HEADS_SIZE :: SelfLink(bk, a)
  }

  function SelfLink(bk: nat, a: nat): nat
    requires bk <= a
  {
    bk + (a - bk) / 16 * 16
  }

  lemma EmptyListsOk(bk: nat, rings: RingMap)
    requires rings == map b: nat | b < NUM_FREE_BUCKETS :: [Head(bk, b)]
    ensures ListsOk(rings, map[], bk) && LinksOk(EmptyLists(bk), rings) && MaskOk(0, rings)
  {
    var m := EmptyLists(bk);
    forall b | b in rings ensures Ring(m, rings[b]) && BucketOk(rings, map[], bk, b) { EmptyList(bk, b); }
  }

  lemma EmptyList(bk: nat, b: nat)
    requires b < NUM_FREE_BUCKETS
    ensures Ring(EmptyLists(bk), [Head(bk, b)])
  {
    SelfLinks(bk, b);
    hide SelfLink;
    var m, h := EmptyLists(bk), Head(bk, b);
    assert Word(m, h + 4) == SelfLink(bk, h + 4) && Word(m, h + 8) == SelfLink(bk, h + 8);
  }

  lemma SelfLinks(bk: nat, b: nat)
    ensures SelfLink(bk, Head(bk, b) + 4) == Head(bk, b) && SelfLink(bk, Head(bk, b) + 8) == Head(bk, b)
  {
    Sixteenth(b);
  }

  lemma Sixteenth(b: nat)
    ensures (16 * b + 4) / 16 == b && (16 * b + 8) / 16 == b
  {}

  /** How a call ends: it returns, sbrk aborts on a negative increment, or a sum has wrapped and the code goes on
      as if there were room.  Then it writes outside the memory that it may use, or, where an attempt needs no
      padding, hands out the whole region with a payload that is too small for the request. */
  datatype Fate = Returned | Trapped | Overrun

  class Emmalloc {
    const memory: LinearMemory
    /* freeRegionBuckets and __heap_base */
    const buckets: nat
    const heapBase: nat
    /* The end of memory when the program starts. */
    const initialEnd: nat

    var mem: Mem
    var listOfAllRegions: nat
    var freeRegionBucketsUsed: nat

    ghost var shape: Shape
    ghost var rings: RingMap
    ghost var loose: set<nat>
    ghost var blocks: seq<Block>

    /* The static initializers: 64 empty lists, and no memory yet. */
    constructor (memory: LinearMemory, buckets: nat, heapBase: nat)
      requires memory.Valid() && Quad(heapBase) && buckets + HEADS_SIZE <= heapBase <= memory.size
      ensures Valid() && Live() == map[] && blocks == [] && this.memory == memory && this.buckets == buckets
          && this.heapBase == heapBase && initialEnd == memory.size
    {
      this.memory, this.buckets, this.heapBase, initialEnd := memory, buckets, heapBase, memory.size;
      mem := EmptyLists(buckets);
      listOfAllRegions, freeRegionBucketsUsed := 0, 0;
      shape, loose, blocks := map[], {}, [];
      rings := map b: nat | b < NUM_FREE_BUCKETS :: [Head(buckets, b)];
      new;
      EmptyListsOk(buckets, rings);
    }

    ghost function View(): Heap reads this { Heap(mem, shape, rings, loose, freeRegionBucketsUsed, blocks) }

    ghost function Limits(): Bounds reads memory { Bounds(buckets, heapBase, memory.size) }

    ghost predicate ListsValid() reads this, memory { memory.Valid() && ListPart(View(), Limits()) }

    ghost predicate RootsValid() reads this {
      listOfAllRegions == (if blocks == [] then 0 else blocks[0].start) && (blocks == [] <==> shape == map[])
    }

    ghost predicate Valid() reads this, memory {
      && memory.Valid() && Quad(heapBase) && heapBase <= initialEnd <= memory.size
      && HeapOk(View(), Limits()) && loose == {} && RootsValid()
    }

    /* The allocations, with the sizes of their regions. */
    ghost function Live(): map<nat, nat> reads this { LiveOf(shape) }

    /* ---- regions in memory ---- */

    function PrevRegion(region: nat): int reads this {
      region - DecodeCeilingSize(Word(mem, if region >= 4 then region - 4 else 0))
    }

    function NextRegion(region: nat): nat reads this { region + Word(mem, region) }

    function CeilingSize(region: nat): nat reads this {
      var end := region + Word(mem, region);
      if end >= 4 then Word(mem, end - 4) else 0
    }

    /* region_is_free */
    predicate RegionIsFree(region: nat) reads this { CeilingSize(region) % 2 == 1 }

    /* create_used_region */
    method CreateUsedRegion(ptr: nat, size: nat)
      requires size >= REGION_SIZE
      modifies `mem
      ensures mem == old(mem)[ptr := size][ptr + size - 4 := size]
    {
      mem := mem[ptr := size];
      mem := mem[ptr + size - 4 := size];
    }

    /* create_free_region */
    method CreateFreeRegion(ptr: nat, size: nat)
      requires size >= REGION_SIZE && Quad(size)
      modifies `mem
      ensures mem == old(mem)[ptr := size][ptr + size - 4 := size + 1]
    {
      Encoding(size);
      mem := mem[ptr := size];
      mem := mem[ptr + size - 4 := EncodeFree(size)];
    }

    /* ---- free lists ---- */

    /* What a list operation leaves. */
    ghost predicate Stepped(before: Heap) reads this, memory {
      ListsValid() && ListStep(before, View())
    }

    /* unlink_from_free_list */
    method UnlinkFromFreeList(region: nat) returns (ghost b: nat, ghost k: nat)
      requires ListsValid() && region in ListedOf(shape, loose)
      modifies `mem, `rings, `loose
      ensures Stepped(old(View())) && loose == old(loose) + {region}
          && OnlyLinks(old(mem), mem, old(ListedOf(shape, loose)), buckets)
      ensures b in old(rings) && 0 < k < |old(rings)[b]| && old(rings)[b][k] == region
          && rings == Drop(old(rings), b, k)
      ensures 16 <= shape[region].size < W32 && b == BucketOf(shape[region].size)
    {
      hide ListPart; hide ListStep;
      ghost var h := View();
      b, k := TakeOutOk(h, Limits(), region);
      var g, f := Word(mem, region + 4), Word(mem, region + 8);
      mem := mem[g + 8 := f];
      mem := mem[f + 4 := g];
      rings, loose := Drop(rings, b, k), loose + {region};
      assert View() == TakeOut(h, region, b, k);
    }

    /* link_to_free_list */
    method LinkToFreeList(region: nat)
      requires ListsValid() && region in loose && region in shape && Word(mem, region) == shape[region].size
      modifies `mem, `rings, `loose, `freeRegionBucketsUsed
      ensures Stepped(old(View())) && loose == old(loose) - {region} && Foremost(View(), region)
    {
      hide ListPart; hide ListStep; hide Pow2; hide Bucket; hide Or;
      ghost var h := View();
      ghost var b := LinkInOk(h, Limits(), region);
      LooseNew(h, Limits(), region);
      var bucketIndex := Bucket(Word(mem, region) - REGION_HEADER_SIZE);
      var head := Head(buckets, bucketIndex);
      mem := mem[region + 4 := head];
      mem := mem[region + 8 := Word(mem, head + 8)];
      mem := mem[head + 8 := region];
      mem := mem[Word(mem, region + 8) + 4 := region];
      freeRegionBucketsUsed := Or(freeRegionBucketsUsed, Pow2(bucketIndex));
      rings, loose := AddFirst(rings, b, region), loose - {region};
      assert View() == LinkIn(h, Limits(), region, b);
    }

    /* The same on a whole heap. */
    method UnlinkWhole(region: nat)
      requires memory.Valid() && HeapOk(View(), Limits()) && region in ListedOf(shape, loose)
      modifies `mem, `rings, `loose
      ensures HeapOk(View(), Limits()) && loose == old(loose) + {region} && OthersKept(shape, shape, old(mem), mem, 0)
      ensures Word(mem, region) == old(Word(mem, region))
    {
      hide ListPart; hide ListStep; hide MarksPart; hide BlocksPart;
      ghost var h := View();
      ghost var b, k := UnlinkFromFreeList(region);
      StepWhole(h, View(), Limits());
      StepKeepsOthers(h, View(), 0);
      SizeWord(h, region);
      SizeWord(View(), region);
    }

    method LinkWhole(region: nat)
      requires memory.Valid() && HeapOk(View(), Limits()) && region in loose
      modifies `mem, `rings, `loose, `freeRegionBucketsUsed
      ensures HeapOk(View(), Limits()) && loose == old(loose) - {region} && OthersKept(shape, shape, old(mem), mem, 0)
          && Foremost(View(), region)
    {
      hide ListStep; hide BlocksPart;
      ghost var h := View();
      assert ListPart(h, Limits());
      SizeWord(h, region);
      hide ListPart; hide MarksPart;
      LinkToFreeList(region);
      StepWhole(h, View(), Limits());
      StepKeepsOthers(h, View(), 0);
    }

    /* prepend_to_free_list: region goes to the end of the list of its bucket. */
    method PrependToFreeList(region: nat, b: nat)
      requires ListsValid() && region in loose && region in shape && b in rings && b < 64
          && Bit(freeRegionBucketsUsed, b)
      requires 8 <= shape[region].size < W32 && BucketOf(shape[region].size) == b
      modifies `mem, `rings, `loose
      ensures Stepped(old(View())) && loose == old(loose) - {region} && b in old(rings)
          && rings == old(rings)[b := old(rings)[b] + [region]]
    {
      hide ListStep; hide ListedOf; hide BucketOf;
      ghost var h := View();
      PutBackOk(h, Limits(), region, b);
      LooseNew(h, Limits(), region);
      hide ListPart;
      var prependTo := Head(buckets, b);
      mem := mem[region + 8 := prependTo];
      mem := mem[region + 4 := Word(mem, prependTo + 4)];
      mem := mem[prependTo + 4 := region];
      mem := mem[Word(mem, region + 4) + 8 := region];
      rings, loose := AddLast(rings, b, region), loose - {region};
      assert View() == PutBack(h, Limits(), region, b);
    }

    /* ---- free ---- */

    /* emmalloc_free */
    method Free(ptr: nat)
      requires Valid() && (ptr == 0 || (ptr >= 4 && ptr - 4 in Live()))
      modifies `mem, `freeRegionBucketsUsed, `shape, `rings, `loose
      ensures Valid() && Live() == if ptr == 0 then old(Live()) else old(Live()) - {ptr - 4}
      ensures ptr != 0 ==> OthersKept(old(shape), shape, old(mem), mem, ptr - 4)
      ensures ptr == 0 ==> mem == old(mem) && shape == old(shape)
      ensures ptr != 0 ==> ptr - 4 in old(shape) && Foremost(View(), FreeStart(old(shape), ptr - 4))
    {
      hide ListPart; hide MarksPart; hide BlocksPart; hide OthersKept; hide InUse;
      assert ptr != 0 ==> ptr - 4 in shape && shape[ptr - 4].kind == Used;
      hide LiveOf;
      if ptr == 0 { return; }
      var region := ptr - 4;
      ghost var h := View();
      HeapShape(h, Limits());
      Fields(h, Limits(), region);
      var start, size := MergeLeft(region);
      ghost var h1 := View();
      size := MergeRight(region, size);
      ghost var h2 := View();
      OthersTwice(h.shape, h.shape, shape, h.mem, h1.mem, mem, region);
      PlaceFree(region, start, size);
      OthersTwice(h.shape, h.shape, shape, h.mem, h2.mem, mem, region);
    }

    /* create_free_region and link_to_free_list, over region and its free neighbours, which are on no list any more. */
    method PlaceFree(ghost region: nat, start: nat, size: nat)
      requires memory.Valid() && Quad(heapBase) && heapBase <= initialEnd <= memory.size && HeapOk(View(), Limits())
          && RootsValid() && region in shape && shape[region].kind == Used
      requires loose == (if FreeAt(shape, shape[region].prev) then {shape[region].prev} else {})
          + (if FreeAt(shape, End(shape, region)) then {End(shape, region)} else {})
      requires start == FreeStart(shape, region) && start + size == FreeEnd(shape, region)
      modifies `mem, `freeRegionBucketsUsed, `shape, `rings, `loose
      ensures Valid() && Live() == old(Live()) - {region} && OthersKept(old(shape), shape, old(mem), mem, region)
      ensures Foremost(View(), start)
    {
      hide ListPart; hide MarksPart; hide BlocksPart; hide OthersKept; hide InUse; hide LiveOf;
      ghost var h := View();
      HeapShape(h, Limits());
      ghost var s' := FreeShape(shape, region);
      FreedSize(shape, s', region);
      hide IsFreed;
      CreateFreeRegion(start, size);
      shape, loose := s', {start};
      FreedHeap(h, View(), Limits(), region);
      ghost var h3 := View();
      HeapShape(h3, Limits());
      LinkWhole(start);
      OthersAny(h3.shape, shape, h3.mem, mem, region);
      OthersTwice(h.shape, h3.shape, shape, h.mem, h3.mem, mem, region);
    }

    /* Merging with the left side: the free region before is unlinked. */
    method MergeLeft(region: nat) returns (start: nat, size: nat)
      requires memory.Valid() && HeapOk(View(), Limits()) && loose == {} && region in shape
          && shape[region].kind == Used
      modifies `mem, `rings, `loose
      ensures HeapOk(View(), Limits())
          && loose == (if FreeAt(shape, shape[region].prev) then {shape[region].prev} else {})
      ensures start == FreeStart(shape, region) && size == End(shape, region) - start && start <= region
      ensures OthersKept(shape, shape, old(mem), mem, region)
    {
      hide ListPart; hide MarksPart; hide BlocksPart; hide OthersKept; hide InUse;
      ghost var h := View();
      Fields(h, Limits(), region);
      HeapShape(h, Limits());
      OthersSame(shape, mem, region);
      Encoding(shape[shape[region].prev].size);
      NothingLoose(h);
      start, size := region, Word(mem, region);
      var prevRegionSizeField := Word(mem, region - 4);
      var prevRegionSize := DecodeCeilingSize(prevRegionSizeField);
      if prevRegionSizeField != prevRegionSize {
        start := region - prevRegionSize;
        UnlinkWhole(start);
        OthersAny(h.shape, shape, h.mem, mem, region);
        size := size + prevRegionSize;
      }
    }

    /* Merging with the right side. */
    method MergeRight(region: nat, size0: nat) returns (size: nat)
      requires memory.Valid() && HeapOk(View(), Limits()) && region in shape && shape[region].kind == Used
          && End(shape, region) !in loose
      modifies `mem, `rings, `loose
      ensures HeapOk(View(), Limits())
          && loose == old(loose) + (if FreeAt(shape, End(shape, region)) then {End(shape, region)} else {})
      ensures size == size0 + FreeEnd(shape, region) - End(shape, region)
      ensures OthersKept(shape, shape, old(mem), mem, region)
    {
      hide ListPart; hide MarksPart; hide BlocksPart; hide OthersKept; hide InUse;
      ghost var h := View();
      Fields(h, Limits(), region);
      HeapShape(h, Limits());
      OthersSame(shape, mem, region);
      size := size0;
      var nextRegion := NextRegion(region);
      var sizeAtEnd := Word(mem, nextRegion + Word(mem, nextRegion) - 4);
      if Word(mem, nextRegion) != sizeAtEnd {
        UnlinkWhole(nextRegion);
        OthersAny(h.shape, shape, h.mem, mem, region);
        size := size + Word(mem, nextRegion);
      }
    }

    /* ---- claiming memory ---- */

    /* The words of a new block. */
    method WriteBlock(start: nat, end: nat)
      requires end >= start + 3 * REGION_SIZE && Quad(end - REGION_SIZE - (start + REGION_SIZE))
      modifies `mem, `listOfAllRegions
      ensures mem == BlockMem(old(mem), start, end, old(listOfAllRegions)) && listOfAllRegions == start
    {
      var endSentinelRegion := end - REGION_SIZE;
      CreateUsedRegion(endSentinelRegion, REGION_SIZE);
      CreateUsedRegion(start, REGION_SIZE);
      mem := mem[start + 4 := listOfAllRegions];
      mem := mem[start + 8 := Address(end)];
      listOfAllRegions := start;
      CreateFreeRegion(start + REGION_SIZE, endSentinelRegion - (start + REGION_SIZE));
    }

    /* A new block. */
    method AddBlock(start: nat, end: nat, ghost limit: nat)
      requires memory.Valid() && Quad(heapBase) && heapBase <= initialEnd <= memory.size
          && HeapOk(View(), Bounds(buckets, heapBase, limit)) && loose == {} && RootsValid()
      requires CanAdd(shape, start, end) && heapBase <= start && limit <= end <= memory.size
      modifies this
      ensures Valid() && Live() == old(Live()) && OthersKept(old(shape), shape, old(mem), mem, 0)
      ensures blocks == [Block(start, end)] + old(blocks) && TopIs(shape, blocks, end, start + REGION_SIZE)
      ensures OnlyNewFree(old(shape), shape, start + REGION_SIZE) && Foremost(View(), start + REGION_SIZE)
    {
      hide ListPart; hide MarksPart; hide BlocksPart; hide OthersKept; hide InUse; hide LiveOf;
      ghost var h, w := View(), Bounds(buckets, heapBase, limit);
      ghost var s' := AddShape(shape, start, end);
      AddedSize(shape, s', start, end);
      WriteBlock(start, end);
      BlockWords(h, start, end, s');
      shape, loose, blocks := s', {start + REGION_SIZE}, [Block(start, end)] + blocks;
      AddedHeap(h, View(), w, Limits(), start, end);
      ghost var h3 := View();
      HeapShape(h3, Limits());
      LinkWhole(start + REGION_SIZE);
      OthersAny(h3.shape, shape, h3.mem, mem, 0);
      OthersTwice(h.shape, h3.shape, shape, h.mem, h3.mem, mem, 0);
      AddedFree(h.shape, s', start, end);
    }

    /* The newest block ends where the new memory starts: the region before its end sentinel takes up the
       new memory if it is free, and else the sentinel itself does. */
    method ExtendBlock(start: nat, end: nat)
      requires memory.Valid() && Quad(heapBase) && heapBase <= initialEnd <= memory.size
          && HeapOk(View(), Bounds(buckets, heapBase, start)) && loose == {} && RootsValid()
      requires blocks != [] && blocks[0].end == start >= REGION_SIZE && Quad(end)
          && start + REGION_SIZE <= end <= memory.size
      modifies this
      ensures Valid() && Live() == old(Live()) && PayloadsKept(old(shape), shape, old(mem), mem, 0)
      ensures blocks == old(blocks)[0 := Block(old(blocks)[0].start, end)]
      ensures start - REGION_SIZE in old(shape)
      ensures var lo := ExtendStart(old(shape), start - REGION_SIZE);
          TopIs(shape, blocks, end, lo) && OnlyNewFree(old(shape), shape, lo) && Foremost(View(), lo)
    {
      hide HeapOk; hide OthersKept; hide LiveOf; hide PayloadsKept; hide OnlyNewFree; hide Foremost; hide TopIs;
      ghost var h, r := View(), blocks[0].start;
      var newFree := LengthenLast(start, end);
      ghost var h2 := View();
      HeapShape(h2, Limits());
      LinkWhole(newFree);
      OthersAny(h2.shape, shape, h2.mem, mem, r);
      OthersTwice(h.shape, h2.shape, shape, h.mem, h2.mem, mem, r);
      RootNotLive(h.shape, r);
      PayloadsFrom(h.shape, shape, h.mem, mem, 0, r);
    }

    /* The part before the free region at the end of the longer block is put on its list. */
    method LengthenLast(start: nat, end: nat) returns (newFree: nat)
      requires memory.Valid() && Quad(heapBase) && heapBase <= initialEnd <= memory.size
          && HeapOk(View(), Bounds(buckets, heapBase, start)) && loose == {} && RootsValid()
      requires blocks != [] && blocks[0].end == start >= REGION_SIZE && Quad(end)
          && start + REGION_SIZE <= end <= memory.size
      modifies this
      ensures HeapOk(View(), Limits()) && loose == {newFree} && RootsValid() && LiveOf(shape) == LiveOf(old(shape))
          && listOfAllRegions == old(listOfAllRegions)
      ensures blocks == old(blocks)[0 := Block(old(blocks)[0].start, end)]
      ensures start - REGION_SIZE in old(shape) && newFree == ExtendStart(old(shape), start - REGION_SIZE)
      ensures TopIs(shape, blocks, end, newFree) && OnlyNewFree(old(shape), shape, newFree)
      ensures var r := old(blocks[0]).start;
          OthersKept(old(shape), shape, old(mem), mem, r) && r in old(shape) && old(shape[r]).kind == Root
    {
      hide ListPart; hide MarksPart; hide BlocksPart; hide OthersKept; hide LiveOf; hide IsExtended; hide OnlyNewFree;
      hide ListStep; hide ExtendWords; hide Quad;
      ghost var h, w := View(), Bounds(buckets, heapBase, start);
      ghost var t: nat, r := start - REGION_SIZE, blocks[0].start;
      SentinelFields(h, w, t);
      ghost var s' := ExtendShape(shape, t, end);
      ExtendedSize(shape, s', t, end);
      ExtendedFree(shape, s', t, end);
      ghost var h0, h1;
      newFree, h0, h1 := LengthenWords(start, end);
      ExtendedWords(h1, mem, s', t, end);
      shape, loose, blocks := s', {newFree}, blocks[0 := Block(r, end)];
      ghost var h2 := View();
      ExtendedHeap(h1, h2, Limits(), Limits(), t, end);
      FinishExtend(h, h0, h1, h2, w, t, end, r);
    }

    /* The words: h0 is the heap once the new sentinel is there, h1 that with the last region off its list. */
    method LengthenWords(start: nat, end: nat) returns (newFree: nat, ghost h0: Heap, ghost h1: Heap)
      requires memory.Valid() && HeapOk(View(), Bounds(buckets, heapBase, start)) && loose == {} && RootsValid()
      requires blocks != [] && blocks[0].end == start >= REGION_SIZE && Quad(end)
          && start + REGION_SIZE <= end <= memory.size
      modifies `mem, `rings, `loose
      ensures h0.shape == h1.shape == shape && h1.blocks == blocks && ListStep(h0, h1) && ListPart(h1, Limits())
          && MarksPart(h1.mem, shape)
      ensures var t: nat, r := start - REGION_SIZE, blocks[0].start;
        && t in shape && h1.loose == (if FreeAt(shape, shape[t].prev) then {shape[t].prev} else {})
        && newFree == ExtendStart(shape, t)
        && OthersKept(shape, shape, old(mem), h0.mem, r) && Word(h0.mem, r + 4) == old(Word(mem, r + 4))
        && Word(h0.mem, r + 8) == Address(end)
      ensures var e := end - REGION_SIZE;
        && e >= newFree + REGION_SIZE && Word(h1.mem, e) == 16 && Word(h1.mem, e + 12) == 16
        && View() == h1.(mem := h1.mem[newFree := e - newFree][newFree + (e - newFree) - 4 := e - newFree + 1])
    {
      hide Address;
      hide MaskOk; hide ListPart; hide MarksPart; hide BlocksPart; hide OthersKept;
      ghost var h, w := View(), Bounds(buckets, heapBase, start);
      var e := end - REGION_SIZE;
      LastSentinel(h, w, start - REGION_SIZE);
      hide OnlyLinks; hide ShapeOk; hide InRange; hide ListStep;
      var prevEndSentinel, prevRegion := StartExtend(start, end);
      h0 := View();
      newFree := FreeLast(prevRegion, prevEndSentinel);
      h1 := View();
      BeyondAll(h, w, h0.mem, mem, e);
      BeyondAll(h, w, h0.mem, mem, e + 12);
      CreateFreeRegion(newFree, e - newFree);
    }

    /* The new sentinel and the new end of the block are written. */
    method StartExtend(start: nat, end: nat) returns (prevEndSentinel: nat, prevRegion: nat)
      requires memory.Valid() && HeapOk(View(), Bounds(buckets, heapBase, start)) && loose == {} && RootsValid()
      requires blocks != [] && blocks[0].end == start >= REGION_SIZE && Quad(end)
          && start + REGION_SIZE <= end <= memory.size
      modifies `mem
      ensures ListsValid() && MarksPart(mem, shape) && prevEndSentinel == start - REGION_SIZE
          && prevEndSentinel in shape && prevRegion == shape[prevEndSentinel].prev
      ensures var r, e := blocks[0].start, end - REGION_SIZE;
        && OthersKept(shape, shape, old(mem), mem, r) && Word(mem, r + 4) == old(Word(mem, r + 4))
        && Word(mem, r + 8) == Address(end) && Word(mem, e) == 16 && Word(mem, e + 12) == 16
    {
      hide ListPart; hide MarksPart; hide BlocksPart; hide OthersKept; hide InUse;
      ghost var h, w := View(), Bounds(buckets, heapBase, start);
      ghost var t: nat, r := start - REGION_SIZE, blocks[0].start;
      var e := end - REGION_SIZE;
      SentinelFields(h, w, t);
      ClaimWords(h, w, r, e, Address(end));
      CreateUsedRegion(e, REGION_SIZE);
      prevEndSentinel := PrevRegion(start);
      prevRegion := PrevRegion(prevEndSentinel);
      mem := mem[listOfAllRegions + 8 := Address(end)];
      WidenPart(View(), w, Limits());
    }

    /* The region before the old sentinel is taken off its list, if it is free. */
    method FreeLast(prevRegion: nat, prevEndSentinel: nat) returns (newFree: nat)
      requires ListsValid() && MarksPart(mem, shape) && loose == {} && prevEndSentinel in shape
          && shape[prevEndSentinel].kind == Sentinel && shape[prevEndSentinel].prev == prevRegion
      modifies `mem, `rings, `loose
      ensures ListsValid() && MarksPart(mem, shape) && ListStep(old(View()), View())
          && newFree == ExtendStart(shape, prevEndSentinel)
      ensures loose == if FreeAt(shape, prevRegion) then {prevRegion} else {}
      ensures OnlyLinks(old(mem), mem, ListedOf(shape, {}), buckets)
    {
      LastFields(View(), Limits(), prevEndSentinel);
      StepSame(View());
      NothingLoose(View());
      hide ListPart; hide ListStep; hide MarksPart;
      newFree := prevEndSentinel;
      if RegionIsFree(prevRegion) {
        ghost var h := View();
        ghost var b, k := UnlinkFromFreeList(prevRegion);
        StepMarks(h, View());
        newFree := prevRegion;
      }
    }

    /* The initial heap is still there, and large enough. */
    ghost predicate InitialSuffices(n: nat) reads `blocks, memory {
      blocks == [] && n + heapBase <= memory.size
    }

    /* n bytes can be claimed, when `granted` tells whether memory may grow. */
    ghost predicate CanClaim(n: nat, granted: bool) reads `blocks, memory {
      InitialSuffices(n) || (n <= PageCeil(n) < HALF_W32 && granted && memory.size + PageCeil(n) <= W32)
    }

    /* Where the free region that takes up claimed memory starts. */
    ghost function ClaimStart(n: nat): nat reads `blocks, `shape, memory {
      if InitialSuffices(n) then heapBase + REGION_SIZE
      else if blocks != [] && blocks[0].end == memory.size >= REGION_SIZE && memory.size - REGION_SIZE in shape
        then ExtendStart(shape, memory.size - REGION_SIZE)
      else memory.size + REGION_SIZE
    }

    /* Where claimed memory starts. */
    ghost function ClaimFrom(n: nat): nat reads this, memory { if InitialSuffices(n) then heapBase else memory.size }

    /* Memory that others have obtained from sbrk since the program started. */
    ghost predicate OthersOwn(a: nat) reads this, memory { initialEnd <= a < memory.size && !InBlocks(blocks, a) }

    /* A claim takes memory of others exactly if it is the first one, the initial heap is taken to reach to
       the end of memory, and others have made memory grow before. */
    lemma ClaimShares(n: nat)
      requires Valid()
      ensures (exists a: nat {:trigger OthersOwn(a)} ::
          OthersOwn(a) && ClaimFrom(n) <= a) <==> InitialSuffices(n) && initialEnd < memory.size
    {
      if InitialSuffices(n) && initialEnd < memory.size { assert OthersOwn(initialEnd) && ClaimFrom(n) <= initialEnd; }
    }

    /* A program that calls sbrk for a page before its first malloc: the page is its own. */
    static method PageBefore() returns (m: Emmalloc)
      ensures fresh(m) && m.Valid() && m.initialEnd == PAGESIZE && m.OthersOwn(PAGESIZE)
      ensures m.InitialSuffices(SMALLEST_ALLOCATION_SIZE + 3 * REGION_SIZE)
    {
      var memory := new LinearMemory(1);
      m := new Emmalloc(memory, 0, HEADS_SIZE);
      m.OthersGrow(1, true);
    }

    /* Its first malloc claims the page with the initial heap. */
    method SharedHeap(ghost page: nat)
      requires Valid() && OthersOwn(page) && InitialSuffices(SMALLEST_ALLOCATION_SIZE + 3 * REGION_SIZE)
      modifies this, memory
      ensures old(OthersOwn(page)) && InBlocks(blocks, page)
    {
      var success, fate := ClaimMoreMemory(SMALLEST_ALLOCATION_SIZE + 3 * REGION_SIZE, false);
    }

    /* claim_more_memory: the initial heap at first, if that is enough, and else what sbrk gives.  When the
       rounding wraps, nothing is obtained, and the new sentinel is written over whatever ends there. */
    method ClaimMoreMemory(numBytes0: nat, available: bool) returns (success: bool, fate: Fate)
      requires Valid() && SMALLEST_ALLOCATION_SIZE + 3 * REGION_SIZE <= numBytes0 < W32
      modifies this, memory
      ensures fate == Overrun <==> !old(InitialSuffices(numBytes0)) && PageCeil(numBytes0) < numBytes0
      ensures fate == Trapped <==> !old(InitialSuffices(numBytes0)) && PageCeil(numBytes0) >= HALF_W32
      ensures success <==> old(CanClaim(numBytes0, available))
      ensures success ==> fate == Returned
      ensures fate != Overrun ==> Valid() && Live() == old(Live()) && memory.size >= old(memory.size)
      ensures !success && fate != Overrun ==> View() == old(View()) && memory.size == old(memory.size)
      ensures !success && fate != Overrun ==>
          shape == old(shape) && rings == old(rings) && freeRegionBucketsUsed == old(freeRegionBucketsUsed)
          && blocks == old(blocks) && Refused(old(View()))
      ensures !success && fate != Overrun ==> !CanClaim(numBytes0, available)
      ensures success ==> PayloadsKept(old(shape), shape, old(mem), mem, 0) && blocks != []
      ensures success ==>
          memory.size >= old(memory.size) + PAGESIZE > old(memory.size)
          || (old(blocks) == [] && memory.size == old(memory.size))
      ensures var lo := old(ClaimStart(numBytes0));
        success ==>
          TopIs(shape, blocks, memory.size, lo) && OnlyNewFree(old(shape), shape, lo) && Foremost(View(), lo)
          && HEADS_SIZE <= lo && lo + numBytes0 <= memory.size + REGION_SIZE
          && memory.size == old(memory.size) + (if old(InitialSuffices(numBytes0)) then 0 else PageCeil(numBytes0))
      ensures success ==> forall a: nat {:trigger InBlocks(blocks, a)} :: InBlocks(blocks, a) <==>
          InBlocks(old(blocks), a) || old(ClaimFrom(numBytes0)) <= a < memory.size
    {
      hide ListPart; hide MarksPart; hide BlocksPart; hide OthersKept; hide InUse; hide LiveOf; hide PayloadsKept;
      hide Quad; hide PageCeil; hide CanAdd; hide OnlyNewFree; hide Foremost; hide InBlocks; hide TopIs;
      ghost var h, limit := View(), memory.size;
      ListHead(h, Limits());
      PayloadsSame(shape, mem);
      var start, end;
      success, fate, start, end := ObtainMemory(numBytes0, available);
      if !success { return; }
      var previousSbrkEndAddress := if listOfAllRegions != 0 then Word(mem, listOfAllRegions + 8) else 0;
      if start == previousSbrkEndAddress {
        ExtendStartBounds(h, Bounds(buckets, heapBase, limit));
        InExtended(blocks, start, end);
        ExtendBlock(start, end);
      } else {
        InAdded(blocks, start, end);
        AddBlock(start, end, limit);
        PayloadsFrom(h.shape, shape, h.mem, mem, 0, 0);
      }
    }

    /* The memory that is claimed. */
    method ObtainMemory(numBytes0: nat, available: bool)
        returns (obtained: bool, fate: Fate, start: nat, end: nat)
      requires Valid() && SMALLEST_ALLOCATION_SIZE + 3 * REGION_SIZE <= numBytes0 < W32
      modifies memory
      ensures fate == Overrun <==> !old(InitialSuffices(numBytes0)) && PageCeil(numBytes0) < numBytes0
      ensures fate == Trapped <==> !old(InitialSuffices(numBytes0)) && PageCeil(numBytes0) >= HALF_W32
      ensures obtained <==> old(CanClaim(numBytes0, available))
      ensures memory.Valid() && (!obtained ==> memory.size == old(memory.size))
      ensures obtained ==>
          fate == Returned && start == old(ClaimFrom(numBytes0)) && end == memory.size
          && start + numBytes0 <= end && Quad(end) && CanAdd(shape, start, end) && heapBase <= start
          && memory.size == old(memory.size) + (if old(InitialSuffices(numBytes0)) then 0 else PageCeil(numBytes0))
      ensures obtained && !old(InitialSuffices(numBytes0)) ==> memory.size >= old(memory.size) + PAGESIZE
    {
      hide ListPart; hide MarksPart; hide BlocksPart; hide Paged; hide Quad; hide PageCeil; hide CanAdd;
      obtained, fate := false, Returned;
      ghost var h, limit := View(), memory.size;
      PageQuad(memory.size);
      ListHead(h, Limits());
      PageCeilOk(numBytes0);
      start, end := heapBase, memory.size;
      if !(listOfAllRegions == 0 && numBytes0 <= (memory.size % W32 + W32 - heapBase) % W32) {
        var numBytes := PageCeil(numBytes0);
        if numBytes >= HALF_W32 { fate := Trapped; return; }
        if numBytes == 0 { fate := Overrun; return; }
        PageQuad(numBytes);
        QuadSum(limit, numBytes);
        AtLeastOnePage(numBytes);
        var br := memory.Sbrk(numBytes, available);
        if br == FAILED { return; }
        start, end := br, br + numBytes;
      }
      Claimable(h, Bounds(buckets, heapBase, limit), start, end);
      obtained := true;
    }

    /* ---- allocation ---- */

    /* What a successful allocation of size bytes makes of the heap it found. */
    ghost predicate Allocated(before: Heap, ptr: nat, alignment: nat, size: nat) reads this, memory
      requires alignment > 0
    {
      && Valid() && ptr >= 4 && LiveGrown(LiveOf(before.shape), Live(), ptr - 4)
      && ptr % alignment == 0
      && size + REGION_HEADER_SIZE <= Live()[ptr - 4] < size + REGION_HEADER_SIZE + REGION_SIZE
      && OthersKept(before.shape, shape, before.mem, mem, ptr - 4)
    }

    /* attempt_allocate.  When the sum in the test wraps, the code can go on although the region has no room. */
    method AttemptAllocate(freeRegion: nat, alignment: nat, size: nat) returns (ptr: nat, overrun: bool)
      requires Valid() && FreeAt(shape, freeRegion) && Request(alignment, size)
      modifies `mem, `freeRegionBucketsUsed, `shape, `rings, `loose
      ensures overrun <==> old(WrapsAt(shape, freeRegion, alignment, size))
      ensures ptr != 0 <==> old(SuitsAt(shape, freeRegion, alignment, size))
      ensures ptr != 0 ==> ptr == CeilTo(freeRegion + 4, alignment)
      ensures ptr == 0 && !overrun ==> View() == old(View()) && !AcceptsAt(shape, freeRegion, alignment, size)
      ensures ptr != 0 ==> !overrun && Allocated(old(View()), ptr, alignment, size)
    {
      hide ListPart; hide MarksPart; hide BlocksPart; hide OthersKept; hide InUse; hide LiveOf; hide LiveGrown;
      hide IsPowerOf2; hide AlignUp; hide CeilTo;
      ghost var h := View();
      FreeFields(h, Limits(), freeRegion);
      AlignedStart(freeRegion, alignment);
      AcceptsExactly(freeRegion, End(shape, freeRegion), alignment, size);
      var payloadStart, payloadEnd := freeRegion + 4, freeRegion + Word(mem, freeRegion) - 4;
      var aligned := AlignUp(payloadStart, alignment);
      if (aligned + size) % W32 > payloadEnd { return 0, false; }
      if aligned < payloadStart || aligned + size > payloadEnd { return 0, true; }
      UnlinkWhole(freeRegion);
      HeapShape(h, Limits());
      ghost var h1 := View();
      ptr := AllocateIn(freeRegion, aligned - payloadStart, size);
      overrun := false;
      OthersAny(h.shape, h1.shape, h.mem, h1.mem, ptr - 4);
      OthersTwice(h.shape, h1.shape, shape, h.mem, h1.mem, mem, ptr - 4);
    }

    /* The first region of a bucket goes to the end of its list. */
    method Cycle(region: nat, bucketIndex: nat)
      requires Valid() && bucketIndex < NUM_FREE_BUCKETS && Bit(freeRegionBucketsUsed, bucketIndex)
      requires bucketIndex in rings && |rings[bucketIndex]| > 1 && region == rings[bucketIndex][1]
      modifies `mem, `rings, `loose
      ensures Valid() && rings == old(rings)[bucketIndex := Dropped(old(rings)[bucketIndex], 1) + [region]]
      ensures OthersKept(shape, shape, old(mem), mem, 0)
    {
      hide ListPart; hide MarksPart; hide BlocksPart; hide OthersKept; hide InUse; hide ListStep; hide BucketOf;
      ghost var h := View();
      RingHead(h, Limits(), bucketIndex);
      Member(h, Limits(), bucketIndex, 1);
      ghost var b, k := UnlinkFromFreeList(region);
      assert k == 1;
      ghost var h1 := View();
      StepWhole(h, h1, Limits());
      StepKeepsOthers(h, h1, 0);
      PrependToFreeList(region, bucketIndex);
      StepWhole(h1, View(), Limits());
      StepKeepsOthers(h1, View(), 0);
      OthersTwice(shape, shape, shape, h.mem, h1.mem, mem, 0);
    }

    /* One bucket of the scan: its first region is tried, and goes to the end of the list if it does not do. */
    method TryBucket(bucketIndex: nat, alignment: nat, size: nat) returns (ptr: nat, stale: bool, overrun: bool)
      requires Valid() && Request(alignment, size) && bucketIndex < NUM_FREE_BUCKETS
          && Bit(freeRegionBucketsUsed, bucketIndex)
      modifies `mem, `freeRegionBucketsUsed, `shape, `rings, `loose
      ensures overrun <==> old(FirstAccepts(View(), bucketIndex, alignment, size)
          && WrapsAt(shape, rings[bucketIndex][1], alignment, size))
      ensures ptr != 0 <==> old(FirstAccepts(View(), bucketIndex, alignment, size)
          && SuitsAt(shape, rings[bucketIndex][1], alignment, size))
      ensures ptr != 0 ==> ptr == CeilTo(old(rings[bucketIndex][1]) + 4, alignment)
      ensures ptr == 0 && !overrun ==> !old(FirstAccepts(View(), bucketIndex, alignment, size))
      ensures ptr != 0 ==> !overrun && Allocated(old(View()), ptr, alignment, size)
      ensures ptr == 0 && !overrun ==>
          Valid() && shape == old(shape) && OthersKept(shape, shape, old(mem), mem, 0)
          && Tried(View(), bucketIndex, alignment, size)
      ensures ptr == 0 && !overrun ==>
          freeRegionBucketsUsed == if stale then AndNot(old(freeRegionBucketsUsed), Pow2(bucketIndex))
          else old(freeRegionBucketsUsed)
      ensures ptr == 0 && !overrun ==>
          bucketIndex in rings && bucketIndex in old(rings) && rings == old(rings)[bucketIndex := rings[bucketIndex]]
      ensures ptr == 0 && !overrun && stale ==> rings == old(rings)
    {
      hide ListPart; hide MarksPart; hide BlocksPart; hide OthersKept; hide InUse; hide LiveOf; hide LiveGrown;
      hide IsPowerOf2; hide AlignUp;
      hide BucketOf; hide AndNot; hide Bit; hide Accepts; hide Suits; hide Wraps;
      ghost var h := View();
      RingHead(h, Limits(), bucketIndex);
      var freeRegion := Word(mem, Head(buckets, bucketIndex) + 8);
      ptr, stale, overrun := 0, freeRegion == Head(buckets, bucketIndex), false;
      if !stale {
        Member(h, Limits(), bucketIndex, 1);
        SuitsAccepted(h, Limits(), freeRegion, alignment, size);
        ptr, overrun := AttemptAllocate(freeRegion, alignment, size);
        if ptr != 0 || overrun { return; }
        Cycle(freeRegion, bucketIndex);
      } else {
        assert |rings[bucketIndex]| > 1 ==> freeRegion != Head(buckets, bucketIndex) by {
          if |rings[bucketIndex]| > 1 { Member(h, Limits(), bucketIndex, 1); }
        }
        Unmarked(h, Limits(), bucketIndex);
        ClearedBits(freeRegionBucketsUsed, bucketIndex, bucketIndex);
        OthersSame(shape, mem, 0);
        freeRegionBucketsUsed := AndNot(freeRegionBucketsUsed, Pow2(bucketIndex));
      }
    }

    /* The scan of heap h has come to bucket b without accepting a region. */
    ghost predicate Scanning(h: Heap, b: nat, alignment: nat, size: nat) reads this, memory
      requires 0 < alignment <= W32 && size < W32
    {
      && Valid() && shape == h.shape && OthersKept(shape, shape, h.mem, mem, 0) && SameFrom(h, View(), b)
      && Bucket(size) <= b
      && TriedFrom(View(), Bucket(size), b, alignment, size) && NoneAccepted(h, Bucket(size), b, alignment, size)
    }

    /* One step of the scan, at a bucket that is marked. */
    method ScanStep(ghost h: Heap, bucketIndex: nat, alignment: nat, size: nat)
        returns (ptr: nat, stale: bool, overrun: bool, ghost at: nat)
      requires Request(alignment, size) && Scanning(h, bucketIndex, alignment, size) && bucketIndex < NUM_FREE_BUCKETS
          && Bit(freeRegionBucketsUsed, bucketIndex)
      modifies `mem, `freeRegionBucketsUsed, `shape, `rings, `loose
      ensures ptr != 0 || overrun ==> Picks(h, Bucket(size), at, alignment, size)
      ensures ptr != 0 ==> !overrun && SuitsAt(h.shape, at, alignment, size) && Allocated(h, ptr, alignment, size)
      ensures ptr != 0 ==> ptr == CeilTo(at + 4, alignment)
      ensures overrun ==> WrapsAt(h.shape, at, alignment, size)
      ensures ptr == 0 && !overrun ==> Scanning(h, if stale then bucketIndex else bucketIndex + 1, alignment, size)
      ensures ptr == 0 && !overrun ==>
          freeRegionBucketsUsed == if stale then AndNot(old(freeRegionBucketsUsed), Pow2(bucketIndex))
          else old(freeRegionBucketsUsed)
    {
      hide HeapOk; hide OthersKept; hide InUse; hide LiveOf; hide LiveGrown; hide IsPowerOf2; hide Tried; hide Bucket;
      hide FirstAccepts; hide NoneAccepted; hide SameFrom;
      hide AndNot; hide Bit; hide Suits; hide Wraps;
      ghost var h1 := View();
      HeapShape(h1, Limits());
      hide ShapeOk;
      SameFirst(h, h1, bucketIndex, alignment, size);
      ptr, stale, overrun := TryBucket(bucketIndex, alignment, size);
      at := 0;
      if ptr != 0 || overrun {
        at := PicksHere(h, Bucket(size), bucketIndex, alignment, size);
        if ptr != 0 {
          OthersAny(h.shape, h1.shape, h.mem, h1.mem, ptr - 4);
          OthersTwice(h.shape, h1.shape, shape, h.mem, h1.mem, mem, ptr - 4);
        }
        return;
      }
      OthersTwice(h.shape, h1.shape, shape, h.mem, h1.mem, mem, 0);
      StillTried(h1, View(), Bucket(size), bucketIndex, stale, alignment, size);
      NoneNext(h, Bucket(size), bucketIndex, alignment, size);
      SameAfter(h, h1, View(), bucketIndex);
    }

    /* The loop through the buckets that the bitmask marks, from that of the request on. */
    method ScanBuckets(alignment: nat, size: nat) returns (ptr: nat, overrun: bool, ghost at: nat)
      requires Valid() && Request(alignment, size)
      modifies `mem, `freeRegionBucketsUsed, `shape, `rings, `loose
      ensures ptr != 0 || overrun ==> Picks(old(View()), Bucket(size), at, alignment, size)
      ensures ptr != 0 ==>
          !overrun && old(SuitsAt(shape, at, alignment, size)) && Allocated(old(View()), ptr, alignment, size)
          && ptr == CeilTo(at + 4, alignment)
      ensures overrun ==> old(WrapsAt(shape, at, alignment, size))
      ensures ptr == 0 && !overrun ==> NoneAccepted(old(View()), Bucket(size), NUM_FREE_BUCKETS, alignment, size)
      ensures ptr == 0 && !overrun ==> Valid() && shape == old(shape) && OthersKept(shape, shape, old(mem), mem, 0)
      ensures ptr == 0 && !overrun ==> TriedFrom(View(), Bucket(size), NUM_FREE_BUCKETS, alignment, size)
    {
      hide HeapOk; hide OthersKept; hide LiveOf; hide IsPowerOf2; hide Bucket; hide NoneAccepted; hide SameFrom;
      hide TriedFrom; hide Picks; hide Allocated;
      hide AndNot; hide Xor; hide Shr; hide Ctz; hide Bit; hide SuitsAt; hide WrapsAt;
      ghost var h := View();
      BucketInterval(size);
      OthersSame(shape, mem, 0);
      HeapMask(h, Limits());
      ptr, overrun, at := 0, false, 0;
      var bucketIndex: nat := Bucket(size);
      var bucketMask := Shr(freeRegionBucketsUsed, bucketIndex);
      NoneYetAccepted(h, h, bucketIndex, alignment, size);
      SameBefore(h, Limits(), bucketIndex);
      while bucketMask != 0
        invariant ptr == 0 && !overrun && Scanning(h, bucketIndex, alignment, size)
        invariant bucketIndex <= NUM_FREE_BUCKETS && bucketMask == Shr(freeRegionBucketsUsed, bucketIndex)
        decreases bucketMask
      {
        ghost var h1 := View();
        HeapMask(h1, Limits());
        NextBit(freeRegionBucketsUsed, bucketIndex);
        var indexAdd := Ctz(bucketMask);
        SkippedTried(h1, Bucket(size), bucketIndex, bucketIndex + indexAdd, alignment, size);
        SkippedNone(h, h1, Limits(), Bucket(size), bucketIndex, bucketIndex + indexAdd, alignment, size);
        bucketIndex := bucketIndex + indexAdd;
        bucketMask := Shr(bucketMask, indexAdd);
        var stale;
        ptr, stale, overrun, at := ScanStep(h, bucketIndex, alignment, size);
        if ptr != 0 || overrun { return; }
        if !stale {
          SkipBit(freeRegionBucketsUsed, bucketIndex);
          bucketIndex := bucketIndex + 1;
          bucketMask := Shr(bucketMask, 1);
        } else {
          ClearBit(h1.mask, bucketIndex);
          bucketMask := Xor(bucketMask, 1);
        }
      }
      NoMoreBits(freeRegionBucketsUsed, bucketIndex);
      SkippedTried(View(), Bucket(size), bucketIndex, NUM_FREE_BUCKETS, alignment, size);
      SkippedNone(h, View(), Limits(), Bucket(size), bucketIndex, NUM_FREE_BUCKETS, alignment, size);
    }

    /* The walk through the bucket of the largest regions, at most 99 of them. */
    method TrySome(b: nat, alignment: nat, size: nat) returns (ptr: nat, overrun: bool, freeRegion: nat, ghost i: nat)
      requires Valid() && Request(alignment, size) && b < NUM_FREE_BUCKETS
      modifies `mem, `freeRegionBucketsUsed, `shape, `rings, `loose
      ensures ptr != 0 ==>
          !overrun && Allocated(old(View()), ptr, alignment, size) && !old(NoAccept(shape, alignment, size))
          && old(FromRing(b, i, ptr, alignment, size))
      ensures overrun ==> !old(NoWrapping(shape, alignment, size))
      ensures ptr == 0 && !overrun ==>
          View() == old(View()) && TriedUpTo(View(), b, i, alignment, size) && freeRegion == Visited(rings[b], i)
      ensures ptr == 0 && !overrun ==>
          if Shr(freeRegionBucketsUsed, 30) == 0 then i == 1 else i == |rings[b]| || i == 100
    {
      hide HeapOk; hide OthersKept; hide InUse; hide LiveOf; hide LiveGrown; hide IsPowerOf2; hide Suits; hide Wraps;
      hide Accepts;
      RingHead(View(), Limits(), b);
      ptr, overrun, freeRegion, i := 0, false, Word(mem, Head(buckets, b) + 8), 1;
      if Shr(freeRegionBucketsUsed, 30) != 0 {
        var numTriesLeft := 99;
        while freeRegion != Head(buckets, b) && numTriesLeft > 0
          invariant ptr == 0 && !overrun && View() == old(View()) && TriedUpTo(View(), b, i, alignment, size)
              && freeRegion == Visited(rings[b], i) && i + numTriesLeft == 100
          decreases numTriesLeft
        {
          numTriesLeft := numTriesLeft - 1;
          Member(View(), Limits(), b, i);
          SuitsAccepted(View(), Limits(), freeRegion, alignment, size);
          ptr, overrun := AttemptAllocate(freeRegion, alignment, size);
          if ptr != 0 || overrun { return; }
          freeRegion := Word(mem, freeRegion + 8);
          i := i + 1;
        }
      }
    }

    /* The last resort, once memory cannot grow: the rest of that bucket. */
    method TryRest(b: nat, freeRegion0: nat, ghost i0: nat, alignment: nat, size: nat)
        returns (ptr: nat, overrun: bool, ghost i: nat)
      requires Valid() && Request(alignment, size) && b < NUM_FREE_BUCKETS
      requires TriedUpTo(View(), b, i0, alignment, size) && freeRegion0 == Visited(rings[b], i0)
      modifies `mem, `freeRegionBucketsUsed, `shape, `rings, `loose
      ensures ptr != 0 ==>
          !overrun && Allocated(old(View()), ptr, alignment, size) && !old(NoAccept(shape, alignment, size))
          && old(FromRing(b, i, ptr, alignment, size))
      ensures overrun ==> !old(NoWrapping(shape, alignment, size))
      ensures ptr == 0 && !overrun ==> View() == old(View()) && AllTried(View(), b, alignment, size)
    {
      hide HeapOk; hide OthersKept; hide InUse; hide LiveOf; hide LiveGrown; hide IsPowerOf2; hide Suits; hide Wraps;
      hide Accepts;
      RingHead(View(), Limits(), b);
      var freeRegion := freeRegion0;
      i := i0;
      ptr, overrun := 0, false;
      if i < |rings[b]| { Member(View(), Limits(), b, i); }
      while freeRegion != Head(buckets, b)
        invariant ptr == 0 && !overrun && View() == old(View()) && TriedUpTo(View(), b, i, alignment, size)
            && freeRegion == Visited(rings[b], i) && (i < |rings[b]| ==> freeRegion != Head(buckets, b))
        decreases |rings[b]| - i
      {
        Member(View(), Limits(), b, i);
        SuitsAccepted(View(), Limits(), freeRegion, alignment, size);
        ptr, overrun := AttemptAllocate(freeRegion, alignment, size);
        if ptr != 0 || overrun { return; }
        freeRegion := Word(mem, freeRegion + 8);
        i := i + 1;
        if i < |rings[b]| { Member(View(), Limits(), b, i); }
      }
    }

    /* The outcome of an allocation: the other allocations are untouched in either case. */
    ghost predicate Served(before: Heap, ptr: nat, alignment: nat, size: nat) reads this, memory
      requires alignment > 0
    {
      && Valid() && ptr >= 4 && LiveGrown(LiveOf(before.shape), Live(), ptr - 4)
      && ptr % alignment == 0
      && size + REGION_HEADER_SIZE <= Live()[ptr - 4] < size + REGION_HEADER_SIZE + REGION_SIZE
      && PayloadsKept(before.shape, shape, before.mem, mem, ptr - 4)
    }

    lemma ServedAligned(before: Heap, ptr: nat, alignment: nat, size: nat)
      requires (alignment == 0 || IsPowerOf2(alignment)) && Served(before, ptr, Aligned(alignment), size)
      ensures ptr % MALLOC_ALIGNMENT == 0 && (alignment > 0 ==> ptr % alignment == 0)
    {
      hide Valid;
      if alignment > 0 { AlignedAsAsked(ptr, alignment); }
    }

    ghost predicate Refused(before: Heap) reads this, memory {
      Valid() && Live() == LiveOf(before.shape) && PayloadsKept(before.shape, shape, before.mem, mem, 0)
    }

    lemma ServedFrom(before: Heap, ptr: nat, alignment: nat, size: nat)
      requires alignment > 0 && Allocated(before, ptr, alignment, size)
      ensures Served(before, ptr, alignment, size)
    {
      PayloadsFrom(before.shape, shape, before.mem, mem, ptr - 4, ptr - 4);
    }

    lemma ServedLater(h: Heap, h1: Heap, ptr: nat, alignment: nat, size: nat)
      requires alignment > 0 && Served(h1, ptr, alignment, size) && PayloadsKept(h.shape, h1.shape, h.mem, h1.mem, 0)
          && LiveOf(h1.shape) == LiveOf(h.shape) && ShapeOk(h.shape)
      ensures Served(h, ptr, alignment, size)
    {
      hide Valid; hide ShapeOk;
      PayloadsAny(h.shape, h1.shape, h.mem, h1.mem, ptr - 4);
      PayloadsTwice(h.shape, h1.shape, shape, h.mem, h1.mem, mem, ptr - 4);
    }

    /* The part of allocate_memory that looks for a region, before it claims more memory. */
    method Search(alignment: nat, size: nat)
        returns (ptr: nat, overrun: bool, largestBucketIndex: nat, freeRegion: nat, ghost i: nat)
      requires Valid() && Request(alignment, size)
      modifies `mem, `freeRegionBucketsUsed, `shape, `rings, `loose
      ensures ptr != 0 ==>
          !overrun && Served(old(View()), ptr, alignment, size) && !old(NoAccept(shape, alignment, size))
      ensures overrun ==> !old(NoWrapping(shape, alignment, size))
      ensures ptr == 0 && !overrun ==>
          Refused(old(View())) && shape == old(shape) && largestBucketIndex < NUM_FREE_BUCKETS
      ensures ptr == 0 && !overrun ==>
          TriedFrom(View(), Bucket(size), NUM_FREE_BUCKETS, alignment, size)
          && (freeRegionBucketsUsed > 0 ==> largestBucketIndex == Log2(freeRegionBucketsUsed))
      ensures ptr == 0 && !overrun ==>
          TriedUpTo(View(), largestBucketIndex, i, alignment, size)
          && freeRegion == Visited(rings[largestBucketIndex], i)
      ensures ptr == 0 && !overrun && Shr(freeRegionBucketsUsed, 30) != 0 ==>
          i == |rings[largestBucketIndex]| || i == 100
      ensures ScanDecides(old(View()), alignment, size, ptr, overrun)
      ensures ptr != 0 ==> old(FromFree(ptr, alignment))
    {
      hide HeapOk; hide OthersKept; hide PayloadsKept; hide InUse; hide LiveOf; hide LiveGrown; hide IsPowerOf2;
      hide Bucket; hide Log2; hide Picks;
      hide NoneAccepted; hide NoAccept; hide NoWrapping; hide SuitsAt; hide WrapsAt; hide TriedFrom; hide TriedUpTo;
      ghost var h := View();
      HeapShape(h, Limits());
      PicksOnly(h, Limits(), alignment, size);
      ghost var at;
      ptr, overrun, at := ScanBuckets(alignment, size);
      largestBucketIndex, freeRegion, i := 0, 0, 0;
      if ptr != 0 || overrun { SuitsSome(h, Bounds(buckets, heapBase, memory.size), at, alignment, size); }
      if ptr != 0 { ServedFrom(h, ptr, alignment, size); }
      if ptr != 0 || overrun { return; }
      ghost var h1 := View();
      HeapMask(h1, Limits());
      PayloadsFrom(h.shape, h1.shape, h.mem, h1.mem, 0, 0);
      TopBit(freeRegionBucketsUsed);
      largestBucketIndex := if freeRegionBucketsUsed != 0 then Log2(freeRegionBucketsUsed) else 0;
      ptr, overrun, freeRegion, i := TrySome(largestBucketIndex, alignment, size);
      if ptr != 0 {
        RingIsFree(h1, Bounds(buckets, heapBase, memory.size), largestBucketIndex, i, alignment, size);
        ServedFrom(h1, ptr, alignment, size);
        ServedLater(h, h1, ptr, alignment, size);
      }
    }

    lemma RingIsFree(h: Heap, w: Bounds, b: nat, i: nat, alignment: nat, size: nat)
      requires HeapOk(h, w) && 0 < alignment <= W32 && b < NUM_FREE_BUCKETS && TriedUpTo(h, b, i, alignment, size)
          && i < |h.rings[b]|
      ensures FreeAt(h.shape, h.rings[b][i])
    {
      Member(h, w, b, i);
    }

    /* No region, old or made from claimed memory, can be taken for large enough when it is not. */
    ghost predicate Safe(alignment: nat, size: nat) reads `blocks, `shape, memory
      requires alignment > 0
    {
      && NoWrapping(shape, alignment, size)
      && PageCeil(size + 3 * REGION_SIZE) >= size + 3 * REGION_SIZE
      && CeilTo(ClaimStart(size + 3 * REGION_SIZE) + 4, alignment) + size < W32
    }

    /* The claimed region lo, in a block that ends at `end`, is taken for large enough when it is not; or it is found
       to be too small, and rounding the next claim wraps. */
    predicate TakesWrongly(lo: nat, end: nat, alignment: nat, size: nat)
      requires alignment > 0
    {
      var n, payload := size + 3 * REGION_SIZE, CeilTo(lo + 4, alignment);
      W32 <= payload + size || (PageCeil(n) < n && payload + size + 4 + REGION_SIZE > end)
    }

    /* Claiming memory for a request ends in an overrun: the rounding wraps, or the region claimed is taken for large
       enough. */
    ghost predicate ClaimOverruns(alignment: nat, size: nat, engine: nat -> bool) reads `blocks, `shape, memory
      requires alignment > 0
    {
      var n := size + 3 * REGION_SIZE;
      || (!InitialSuffices(n) && PageCeil(n) < n)
      || (CanClaim(n, engine(memory.size))
          && TakesWrongly(ClaimStart(n), memory.size + (if InitialSuffices(n) then 0 else PageCeil(n)), alignment,
               size))
    }

    /* ptr is the first aligned payload of a region that is free now. */
    ghost predicate FromFree(ptr: nat, alignment: nat) reads `shape
      requires alignment > 0
    {
      exists f: nat {:trigger FreeAt(shape, f)} :: FreeAt(shape, f) && ptr == CeilTo(f + 4, alignment)
    }

    /* It is that of region i of bucket b, and no region before that is accepted. */
    ghost predicate FromRing(b: nat, i: nat, ptr: nat, alignment: nat, size: nat) reads this
      requires 0 < alignment <= W32
    {
      && TriedUpTo(View(), b, i, alignment, size) && i < |rings[b]| && SuitsAt(shape, rings[b][i], alignment, size)
      && ptr == CeilTo(rings[b][i] + 4, alignment)
    }

    /* What the state before a call says about its outcome.  If the scan accepts a region, that decides.  If no free
       region would be accepted, memory is claimed, and it is settled whether that traps or overruns. */
    ghost predicate Foretold(alignment: nat, size: nat, engine: nat -> bool, ptr: nat, fate: Fate)
      reads this, memory
      requires 0 < alignment <= W32
    {
      ScanDecides(View(), alignment, size, ptr, fate == Overrun) && ClaimTells(alignment, size, engine, ptr, fate)
    }

    /* What becomes of a request for which no free region is accepted. */
    ghost predicate ClaimTells(alignment: nat, size: nat, engine: nat -> bool, ptr: nat, fate: Fate)
      reads `blocks, `shape, memory
      requires 0 < alignment <= W32
    {
      && (NoAccept(shape, alignment, size) && !InitialSuffices(size + 3 * REGION_SIZE) ==>
            (fate == Trapped <==> PageCeil(size + 3 * REGION_SIZE) >= HALF_W32))
      && (NoAccept(shape, alignment, size) ==> (fate == Overrun <==> ClaimOverruns(alignment, size, engine)))
      && (NoAccept(shape, alignment, size) && ClaimFits(alignment, size, engine) ==>
            ptr == CeilTo(ClaimStart(size + 3 * REGION_SIZE) + 4, alignment))
    }

    /* A request for which some free region is accepted. */
    lemma NothingTold(alignment: nat, size: nat, engine: nat -> bool)
      requires 0 < alignment <= W32 && !NoAccept(shape, alignment, size)
      ensures forall ptr: nat, fate: Fate {:trigger ClaimTells(alignment, size, engine, ptr, fate)} ::
          ClaimTells(alignment, size, engine, ptr, fate)
    {}

    /* What is known of a request before memory is claimed for it. */
    lemma BeforeClaim(alignment: nat, size: nat)
      requires Valid() && Request(alignment, size) && Aligned(alignment) == alignment && Rounded(size) == size
          && size + 3 * REGION_SIZE < W32
      ensures SMALLEST_ALLOCATION_SIZE <= size && 0 < alignment <= W32
      ensures View().shape == shape && View().mem == mem && ShapeOk(shape) && Live() == LiveOf(shape)
      ensures memory.size <= W32 && PayloadsKept(shape, shape, mem, mem, 0)
      ensures NoAccept(shape, alignment, size) ==> NoWrapping(shape, alignment, size)
      ensures Safe(alignment, size) ==>
          NoWrapping(shape, alignment, size) && PageCeil(size + 3 * REGION_SIZE) >= size + 3 * REGION_SIZE
          && CeilTo(ClaimStart(size + 3 * REGION_SIZE) + 4, alignment) + size < W32
    {
      hide AlignUp; hide IsPowerOf2; hide NoAccept; hide NoWrapping; hide CeilTo; hide PageCeil; hide LiveOf;
      PayloadsSame(shape, mem);
      HeapShape(View(), Limits());
      NoneWraps(View(), Limits(), alignment, size);
    }

    /* How a claim and what follows it make up ClaimTells. */
    lemma ClaimPlan(alignment: nat, size: nat, engine: nat -> bool, lo: nat, end: nat)
      requires 0 < alignment <= W32
      requires var n := size + 3 * REGION_SIZE;
        lo == ClaimStart(n) && end == memory.size + (if InitialSuffices(n) then 0 else PageCeil(n))
      ensures var n := size + 3 * REGION_SIZE;
        forall ptr: nat, fate: Fate {:trigger ClaimTells(alignment, size, engine, ptr, fate)} |
            CanClaim(n, engine(memory.size)) && (fate == Trapped ==> PageCeil(n) >= HALF_W32)
            && (NoAccept(shape, alignment, size) ==>
              (fate == Overrun <==> TakesWrongly(lo, end, alignment, size))
              && (CeilTo(lo + 4, alignment) + size + 4 + REGION_SIZE <= end ==> ptr == CeilTo(lo + 4, alignment))) ::
          ClaimTells(alignment, size, engine, ptr, fate)
      ensures var n := size + 3 * REGION_SIZE;
        forall ptr: nat, fate: Fate {:trigger ClaimTells(alignment, size, engine, ptr, fate)} |
            !CanClaim(n, engine(memory.size)) && (NoAccept(shape, alignment, size) ==> ptr == 0)
            && (NoAccept(shape, alignment, size) ==>
              (fate == Overrun <==> !InitialSuffices(n) && PageCeil(n) < n)
              && (fate == Trapped <==> !InitialSuffices(n) && PageCeil(n) >= HALF_W32)) ::
          ClaimTells(alignment, size, engine, ptr, fate)
    {
      hide NoAccept; hide CeilTo; hide TakesWrongly; hide PageCeil;
    }

    /* Memory can be claimed, and what is claimed has room for the request at its first aligned payload. */
    ghost predicate ClaimFits(alignment: nat, size: nat, engine: nat -> bool) reads `blocks, `shape, memory
      requires alignment > 0
    {
      var n := size + 3 * REGION_SIZE;
      CanClaim(n, engine(memory.size)) && CeilTo(ClaimStart(n) + 4, alignment) + size + 4 + REGION_SIZE
        <= memory.size + (if InitialSuffices(n) then 0 else PageCeil(n))
    }

    /* The rest of the highest bucket, when no memory can be claimed. */
    method WalkRest(largestBucketIndex: nat, freeRegion: nat, ghost i: nat, alignment: nat, size: nat)
        returns (ptr: nat, fate: Fate)
      requires Valid() && Request(alignment, size) && Aligned(alignment) == alignment && Rounded(size) == size
          && size + 3 * REGION_SIZE < W32
      requires largestBucketIndex < NUM_FREE_BUCKETS
          && TriedFrom(View(), Bucket(size), NUM_FREE_BUCKETS, alignment, size)
      requires freeRegionBucketsUsed > 0 ==> largestBucketIndex == Log2(freeRegionBucketsUsed)
      requires TriedUpTo(View(), largestBucketIndex, i, alignment, size)
          && freeRegion == Visited(rings[largestBucketIndex], i)
      modifies `mem, `freeRegionBucketsUsed, `shape, `rings, `loose
      ensures ptr != 0 ==>
          fate == Returned && Served(old(View()), ptr, alignment, size) && !old(NoAccept(shape, alignment, size))
          && old(FromFree(ptr, alignment))
      ensures fate == Overrun ==> !old(NoWrapping(shape, alignment, size))
      ensures ptr == 0 && fate != Overrun ==>
          fate == Returned && View() == old(View()) && Refused(old(View())) && Exhausted(shape, alignment, size)
    {
      hide HeapOk; hide OthersKept; hide PayloadsKept; hide InUse; hide LiveOf; hide LiveGrown; hide Exhausted;
      hide AlignUp; hide IsPowerOf2; hide Bucket; hide Log2;
      hide NoneAccepted; hide NoAccept; hide NoWrapping; hide SuitsAt; hide WrapsAt; hide TriedFrom; hide TriedUpTo;
      hide Served; hide CeilTo; hide PageCeil;
      ghost var h := View();
      HeapShape(h, Limits());
      PayloadsSame(shape, mem);
      hide ShapeOk;
      var overrun;
      ghost var k;
      fate := Returned;
      ptr, overrun, k := TryRest(largestBucketIndex, freeRegion, i, alignment, size);
      if overrun { fate := Overrun; }
      if ptr != 0 {
        ServedFrom(h, ptr, alignment, size);
        RingIsFree(h, Bounds(buckets, heapBase, memory.size), largestBucketIndex, k, alignment, size);
      }
      if ptr != 0 || overrun { return; }
      NothingLeft(View(), Limits(), alignment, size);
    }

    /* The part that claims memory when no region has served the request, and goes on from there. */
    method Grow(largestBucketIndex: nat, freeRegion: nat, ghost i: nat, alignment: nat, size: nat, engine: nat -> bool)
        returns (ptr: nat, fate: Fate)
      requires Valid() && Request(alignment, size) && Aligned(alignment) == alignment && Rounded(size) == size
          && size + 3 * REGION_SIZE < W32
      requires largestBucketIndex < NUM_FREE_BUCKETS
          && TriedFrom(View(), Bucket(size), NUM_FREE_BUCKETS, alignment, size)
      requires freeRegionBucketsUsed > 0 ==> largestBucketIndex == Log2(freeRegionBucketsUsed)
      requires TriedUpTo(View(), largestBucketIndex, i, alignment, size)
          && freeRegion == Visited(rings[largestBucketIndex], i)
      modifies this, memory
      ensures ptr != 0 ==> fate == Returned && Served(old(View()), ptr, alignment, size)
      ensures ptr == 0 && fate != Overrun ==> Refused(old(View()))
      ensures ptr == 0 && fate == Returned ==>
          Exhausted(shape, alignment, size) && !CanClaim(size + 3 * REGION_SIZE, engine(memory.size))
      ensures fate == Trapped ==> PageCeil(size + 3 * REGION_SIZE) >= HALF_W32
      ensures fate == Overrun ==> !old(Safe(alignment, size))
      ensures old(ClaimTells(alignment, size, engine, ptr, fate))
      ensures ptr != 0 && old(blocks) != [] && memory.size == old(memory.size) ==> old(FromFree(ptr, alignment))
      ensures fate != Overrun ==> memory.size >= old(memory.size)
      decreases W32 - memory.size, if blocks == [] then 1 else 0, 0
    {
      hide *;
      ghost var h, n := View(), size + 3 * REGION_SIZE;
      ghost var lo := ClaimStart(n);
      BeforeClaim(alignment, size);
      ClaimPlan(alignment, size, engine, lo, memory.size + (if InitialSuffices(n) then 0 else PageCeil(n)));
      var success;
      ptr := 0;
      success, fate := ClaimMoreMemory(size + 3 * REGION_SIZE, engine(memory.size));
      if fate != Returned { return; }
      if success {
        ptr, fate := Retry(alignment, size, engine, h, lo);
        return;
      }
      ptr, fate := WalkRest(largestBucketIndex, freeRegion, i, alignment, size);
    }

    /* What is known of a request before anything is tried. */
    lemma BeforeAllocate(alignment0: nat, size0: nat, engine: nat -> bool)
      requires Valid() && alignment0 < W32 && size0 < W32
      ensures Accepted(alignment0, size0) <==>
          (alignment0 == 0 || IsPowerOf2(alignment0)) && size0 <= MAX_ALLOC_SIZE
      ensures View().shape == shape && View().mem == mem && ShapeOk(shape) && Refused(View())
      ensures var alignment, size := Aligned(alignment0), Rounded(size0);
        Accepted(alignment0, size0) ==>
          Request(alignment, size) && Aligned(alignment) == alignment && Rounded(size) == size
          && size + 3 * REGION_SIZE < W32 && 0 < alignment <= W32
          && (NoAccept(shape, alignment, size) ==> NoWrapping(shape, alignment, size))
          && (Safe(alignment, size) ==> NoWrapping(shape, alignment, size))
      ensures var alignment, size := Aligned(alignment0), Rounded(size0);
        forall ptr: nat, fate: Fate {:trigger Foretold(alignment, size, engine, ptr, fate)} |
            0 < alignment <= W32 && ScanDecides(View(), alignment, size, ptr, fate == Overrun)
            && ClaimTells(alignment, size, engine, ptr, fate) ::
          Foretold(alignment, size, engine, ptr, fate)
    {
      hide AlignUp; hide IsPowerOf2; hide NoAccept; hide NoWrapping; hide CeilTo; hide PageCeil; hide LiveOf;
      hide ScanDecides; hide ClaimTells; hide Wraps; hide AcceptsAt;
      PayloadsSame(shape, mem);
      HeapShape(View(), Limits());
      if Accepted(alignment0, size0) {
        RequestOk(alignment0, size0);
        NoneWraps(View(), Limits(), Aligned(alignment0), Rounded(size0));
      }
    }

    /* A refusal after a refusal, seen from before the first. */
    lemma AfterSearch(h: Heap)
      requires Refused(h)
      ensures View().shape == shape && View().mem == mem && Valid() && LiveOf(shape) == LiveOf(h.shape)
      ensures PayloadsKept(h.shape, shape, h.mem, mem, 0)
    {}

    lemma RefusedTwice(h: Heap, h1: Heap)
      requires Refused(h1) && PayloadsKept(h.shape, h1.shape, h.mem, h1.mem, 0) && LiveOf(h1.shape) == LiveOf(h.shape)
      ensures Refused(h)
    {
      hide Valid; hide LiveOf;
      PayloadsTwice(h.shape, h1.shape, shape, h.mem, h1.mem, mem, 0);
    }

    /* allocate_memory; `engine` tells whether memory of the given size may grow. */
    method AllocateMemory(alignment0: nat, size0: nat, engine: nat -> bool) returns (ptr: nat, fate: Fate)
      requires Valid() && alignment0 < W32 && size0 < W32
      modifies this, memory
      ensures ptr != 0 ==>
          fate == Returned && Accepted(alignment0, size0)
          && Served(old(View()), ptr, Aligned(alignment0), Rounded(size0))
      ensures ptr != 0 ==> ptr % MALLOC_ALIGNMENT == 0 && (alignment0 > 0 ==> ptr % alignment0 == 0)
      ensures ptr == 0 && fate != Overrun ==> Refused(old(View()))
      ensures ptr == 0 && fate == Returned && Accepted(alignment0, size0) ==>
          Exhausted(shape, Aligned(alignment0), Rounded(size0))
      ensures ptr == 0 && fate == Returned && Accepted(alignment0, size0) ==>
          !CanClaim(Rounded(size0) + 3 * REGION_SIZE, engine(memory.size))
      ensures !Accepted(alignment0, size0) ==> fate == Returned && View() == old(View())
      ensures fate == Trapped ==> PageCeil(Rounded(size0) + 3 * REGION_SIZE) >= HALF_W32
      ensures fate == Overrun ==> !old(Safe(Aligned(alignment0), Rounded(size0)))
      ensures Accepted(alignment0, size0) ==>
          old(Foretold(Aligned(alignment0), Rounded(size0), engine, ptr, fate))
      ensures ptr != 0 && old(blocks) != [] && memory.size == old(memory.size) ==>
          old(FromFree(ptr, Aligned(alignment0)))
      ensures fate != Overrun ==> memory.size >= old(memory.size)
      decreases W32 - memory.size, if blocks == [] then 1 else 0, 1
    {
      hide *;
      ghost var h := View();
      BeforeAllocate(alignment0, size0, engine);
      ptr, fate := 0, Returned;
      if !(alignment0 == 0 || IsPowerOf2(alignment0)) { return; }
      if size0 > MAX_ALLOC_SIZE { return; }
      var alignment, size := Aligned(alignment0), Rounded(size0);
      if !NoAccept(shape, alignment, size) { NothingTold(alignment, size, engine); }
      var overrun, largestBucketIndex, freeRegion; ghost var i;
      ptr, overrun, largestBucketIndex, freeRegion, i := Search(alignment, size);
      if overrun { fate := Overrun; }
      if ptr != 0 { ServedAligned(h, ptr, alignment0, size); }
      if ptr != 0 || overrun { return; }
      Undecided(h, alignment, size);
      ghost var h1 := View();
      AfterSearch(h);
      ptr, fate := Grow(largestBucketIndex, freeRegion, i, alignment, size, engine);
      if ptr != 0 {
        ServedLater(h, h1, ptr, alignment, size);
        ServedAligned(h, ptr, alignment0, size);
      } else if fate != Overrun {
        RefusedTwice(h, h1);
      }
    }

    /* Recurse back to try again, once memory is claimed: it became part of the free region lo. */
    method Retry(alignment: nat, size: nat, engine: nat -> bool, ghost h: Heap, ghost lo: nat)
        returns (ptr: nat, fate: Fate)
      requires Valid() && Request(alignment, size) && Aligned(alignment) == alignment && Rounded(size) == size
      requires ShapeOk(h.shape) && Live() == LiveOf(h.shape) && PayloadsKept(h.shape, shape, h.mem, mem, 0)
      requires TopIs(shape, blocks, memory.size, lo) && OnlyNewFree(h.shape, shape, lo) && Foremost(View(), lo)
      requires HEADS_SIZE <= lo && lo + size + 2 * REGION_SIZE <= memory.size
      modifies this, memory
      ensures ptr != 0 ==> fate == Returned && Served(h, ptr, alignment, size)
      ensures ptr == 0 && fate != Overrun ==> Refused(h)
      ensures ptr == 0 && fate == Returned ==>
          Exhausted(shape, alignment, size) && !CanClaim(size + 3 * REGION_SIZE, engine(memory.size))
      ensures fate == Trapped ==> PageCeil(size + 3 * REGION_SIZE) >= HALF_W32
      ensures fate == Overrun && NoWrapping(h.shape, alignment, size) ==>
          W32 <= CeilTo(lo + 4, alignment) + size || PageCeil(size + 3 * REGION_SIZE) < size + 3 * REGION_SIZE
      ensures NoAccept(h.shape, alignment, size) ==>
          (fate == Overrun <==> old(TakesWrongly(lo, memory.size, alignment, size)))
      ensures NoAccept(h.shape, alignment, size)
              && CeilTo(lo + 4, alignment) + size + 4 + REGION_SIZE <= old(memory.size) ==>
          ptr == CeilTo(lo + 4, alignment)
      ensures fate != Overrun ==> memory.size >= old(memory.size)
      decreases W32 - memory.size, if blocks == [] then 1 else 0, 2
    {
      hide HeapOk; hide OthersKept; hide PayloadsKept; hide InUse; hide LiveOf; hide LiveGrown; hide Exhausted;
      hide AlignUp; hide IsPowerOf2; hide Bucket; hide Log2;
      hide Picks; hide NoAccept; hide NoWrapping; hide SuitsAt; hide WrapsAt; hide AcceptsAt; hide Served; hide CeilTo;
      hide PageCeil; hide OnlyNewFree; hide Foremost; hide ShapeOk;
      ghost var h2 := View();
      ClaimedSuits(shape, blocks, memory.size, lo, alignment, size);
      ClaimedAccepted(h2, Limits(), lo, alignment, size);
      SuitsAccepted(h2, Limits(), lo, alignment, size);
      if NoAccept(h.shape, alignment, size) { ClaimedPicks(h2, Limits(), h.shape, lo, alignment, size); }
      if NoWrapping(h.shape, alignment, size) && CeilTo(lo + 4, alignment) + size < W32 {
        ClaimedWraps(h.shape, shape, lo, alignment, size);
      }
      ptr, fate := AllocateMemory(alignment, size, engine);
      if ptr != 0 { ServedLater(h, h2, ptr, alignment, size); }
      if ptr == 0 && fate != Overrun { PayloadsTwice(h.shape, h2.shape, shape, h.mem, h2.mem, mem, 0); }
    }

    /* The boundary between f and the region before it moves up by k bytes. */
    method Bump(f: nat, k: nat)
      requires memory.Valid() && HeapOk(View(), Limits()) && FreeAt(shape, f) && Quad(k)
          && k + REGION_SIZE <= shape[f].size
      modifies `mem
      ensures shape[f].prev in shape && End(shape, shape[f].prev) == f && shape[shape[f].prev].size >= REGION_SIZE
      ensures mem == BumpedMem(old(mem), shape[f].prev, shape[shape[f].prev].size, f, shape[f].size, k)
    {
      FreeFields(View(), Limits(), f);
      hide ListPart; hide MarksPart; hide BlocksPart;
      if k > 0 {
        var prevRegion := PrevRegion(f);
        var newThisRegionSize := Word(mem, f) - k;
        CreateUsedRegion(prevRegion, Word(mem, prevRegion) + k);
        mem := mem[f + k := newThisRegionSize];
      }
    }

    /* Free region f, off its list, becomes an allocation; k is the amount by which its start moves up. */
    method AllocateIn(f: nat, k: nat, size: nat) returns (ptr: nat)
      requires memory.Valid() && Quad(heapBase) && heapBase <= initialEnd <= memory.size && HeapOk(View(), Limits())
          && loose == {f} && RootsValid() && FreeAt(shape, f)
      requires Quad(k) && Quad(size) && size >= SMALLEST_ALLOCATION_SIZE
          && k + size + REGION_HEADER_SIZE <= shape[f].size
      modifies `mem, `freeRegionBucketsUsed, `shape, `rings, `loose
      ensures Valid() && ptr == f + k + 4 && LiveGrown(old(Live()), Live(), f + k)
          && size + REGION_HEADER_SIZE <= Live()[f + k] < size + REGION_HEADER_SIZE + REGION_SIZE
      ensures OthersKept(old(shape), shape, old(mem), mem, f + k)
      ensures old(Splits(End(shape, f) - (f + k), size + REGION_HEADER_SIZE)) ==>
          f + k in shape && FreeAt(shape, End(shape, f + k))
          && Foremost(View(), f + k + size + REGION_HEADER_SIZE)
    {
      hide FreeAt; hide ShapeOk; hide InRange; hide ListPart; hide MarksPart; hide BlocksPart; hide OthersKept;
      hide InUse; hide LiveOf; hide LiveGrown; hide IsAllocated; hide AllocWords; hide MarkedBut;
      ghost var h, n := View(), size + REGION_HEADER_SIZE;
      ghost var s' := BumpFor(f, k, size);
      AllocLive(h.shape, s', f, k, n);
      AllocRegion(h.shape, s', f, k, n);
      if REGION_SIZE + REGION_HEADER_SIZE + size <= Word(mem, f + k) {
        LeaveRest(f, k, size, h, s');
      } else {
        TakeAll(f, k, n, h, s');
      }
      ptr := f + k + 4;
      RestFree(h.shape, s', f, k, n);
    }

    lemma RestFree(s: Shape, s': Shape, f: nat, k: nat, n: nat)
      requires FreeAt(s, f) && IsAllocated(s, s', f, k, n)
      ensures Splits(End(s, f) - (f + k), n) ==> f + k in s' && FreeAt(s', End(s', f + k))
    {
      AllocRegion(s, s', f, k, n);
    }

    /* The region before takes the bytes in front of the payload, and it is settled what the regions will be. */
    method BumpFor(f: nat, k: nat, size: nat) returns (ghost s': Shape)
      requires memory.Valid() && HeapOk(View(), Limits()) && loose == {f} && FreeAt(shape, f)
      requires Quad(k) && Quad(size) && size >= SMALLEST_ALLOCATION_SIZE
          && k + size + REGION_HEADER_SIZE <= shape[f].size
      modifies `mem
      ensures var h, n, p := old(View()), size + REGION_HEADER_SIZE, f + k;
              && Bumped(f, k, n, h, s')
              && var hi := End(h.shape, f);
                 if Splits(hi - p, n) then
                   AllocWords(h, h.(mem := mem[p + n := hi - (p + n)][hi - 4 := hi - (p + n) + 1], shape := s',
                     loose := {p + n}), f, k, n)
                 else AllocWords(h, h.(mem := mem, shape := s', loose := {}), f, k, n)
    {
      hide FreeAt; hide ShapeOk; hide InRange; hide ListPart; hide MarksPart; hide BlocksPart; hide IsAllocated;
      hide AllocWords;
      ghost var h, n := View(), size + REGION_HEADER_SIZE;
      HeapShape(h, Limits());
      s' := AllocShape(shape, f, k, n);
      AllocRegion(shape, s', f, k, n);
      Bump(f, k);
      AllocWrites(h, mem, f, k, n, s');
    }

    ghost predicate Bumped(f: nat, k: nat, n: nat, h: Heap, s': Shape) reads this, memory {
      && memory.Valid() && HeapOk(h, Limits()) && FreeAt(h.shape, f) && h.loose == {f} && View() == h.(mem := mem)
      && IsAllocated(h.shape, s', f, k, n) && n >= REGION_SIZE && Word(mem, f + k) == End(h.shape, f) - (f + k)
    }

    /* What is left of the region becomes a free one. */
    method LeaveRest(f: nat, k: nat, size: nat, ghost h: Heap, ghost s': Shape)
      requires Bumped(f, k, size + REGION_HEADER_SIZE, h, s')
          && Splits(End(h.shape, f) - (f + k), size + REGION_HEADER_SIZE)
      requires var n, hi, p := size + REGION_HEADER_SIZE, End(h.shape, f), f + k;
               AllocWords(h, h.(mem := mem[p + n := hi - (p + n)][hi - 4 := hi - (p + n) + 1], shape := s',
                 loose := {p + n}), f, k, n)
      modifies `mem, `freeRegionBucketsUsed, `shape, `rings, `loose
      ensures HeapOk(View(), Limits()) && loose == {} && shape == s' && blocks == h.blocks
          && OthersKept(h.shape, s', h.mem, mem, f + k) && Foremost(View(), f + k + size + REGION_HEADER_SIZE)
    {
      hide ListPart; hide MarksPart; hide BlocksPart; hide OthersKept; hide IsAllocated; hide AllocWords;
      hide MarkedBut; hide ListStep;
      ghost var n := size + REGION_HEADER_SIZE;
      AllocRegion(h.shape, s', f, k, n);
      var region := f + k;
      var newFreeRegion := region + REGION_HEADER_SIZE + size;
      CreateFreeRegion(newFreeRegion, Word(mem, region) - size - REGION_HEADER_SIZE);
      shape, loose := s', {newFreeRegion};
      ghost var h2 := View();
      AllocHeap(h, h2, Limits(), f, k, n);
      SizeWordBut(h2, region, newFreeRegion);
      LinkToFreeList(newFreeRegion);
      StepKeepsBlocks(h2, View());
      StepKeepsMarkedBut(h2, View(), region);
      StepKeepsOthers(h2, View(), region);
      OthersTwice(h.shape, h2.shape, shape, h.mem, h2.mem, mem, region);
      ghost var h3 := View();
      CreateUsedRegion(region, size + REGION_HEADER_SIZE);
      MarkLast(h3, View(), Limits(), region);
      OthersTwice(h.shape, h3.shape, shape, h.mem, h3.mem, mem, region);
    }

    /* There is too little left for a region: the whole region is used. */
    method TakeAll(f: nat, k: nat, ghost n: nat, ghost h: Heap, ghost s': Shape)
      requires Bumped(f, k, n, h, s') && !Splits(End(h.shape, f) - (f + k), n)
      requires AllocWords(h, h.(mem := mem, shape := s', loose := {}), f, k, n)
      modifies `mem, `shape, `loose
      ensures HeapOk(View(), Limits()) && loose == {} && shape == s' && blocks == h.blocks
          && OthersKept(h.shape, s', h.mem, mem, f + k)
    {
      hide ListPart; hide MarksPart; hide BlocksPart; hide OthersKept; hide IsAllocated; hide AllocWords;
      hide MarkedBut;
      AllocRegion(h.shape, s', f, k, n);
      var region := f + k;
      shape, loose := s', {};
      ghost var h2 := View();
      AllocHeap(h, h2, Limits(), f, k, n);
      SameWrite(mem, region);
      mem := mem[region + Word(mem, region) - 4 := Word(mem, region)];
      MarkLast(h2, View(), Limits(), region);
      OthersTwice(h.shape, h2.shape, shape, h.mem, h2.mem, mem, region);
    }

    /* ---- resizing in place ---- */

    /* Memory that allocation `region` can have where it is: its own, and the free region after it. */
    ghost predicate Resized(before: Heap, region: nat, size: nat) reads this, memory {
      && Valid() && region in before.shape && region in Live()
      && Live() == LiveOf(before.shape)[region := Live()[region]]
      && size <= Live()[region] < size + REGION_SIZE && OthersKept(before.shape, shape, before.mem, mem, region)
      && KeptTo(before.mem, mem, region, Least(End(before.shape, region), region + size))
    }

    /* The part for a free next region. */
    method GrowIntoNext(region: nat, size: nat, nextRegion: nat) returns (ok: bool, overrun: bool)
      requires Valid() && region in shape && shape[region].kind == Used && Quad(size) && size >= REGION_SIZE
          && size + REGION_SIZE < W32
      requires nextRegion == End(shape, region) && FreeAt(shape, nextRegion)
          && Word(mem, nextRegion) == shape[nextRegion].size
      modifies `mem, `freeRegionBucketsUsed, `shape, `rings, `loose
      ensures overrun <==> W32 <= region + size + REGION_SIZE
      ensures ok <==> region + size <= old(FreeEnd(shape, region)) && !overrun
      ensures !ok && !overrun ==> View() == old(View())
      ensures ok ==> !overrun && Resized(old(View()), region, size)
    {
      hide Resized;
      hide ListPart; hide MarksPart; hide BlocksPart; hide OthersKept; hide InUse; hide KeptTo; hide Quad; hide LiveOf;
      ghost var h := View();
      Fields(h, Limits(), region);
      FreeFields(h, Limits(), nextRegion);
      var nextRegionEndPtr := nextRegion + Word(mem, nextRegion);
      var newNextRegionStartPtr := (region + size) % W32;
      ResizeTest(region, size, nextRegionEndPtr);
      hide End; hide FreeEnd;
      if (newNextRegionStartPtr + REGION_SIZE) % W32 <= nextRegionEndPtr {
        if region + size + REGION_SIZE > nextRegionEndPtr { return false, true; }
        UnlinkNext(region, nextRegion);
        ghost var h1 := View();
        MoveBoundary(region, size, nextRegionEndPtr);
        ResizedLater(h, h1, region, size);
        return true, false;
      }
      if newNextRegionStartPtr <= nextRegionEndPtr {
        UnlinkNext(region, nextRegion);
        ghost var h1 := View();
        TakeWhole(region, size, nextRegion);
        ResizedLater(h, h1, region, size);
        return true, false;
      }
      return false, false;
    }

    /* attempt_region_resize.  Next to a free region the new end is compared in 32 bits. */
    method AttemptRegionResize(region: nat, size: nat) returns (ok: bool, overrun: bool)
      requires Valid() && region in Live() && Quad(size) && size >= REGION_SIZE && size + REGION_SIZE < W32
      modifies `mem, `freeRegionBucketsUsed, `shape, `rings, `loose
      ensures overrun <==> old(FreeAt(shape, End(shape, region))) && W32 <= region + size + REGION_SIZE
      ensures ok <==> region + size <= old(FreeEnd(shape, region)) && !overrun
      ensures !ok && !overrun ==> View() == old(View())
      ensures ok ==> !overrun && Resized(old(View()), region, size)
    {
      hide Quad; hide ListPart; hide MarksPart; hide BlocksPart; hide OthersKept; hide InUse; hide KeptTo;
      ghost var h := View();
      Fields(h, Limits(), region);
      NothingLoose(h);
      KeptToSame(mem, region);
      OthersSame(shape, mem, region);
      assert LiveOf(shape) == LiveOf(shape)[region := LiveOf(shape)[region]];
      hide LiveOf;
      overrun := false;
      var nextRegion := NextRegion(region);
      var nextRegionEndPtr := nextRegion + Word(mem, nextRegion);
      var sizeAtCeiling := Word(mem, nextRegionEndPtr - 4);
      if Word(mem, nextRegion) != sizeAtCeiling {
        ok, overrun := GrowIntoNext(region, size, nextRegion);
        return;
      } else {
        if size + REGION_SIZE <= Word(mem, region) {
          CutEnd(region, size);
          return true, false;
        } else if size <= Word(mem, region) {
          return true, false;
        }
      }
      return false, false;
    }

    /* The free region after an allocation comes off its list. */
    method UnlinkNext(region: nat, nextRegion: nat)
      requires Valid() && region in shape && shape[region].kind == Used && nextRegion == End(shape, region)
          && FreeAt(shape, nextRegion)
      modifies `mem, `rings, `loose
      ensures HeapOk(View(), Limits()) && RootsValid() && loose == {nextRegion}
          && OthersKept(shape, shape, old(mem), mem, region) && KeptTo(old(mem), mem, region, End(shape, region))
      ensures Word(mem, region) == shape[region].size && Word(mem, nextRegion) == shape[nextRegion].size
    {
      hide ListPart; hide MarksPart; hide BlocksPart; hide OthersKept; hide KeptTo;
      ghost var h := View();
      HeapShape(h, Limits());
      NothingLoose(h);
      UnlinkWhole(nextRegion);
      assert RegOk(shape, region);
      KeptToFrom(shape, shape, h.mem, mem, region, 0);
      OthersAny(shape, shape, h.mem, mem, region);
      SizeWord(View(), region);
      SizeWord(View(), nextRegion);
    }

    /* The boundary between an allocation and the free region after it moves. */
    method MoveBoundary(region: nat, size: nat, nextRegionEndPtr: nat)
      requires memory.Valid() && Quad(heapBase) && heapBase <= initialEnd <= memory.size && HeapOk(View(), Limits())
          && RootsValid() && region in shape && shape[region].kind == Used
      requires loose == {End(shape, region)} && FreeAt(shape, End(shape, region))
          && nextRegionEndPtr == FreeEnd(shape, region)
      requires Quad(size) && size >= REGION_SIZE && region + size + REGION_SIZE <= nextRegionEndPtr
      modifies `mem, `freeRegionBucketsUsed, `shape, `rings, `loose
      ensures Resized(old(View()), region, size)
    {
      hide ListPart; hide MarksPart; hide BlocksPart; hide OthersKept; hide InUse; hide LiveOf; hide KeptTo;
      hide MarkedBut; hide ListStep; hide IsResized;
      ghost var h := View();
      HeapShape(h, Limits());
      ghost var s' := ResizeShape(shape, region, size);
      ResizedRegion(shape, s', region, size);
      ResizedLive(shape, s', region, size);
      var newNextRegion := region + size;
      CreateFreeRegion(newNextRegion, nextRegionEndPtr - newNextRegion);
      shape, loose := s', {newNextRegion};
      ghost var h2 := View();
      ResizedHeap(h, h2, Limits(), region, size);
      SizeWordBut(h2, region, newNextRegion);
      LinkToFreeList(newNextRegion);
      ghost var h3 := View();
      StepKeepsBlocks(h2, h3);
      StepKeepsMarkedBut(h2, h3, region);
      StepKeepsOthers(h2, h3, 0);
      UsedInUse(shape, region);
      KeptToFrom(shape, shape, h2.mem, h3.mem, region, 0);
      KeptToTwice(h.mem, h2.mem, h3.mem, region, region + size, region + size, region + size);
      OthersAny(shape, shape, h2.mem, h3.mem, region);
      OthersTwice(h.shape, shape, shape, h.mem, h2.mem, h3.mem, region);
      CreateUsedRegion(region, size);
      MarkLast(h3, View(), Limits(), region);
      MarksKeep(h3.mem, region, size, region + size);
      KeptToTwice(h.mem, h3.mem, mem, region, region + size, region + size, Least(End(h.shape, region), region + size));
      OthersTwice(h.shape, shape, shape, h.mem, h3.mem, mem, region);
    }

    /* An allocation takes in the whole free region after it. */
    method TakeWhole(region: nat, ghost size: nat, nextRegion: nat)
      requires memory.Valid() && Quad(heapBase) && heapBase <= initialEnd <= memory.size && HeapOk(View(), Limits())
          && RootsValid() && region in shape && shape[region].kind == Used
      requires nextRegion == End(shape, region) && loose == {nextRegion} && FreeAt(shape, nextRegion)
      requires Word(mem, region) == shape[region].size && Word(mem, nextRegion) == shape[nextRegion].size
      requires Quad(size) && size >= REGION_SIZE
          && region + size <= FreeEnd(shape, region) < region + size + REGION_SIZE
      modifies `mem, `shape, `loose
      ensures Resized(old(View()), region, size)
    {
      hide ListPart; hide MarksPart; hide BlocksPart; hide OthersKept; hide InUse; hide LiveOf; hide KeptTo;
      hide MarkedBut; hide IsResized;
      ghost var h := View();
      HeapShape(h, Limits());
      ghost var s' := ResizeShape(shape, region, size);
      ResizedRegion(shape, s', region, size);
      ResizedLive(shape, s', region, size);
      shape, loose := s', {};
      ghost var h2 := View();
      ResizedHeap(h, h2, Limits(), region, size);
      CreateUsedRegion(region, Word(mem, region) + Word(mem, nextRegion));
      MarkLast(h2, View(), Limits(), region);
      MarksKeep(h2.mem, region, s'[region].size, region + size);
      KeptToTwice(h.mem, h2.mem, mem, region, region + size, region + size, Least(End(h.shape, region), region + size));
      OthersTwice(h.shape, shape, shape, h.mem, h2.mem, mem, region);
    }

    /* An allocation gives up its end, which becomes a free region. */
    method CutEnd(region: nat, size: nat)
      requires Valid() && region in shape && shape[region].kind == Used && !FreeAt(shape, End(shape, region))
      requires Quad(size) && size >= REGION_SIZE && size + REGION_SIZE <= shape[region].size
      modifies `mem, `freeRegionBucketsUsed, `shape, `rings, `loose
      ensures Resized(old(View()), region, size)
    {
      hide ListPart; hide MarksPart; hide BlocksPart; hide OthersKept; hide InUse; hide LiveOf; hide KeptTo;
      hide MarkedBut; hide IsResized; hide FreeAt;
      ghost var h := View();
      HeapShape(h, Limits());
      ghost var s' := ResizeShape(shape, region, size);
      ResizedRegion(shape, s', region, size);
      ResizedLive(shape, s', region, size);
      SizeWord(h, region);
      ghost var hi := End(shape, region);
      var freeRegionSize := Word(mem, region) - size;
      CreateUsedRegion(region, size);
      var freeRegion := region + size;
      CreateFreeRegion(freeRegion, freeRegionSize);
      MarksCommute(h.mem, region, size, hi, freeRegionSize);
      ghost var h1 := h.(mem := h.mem[freeRegion := freeRegionSize][hi - 4 := freeRegionSize + 1], shape := s',
          loose := {freeRegion});
      ResizedHeap(h, h1, Limits(), region, size);
      shape, loose := s', {freeRegion};
      ghost var h2 := View();
      MarkLast(h1, h2, Limits(), region);
      MarksKeep(h1.mem, region, size, region + size);
      KeptToTwice(h.mem, h1.mem, h2.mem, region, region + size, region + size, region + size);
      OthersTwice(h.shape, shape, shape, h.mem, h1.mem, h2.mem, region);
      LinkWhole(freeRegion);
      UsedInUse(shape, region);
      KeptToFrom(shape, shape, h2.mem, mem, region, 0);
      KeptToTwice(h.mem, h2.mem, mem, region, region + size, region + size, Least(End(h.shape, region), region + size));
      OthersAny(shape, shape, h2.mem, mem, region);
      OthersTwice(h.shape, shape, shape, h.mem, h2.mem, mem, region);
    }

    /* What happened to the lists before does not matter. */
    lemma ResizedLater(h: Heap, h1: Heap, region: nat, size: nat)
      requires Resized(h1, region, size) && h1.shape == h.shape && OthersKept(h.shape, h.shape, h.mem, h1.mem, region)
          && KeptTo(h.mem, h1.mem, region, End(h.shape, region))
      ensures Resized(h, region, size)
    {
      hide Valid; hide OthersKept; hide KeptTo;
      OthersTwice(h.shape, h.shape, shape, h.mem, h1.mem, mem, region);
      var e := Least(End(h.shape, region), region + size);
      KeptToTwice(h.mem, h1.mem, mem, region, End(h.shape, region), e, e);
    }

    /* ---- what callers see ---- */

    /* Allocations are word aligned, lie in the memory of the heap, and do not overlap. */
    lemma LivePayloads(p: nat, q: nat)
      requires Valid() && p in Live() && q in Live() && p < q
      ensures Quad(p + 4) && Live()[p] >= REGION_SIZE && heapBase <= p
      ensures (p + 4) + (Live()[p] - REGION_HEADER_SIZE) < q + 4
          && (q + 4) + (Live()[q] - REGION_HEADER_SIZE) < memory.size
    {
      assert RegOk(shape, p) && RegOk(shape, q);
      Disjoint(shape, p, q);
      assert End(shape, p) <= memory.size && End(shape, q) <= memory.size;
    }

    /* Other users of sbrk do not disturb the heap. */
    method OthersGrow(pages: nat, available: bool)
      requires Valid()
      modifies memory
      ensures Valid() && Live() == old(Live())
          && (available && old(memory.size) + pages * PAGESIZE <= W32 ==>
          memory.size == old(memory.size) + pages * PAGESIZE)
    {
      hide MarksPart; hide BlocksPart; hide LiveOf;
      ghost var h, w := View(), Limits();
      assert ListPart(h, w);
      hide ListPart;
      var br := memory.Sbrk(pages * PAGESIZE, available);
      WidenPart(h, w, Limits());
    }

    /* The owner of an allocation writes a word of its payload. */
    method Store(ptr: nat, offset: nat, value: nat)
      requires Valid() && ptr >= 4 && ptr - 4 in Live() && offset + 4 <= Live()[ptr - 4] - REGION_HEADER_SIZE
      modifies `mem
      ensures Valid() && mem == old(mem)[ptr + offset := value] && OthersKept(shape, shape, old(mem), mem, ptr - 4)
    {
      ghost var h := View();
      mem := mem[ptr + offset := value];
      hide ListPart; hide MarksPart; hide BlocksPart; hide OthersKept; hide InUse;
      PayloadWrite(h, View(), Limits(), ptr - 4);
    }

    /* A sufficient condition that needs no look at the heap: the end of memory is far enough from 2^32. */
    lemma FarFromEnd(alignment: nat, size: nat)
      requires Valid() && Request(alignment, size) && memory.size + 3 * REGION_SIZE + alignment + size <= W32
      ensures Safe(alignment, size)
    {
      SomePage(View(), Limits(), alignment, size);
      PageCeilOk(size + 3 * REGION_SIZE);
      Ceiling(ClaimStart(size + 3 * REGION_SIZE) + 4, alignment);
      if blocks != [] && blocks[0].end == memory.size { ExtendStartBounds(View(), Limits()); }
    }

    /* emmalloc_memalign */
    method Memalign(alignment: nat, size: nat, engine: nat -> bool) returns (ptr: nat, fate: Fate)
      requires Valid() && alignment < W32 && size < W32
      modifies this, memory
      ensures Answered(old(View()), ptr, fate, alignment, size, engine)
      ensures ptr != 0 && alignment > 0 ==> ptr % alignment == 0
      ensures fate == Overrun ==> Accepted(alignment, size) && !old(Safe(Aligned(alignment), Rounded(size)))
      ensures Accepted(alignment, size) ==>
          old(Foretold(Aligned(alignment), Rounded(size), engine, ptr, fate))
    {
      hide HeapOk; hide Served; hide Refused; hide Exhausted; hide Accepted; hide Aligned; hide Rounded;
      hide Foretold; hide Safe; hide CanClaim;
      ptr, fate := AllocateMemory(alignment, size, engine);
    }

    /* What a caller learns from an answer: an allocation, or why there is none. */
    ghost predicate Answered(before: Heap, ptr: nat, fate: Fate, alignment: nat, size: nat,
        engine: nat -> bool) reads this, memory {
      && (ptr != 0 ==>
           fate == Returned && Accepted(alignment, size) && Served(before, ptr, Aligned(alignment), Rounded(size))
             && ptr % MALLOC_ALIGNMENT == 0 && (alignment > 0 ==> ptr % alignment == 0))
      && (ptr == 0 && fate != Overrun ==> Refused(before))
      && (ptr == 0 && fate == Returned && Accepted(alignment, size) ==>
            Exhausted(shape, Aligned(alignment), Rounded(size))
              && !CanClaim(Rounded(size) + 3 * REGION_SIZE, engine(memory.size)))
      && (fate == Trapped ==> Accepted(alignment, size) && PageCeil(Rounded(size) + 3 * REGION_SIZE) >= HALF_W32)
    }

    /* malloc */
    method Malloc(size: nat, engine: nat -> bool) returns (ptr: nat, fate: Fate)
      requires Valid() && size < W32
      modifies this, memory
      ensures Answered(old(View()), ptr, fate, MALLOC_ALIGNMENT, size, engine)
      ensures ptr != 0 ==>
          size <= MAX_ALLOC_SIZE && ptr % MALLOC_ALIGNMENT == 0 && size + REGION_HEADER_SIZE <= Live()[ptr - 4]
      ensures fate == Overrun ==> size <= MAX_ALLOC_SIZE && !old(Safe(MALLOC_ALIGNMENT, Rounded(size)))
      ensures size <= MAX_ALLOC_SIZE ==>
          old(Foretold(MALLOC_ALIGNMENT, Rounded(size), engine, ptr, fate))
    {
      Sixteen();
      if size <= MAX_ALLOC_SIZE { RequestOk(MALLOC_ALIGNMENT, size); }
      hide HeapOk; hide Refused; hide Exhausted; hide Rounded; hide IsPowerOf2; hide Foretold;
      hide Safe; hide CanClaim;
      ptr, fate := Memalign(MALLOC_ALIGNMENT, size, engine);
    }

    /* aligned_alloc; dividing by an alignment of zero traps. */
    method AlignedAlloc(alignment: nat, size: nat, engine: nat -> bool) returns (ptr: nat, fate: Fate)
      requires Valid() && alignment < W32 && size < W32
      modifies this, memory
      ensures alignment == 0 ==> fate == Trapped && ptr == 0
      ensures alignment > 0 && (alignment % 4 != 0 || size % alignment != 0) ==>
          ptr == 0 && fate == Returned && View() == old(View())
      ensures alignment > 0 && alignment % 4 == 0 && size % alignment == 0 ==>
          Answered(old(View()), ptr, fate, alignment, size, engine)
      ensures ptr != 0 ==> alignment > 0 && ptr % alignment == 0
      ensures fate == Overrun ==> Accepted(alignment, size) && !old(Safe(Aligned(alignment), Rounded(size)))
      ensures alignment > 0 && alignment % 4 == 0 && size % alignment == 0 && Accepted(alignment, size) ==>
          old(Foretold(Aligned(alignment), Rounded(size), engine, ptr, fate))
    {
      hide HeapOk; hide Answered; hide Accepted; hide Aligned; hide Rounded; hide Safe; hide Foretold;
      if alignment % 4 != 0 { return 0, Returned; }
      if alignment == 0 { return 0, Trapped; }
      if size % alignment != 0 { return 0, Returned; }
      ptr, fate := Memalign(alignment, size, engine);
    }

    /* posix_memalign; the result is what is stored through memptr */
    method PosixMemalign(alignment: nat, size: nat, engine: nat -> bool) returns (error: nat, ptr: nat, fate: Fate)
      requires Valid() && alignment < W32 && size < W32
      modifies this, memory
      ensures error == 22 <==> alignment % 4 != 0
      ensures error == 22 ==> ptr == 0 && fate == Returned && View() == old(View())
      ensures error != 22 ==>
          Answered(old(View()), ptr, fate, alignment, size, engine) && error == if ptr != 0 then 0 else 12
      ensures ptr != 0 && alignment > 0 ==> ptr % alignment == 0
      ensures fate == Overrun ==> Accepted(alignment, size) && !old(Safe(Aligned(alignment), Rounded(size)))
      ensures error != 22 && Accepted(alignment, size) ==>
          old(Foretold(Aligned(alignment), Rounded(size), engine, ptr, fate))
    {
      hide HeapOk; hide Answered; hide Accepted; hide Aligned; hide Rounded; hide Safe; hide Foretold;
      if alignment % 4 != 0 { return 22, 0, Returned; }
      ptr, fate := Memalign(alignment, size, engine);
      error := if ptr != 0 then 0 else 12;
    }

    /* malloc_usable_size */
    method UsableSize(ptr: nat) returns (size: nat)
      requires Valid() && (ptr == 0 || (ptr >= 4 && ptr - 4 in Live()))
      ensures size == if ptr == 0 then 0 else Live()[ptr - 4] - REGION_HEADER_SIZE
    {
      if ptr == 0 { return 0; }
      Fields(View(), Limits(), ptr - 4);
      size := Word(mem, ptr - 4) - REGION_HEADER_SIZE;
    }

    /* memcpy between two payloads, by words */
    method Copy(to: nat, from: nat, n: nat)
      requires Valid() && to >= 4 && from >= 4 && to != from && to - 4 in Live() && from - 4 in Live()
      requires Quad(n) && n + REGION_HEADER_SIZE <= Live()[to - 4] && n + REGION_HEADER_SIZE <= Live()[from - 4]
      modifies `mem
      ensures Valid() && OthersKept(shape, shape, old(mem), mem, to - 4)
      ensures SameStart(old(mem), mem, from, to, n)
    {
      ghost var h := View();
      HeapShape(h, Limits());
      Disjoint(shape, to - 4, from - 4);
      OthersSame(shape, mem, to - 4);
      hide HeapOk; hide OthersKept; hide InUse; hide ShapeOk;
      var k: nat := 0;
      while 4 * k < n
        invariant 4 * k <= n && Valid() && OthersKept(shape, shape, h.mem, mem, to - 4)
        invariant SameStart(h.mem, mem, from, to, 4 * k)
        invariant forall a: nat {:trigger Word(mem, a)} | a < to || a >= to + n :: Word(mem, a) == Word(h.mem, a)
      {
        ghost var m1 := mem;
        QuadStep(k, n);
        assert Word(mem, from + 4 * k) == Word(h.mem, from + 4 * k);
        CopyWord(h.mem, m1, from, to, k, n);
        Store(to, 4 * k, Word(mem, from + 4 * k));
        OthersTwice(shape, shape, shape, h.mem, m1, mem, to - 4);
        k := k + 1;
      }
    }

    /* What realloc promises when it returns r for the allocation at ptr. */
    ghost predicate Reallocated(before: Heap, ptr: nat, r: nat, size: nat) reads this, memory {
      && ptr >= 4 && ptr - 4 in LiveOf(before.shape)
      && Valid() && r >= 4 && r - 4 in Live()
      && size + REGION_HEADER_SIZE <= Live()[r - 4] < size + REGION_HEADER_SIZE + REGION_SIZE
      && (r != ptr ==> r - 4 !in LiveOf(before.shape))
      && (forall q :: q in Live() <==> (q in LiveOf(before.shape) && q != ptr - 4) || q == r - 4)
      && PayloadsKept(before.shape - {ptr - 4}, shape, before.mem, mem, 0)
      && SameStart(before.mem, mem, ptr, r, Least(LiveOf(before.shape)[ptr - 4] - REGION_HEADER_SIZE, size))
    }

    /* emmalloc_aligned_realloc */
    method AlignedRealloc(ptr: nat, alignment: nat, size0: nat, engine: nat -> bool) returns (r: nat, fate: Fate)
      requires Valid() && (ptr == 0 || (ptr >= 4 && ptr - 4 in Live())) && IsPowerOf2(alignment) && alignment < W32
          && size0 < W32
      modifies this, memory
      ensures ptr == 0 ==> Answered(old(View()), r, fate, alignment, size0, engine)
      ensures ptr != 0 && size0 == 0 ==>
          r == 0 && fate == Returned && Valid() && Live() == old(Live()) - {ptr - 4}
          && OthersKept(old(shape), shape, old(mem), mem, ptr - 4)
      ensures ptr != 0 && size0 != 0 && r == 0 && fate != Overrun ==> Refused(old(View()))
      ensures ptr != 0 && r != 0 ==>
          fate == Returned && 0 < size0 <= MAX_ALLOC_SIZE && Reallocated(old(View()), ptr, r, Rounded(size0))
          && (r != ptr ==> r % MALLOC_ALIGNMENT == 0 && r % alignment == 0)
      ensures ptr != 0 && 0 < size0 <= MAX_ALLOC_SIZE ==> (r == ptr <==>
          old(RoomFor(ptr - 4, Rounded(size0)) && !ResizeWraps(ptr - 4, Rounded(size0))))
      ensures ptr != 0 && 0 < size0 <= MAX_ALLOC_SIZE && Rounded(size0) <= MAX_ALLOC_SIZE && r == 0
              && fate == Returned ==>
                Exhausted(shape, Aligned(alignment), Rounded(size0))
                  && !CanClaim(Rounded(size0) + 3 * REGION_SIZE, engine(memory.size))
      ensures fate == Trapped ==> size0 <= MAX_ALLOC_SIZE && PageCeil(Rounded(size0) + 3 * REGION_SIZE) >= HALF_W32
      ensures ptr != 0 && fate == Overrun ==> 0 < size0 <= MAX_ALLOC_SIZE
      ensures ptr != 0 && 0 < size0 <= MAX_ALLOC_SIZE && old(ResizeWraps(ptr - 4, Rounded(size0))) ==> fate == Overrun
      ensures fate == Overrun ==>
          !old(Safe(Aligned(alignment), Rounded(size0))) || (ptr != 0 && old(ResizeWraps(ptr - 4, Rounded(size0))))
      ensures ptr == 0 && Accepted(alignment, size0) ==>
          old(Foretold(Aligned(alignment), Rounded(size0), engine, r, fate))
      ensures ptr != 0 && 0 < size0 <= MAX_ALLOC_SIZE && Rounded(size0) <= MAX_ALLOC_SIZE
              && old(!RoomFor(ptr - 4, Rounded(size0)) && !ResizeWraps(ptr - 4, Rounded(size0))) ==>
          old(Foretold(Aligned(alignment), Rounded(size0), engine, r, fate))
    {
      hide HeapOk; hide Refused; hide Exhausted; hide Aligned; hide Rounded; hide IsPowerOf2; hide OthersKept;
      hide PayloadsKept; hide KeptTo; hide Reallocated; hide Served; hide Safe; hide CanClaim; hide Foretold;
      assert alignment > 0 by { PowerPositive(alignment); }
      fate := Returned;
      if ptr == 0 {
        r, fate := Memalign(alignment, size0, engine);
        return;
      }
      if size0 == 0 {
        Free(ptr);
        return 0, Returned;
      }
      if size0 > MAX_ALLOC_SIZE {
        RefusedAll();
        return 0, Returned;
      }
      var size := Rounded(size0);
      RequestOk(alignment, size0);
      ghost var h := View();
      var region := ptr - 4;
      PayloadOf(h, Limits(), region);
      QuadSum(size, REGION_HEADER_SIZE);
      var ok, overrun := AttemptRegionResize(region, size + REGION_HEADER_SIZE);
      if overrun { return 0, Overrun; }
      if ok {
        ResizedInPlace(h, ptr, size);
        return ptr, Returned;
      }
      r, fate := Memalign(alignment, size, engine);
      if r != 0 {
        MoveTo(h, ptr, r, alignment, size);
      }
    }

    /* An allocation of `size` bytes fits from the start of the region to the end of the free memory after it. */
    ghost predicate RoomFor(region: nat, size: nat) reads this {
      region in shape && region + size + REGION_HEADER_SIZE <= FreeEnd(shape, region)
    }

    /* The new end of the region passes 2^32, next to a free region. */
    ghost predicate ResizeWraps(region: nat, size: nat) reads this {
      FreeAt(shape, End(shape, region)) && W32 <= region + size + REGION_HEADER_SIZE + REGION_SIZE
    }

    /* The 32-bit test for room after a region: it holds if there is room, or once the sum wraps. */
    lemma ResizeTest(region: nat, size: nat, end: nat)
      requires region < end < W32 && size + REGION_SIZE < W32
      ensures ((region + size) % W32 + REGION_SIZE) % W32 <= end <==>
          region + size + REGION_SIZE <= end || W32 <= region + size + REGION_SIZE
      ensures region + size + REGION_SIZE < W32 ==> (region + size) % W32 == region + size
    {}

    /* The largest request that passes the check wraps wherever a free region follows. */
    lemma LargestWraps(region: nat)
      requires Valid() && region in Live() && FreeAt(shape, End(shape, region))
      ensures Rounded(MAX_ALLOC_SIZE) == 0xFFFF_FFC8 && ResizeWraps(region, Rounded(MAX_ALLOC_SIZE))
    {
      PayloadOf(View(), Limits(), region);
      Pow2Values();
      Pow2IsPower(2);
      AlignUpOk(MAX_ALLOC_SIZE, 4);
    }

    /* Such a state is reached with the first malloc. */
    static method GrowsPastEnd() returns (m: Emmalloc, ptr: nat)
      ensures fresh(m) && m.Valid() && ptr >= 4 && ptr - 4 in m.Live()
      ensures m.ResizeWraps(ptr - 4, Rounded(MAX_ALLOC_SIZE))
    {
      var memory := new LinearMemory(1);
      m := new Emmalloc(memory, 0, HEADS_SIZE);
      var success, fate := m.ClaimMoreMemory(SMALLEST_ALLOCATION_SIZE + 3 * REGION_SIZE, false);
      m.UnlinkWhole(HEADS_SIZE + REGION_SIZE);
      ptr := m.AllocateIn(HEADS_SIZE + REGION_SIZE, 12, SMALLEST_ALLOCATION_SIZE);
      m.LargestWraps(ptr - 4);
    }

    /* The rest of realloc, once there is a new allocation: the payload is copied to it, and the old one is freed. */
    method MoveTo(ghost h: Heap, ptr: nat, newptr: nat, ghost alignment: nat, size: nat)
      requires ptr >= 4 && ptr - 4 in LiveOf(h.shape) && alignment < W32 && Quad(size)
          && Served(h, newptr, Aligned(alignment), size)
      modifies `mem, `freeRegionBucketsUsed, `shape, `rings, `loose
      ensures newptr != ptr && newptr % Aligned(alignment) == 0 && Reallocated(h, ptr, newptr, size)
    {
      hide HeapOk; hide OthersKept; hide PayloadsKept; hide LiveOf; hide Aligned;
      ghost var h1 := View();
      var region := ptr - 4;
      assert Live()[region] >= LiveOf(h.shape)[region];
      PayloadOf(h1, Limits(), region);
      PayloadOf(h1, Limits(), newptr - 4);
      var usable := UsableSize(ptr);
      QuadSum(usable + REGION_HEADER_SIZE, REGION_HEADER_SIZE);
      var n: nat := Least(size, usable);
      Copy(newptr, ptr, n);
      ghost var h2 := View();
      Free(ptr);
      Moved(h.shape, h1.shape, shape, h.mem, h1.mem, h2.mem, mem, region, newptr - 4, size, n);
    }

    lemma PowerPositive(a: nat)
      requires IsPowerOf2(a)
      ensures a > 0
    {}

    lemma RefusedAll()
      requires Valid()
      ensures Refused(View())
    {
      PayloadsSame(shape, mem);
    }

    /* An allocation resized in place is reallocated there. */
    lemma ResizedInPlace(h: Heap, ptr: nat, size: nat)
      requires ptr >= 4 && Resized(h, ptr - 4, size + REGION_HEADER_SIZE) && ptr - 4 in LiveOf(h.shape)
      ensures Reallocated(h, ptr, ptr, size)
    {
      hide Valid;
      var p := ptr - 4;
      StartKept(h.mem, mem, p, Least(LiveOf(h.shape)[p], size + REGION_HEADER_SIZE),
        Least(LiveOf(h.shape)[p] - REGION_HEADER_SIZE, size));
      var s0 := h.shape - {p};
      forall q: nat | q in LiveOf(s0) && q != 0
        ensures Kept(s0, h.mem, mem, q) && q in Live() && LiveOf(s0)[q] <= Live()[q] {
        assert InUse(h.shape, q) && Kept(h.shape, h.mem, mem, q);
        assert End(s0, q) == End(h.shape, q);
      }
    }

    /* realloc */
    method Realloc(ptr: nat, size: nat, engine: nat -> bool) returns (r: nat, fate: Fate)
      requires Valid() && (ptr == 0 || (ptr >= 4 && ptr - 4 in Live())) && size < W32
      modifies this, memory
      ensures ptr == 0 ==> Answered(old(View()), r, fate, MALLOC_ALIGNMENT, size, engine)
      ensures ptr != 0 && size == 0 ==>
          r == 0 && fate == Returned && Valid() && Live() == old(Live()) - {ptr - 4}
          && OthersKept(old(shape), shape, old(mem), mem, ptr - 4)
      ensures ptr != 0 && size != 0 && r == 0 && fate != Overrun ==> Refused(old(View()))
      ensures ptr != 0 && r != 0 ==>
          fate == Returned && Reallocated(old(View()), ptr, r, Rounded(size))
          && (r != ptr ==> r % MALLOC_ALIGNMENT == 0)
      ensures ptr != 0 && 0 < size <= MAX_ALLOC_SIZE ==> (r == ptr <==>
          old(RoomFor(ptr - 4, Rounded(size)) && !ResizeWraps(ptr - 4, Rounded(size))))
      ensures ptr != 0 && 0 < size <= MAX_ALLOC_SIZE && Rounded(size) <= MAX_ALLOC_SIZE && r == 0
              && fate == Returned ==>
          Exhausted(shape, MALLOC_ALIGNMENT, Rounded(size))
          && !CanClaim(Rounded(size) + 3 * REGION_SIZE, engine(memory.size))
      ensures fate == Trapped ==> size <= MAX_ALLOC_SIZE && PageCeil(Rounded(size) + 3 * REGION_SIZE) >= HALF_W32
      ensures ptr != 0 && 0 < size <= MAX_ALLOC_SIZE && old(ResizeWraps(ptr - 4, Rounded(size))) ==> fate == Overrun
      ensures fate == Overrun ==>
          !old(Safe(MALLOC_ALIGNMENT, Rounded(size))) || (ptr != 0 && old(ResizeWraps(ptr - 4, Rounded(size))))
      ensures ptr == 0 && size <= MAX_ALLOC_SIZE ==>
          old(Foretold(MALLOC_ALIGNMENT, Rounded(size), engine, r, fate))
      ensures ptr != 0 && 0 < size <= MAX_ALLOC_SIZE && Rounded(size) <= MAX_ALLOC_SIZE
              && old(!RoomFor(ptr - 4, Rounded(size)) && !ResizeWraps(ptr - 4, Rounded(size))) ==>
          old(Foretold(MALLOC_ALIGNMENT, Rounded(size), engine, r, fate))
    {
      Sixteen();
      hide HeapOk; hide Refused; hide Exhausted; hide Rounded; hide IsPowerOf2; hide Reallocated; hide Served;
      hide OthersKept; hide Safe; hide CanClaim; hide Answered; hide Foretold;
      r, fate := AlignedRealloc(ptr, MALLOC_ALIGNMENT, size, engine);
    }
  }

  /* What the size words of a free region and of the one before it hold. */
  lemma FreeFields(h: Heap, w: Bounds, f: nat)
    requires HeapOk(h, w) && FreeAt(h.shape, f)
    ensures var s, b := h.shape, h.shape[f].prev;
      && b in s && End(s, b) == f && f >= 16 && Quad(f) && Quad(s[b].size) && Quad(s[f].size)
      && s[b].size >= REGION_SIZE && s[f].size >= REGION_SIZE
      && Word(h.mem, f) == s[f].size && Word(h.mem, b) == s[b].size && Word(h.mem, f - 4) == s[b].size
      && DecodeCeilingSize(s[b].size) == s[b].size
      && End(s, f) + REGION_SIZE <= w.limit <= W32
  {
    var s := h.shape;
    NoFreeNeighbours(s, f);
    assert RegOk(s, f) && RegOk(s, s[f].prev);
    assert Marked(h.mem, s, f) && Marked(h.mem, s, s[f].prev);
    Encoding(s[s[f].prev].size);
    assert RegOk(s, End(s, f)) && End(s, End(s, f)) <= w.limit;
  }

  /* What the words of an end sentinel and of the region before it hold. */
  lemma LastFields(h: Heap, w: Bounds, t: nat)
    requires ListPart(h, w) && MarksPart(h.mem, h.shape) && t in h.shape && h.shape[t].kind == Sentinel
    ensures var s, b := h.shape, h.shape[t].prev;
      && b in s && End(s, b) == t && b >= 4 && t >= 16 && Quad(s[b].size) && s[b].size >= REGION_SIZE
      && s[b].kind != Sentinel
      && Word(h.mem, b) == s[b].size && Word(h.mem, t + 12) == 16 && DecodeCeilingSize(16) == 16
      && Word(h.mem, t - 4) == s[b].size + (if FreeAt(s, b) then 1 else 0)
      && DecodeCeilingSize(Word(h.mem, t - 4)) == s[b].size
      && (Word(h.mem, t - 4) % 2 == 1 <==> FreeAt(s, b)) && End(s, t) == t + 16 && w.base <= b
  {
    var s := h.shape;
    assert RegOk(s, t) && RegOk(s, s[t].prev);
    assert Marked(h.mem, s, t) && Marked(h.mem, s, s[t].prev);
    assert End(s, s[t].prev) <= w.limit;
    hide ListPart; hide MarksPart; hide DecodeCeilingSize; hide ShapeOk;
    Encoding(s[s[t].prev].size);
    Encoding(16);
  }

  /* The same for the newest block, and that it can be extended. */
  lemma SentinelFields(h: Heap, w: Bounds, t: nat)
    requires HeapOk(h, w) && h.blocks != [] && h.blocks[0].end == t + REGION_SIZE == w.limit && h.loose == {}
    ensures var s := h.shape;
      && t in s && s[t].kind == Sentinel && h.blocks[0].start in s && s[h.blocks[0].start].kind == Root
      && w.heads + HEADS_SIZE <= w.base <= h.blocks[0].start
      && s[t].prev in s && End(s, s[t].prev) == t && ShapeOk(s) && h.blocks[0].start + 16 <= w.limit
      && (forall end: nat {:trigger CanExtend(s, t, end)} | Quad(end) && end >= t + 2 * REGION_SIZE ::
           CanExtend(s, t, end))
      && Word(h.mem, t + 12) == 16 && DecodeCeilingSize(16) == 16 && t >= 16
      && DecodeCeilingSize(Word(h.mem, t - 4)) == s[s[t].prev].size && s[t].prev + s[s[t].prev].size == t
      && h.blocks[0].start + 8 + 4 <= t
  {
    assert BlockOk(h.mem, h.shape, h.blocks, 0);
    LastFields(h, w, t);
    var s, r := h.shape, h.blocks[0].start;
    assert End(s, r) <= w.limit && RegOk(s, r);
    Disjoint(s, r, t);
    forall p | p in s ensures End(s, p) <= End(s, t) { assert End(s, p) <= w.limit; }
  }

  const HALF_W32: nat := 0x8000_0000

  lemma PageQuad(x: nat)
    requires x % PAGESIZE == 0 || Paged(x)
    ensures Quad(x)
  {
    assert x == 4 * (0x4000 * (x / PAGESIZE));
  }

  lemma AtLeastOnePage(x: nat)
    requires Paged(x) && x > 0
    ensures x >= PAGESIZE && x % PAGESIZE == 0
  {}

  /* What the head of the list of blocks tells. */
  lemma ListHead(h: Heap, w: Bounds)
    requires HeapOk(h, w)
    ensures h.blocks != [] ==>
        h.blocks[0].start in h.shape && h.blocks[0].start >= w.base >= HEADS_SIZE
        && Word(h.mem, h.blocks[0].start + 8) == Address(h.blocks[0].end)
    ensures h.blocks != [] ==> REGION_SIZE <= h.blocks[0].end <= w.limit && h.blocks[0].end - REGION_SIZE in h.shape
    ensures w.base >= HEADS_SIZE
  {
    if h.blocks != [] {
      assert BlockOk(h.mem, h.shape, h.blocks, 0);
      assert RegOk(h.shape, h.blocks[0].end - REGION_SIZE);
      assert End(h.shape, h.blocks[0].start) <= w.limit && End(h.shape, h.blocks[0].end - REGION_SIZE) <= w.limit;
    }
  }

  lemma ExtendStartBounds(h: Heap, w: Bounds)
    requires HeapOk(h, w) && h.blocks != [] && h.blocks[0].end == w.limit
    ensures h.blocks[0].start <= w.limit && w.limit >= REGION_SIZE && w.limit - REGION_SIZE in h.shape
        && w.base <= ExtendStart(h.shape, w.limit - REGION_SIZE) <= w.limit - REGION_SIZE
  {
    assert BlockOk(h.mem, h.shape, h.blocks, 0);
    assert RegOk(h.shape, w.limit - REGION_SIZE);
    assert End(h.shape, ExtendStart(h.shape, w.limit - REGION_SIZE)) <= w.limit;
  }

  lemma ClaimedSuits(s: Shape, blocks: seq<Block>, limit: nat, lo: nat, alignment: nat, size: nat)
    requires TopIs(s, blocks, limit, lo) && alignment > 0
    ensures SuitsAt(s, lo, alignment, size) <==> CeilTo(lo + 4, alignment) + size + 4 + REGION_SIZE <= limit
  {}

  lemma Claimable(h: Heap, w: Bounds, start: nat, end: nat)
    requires HeapOk(h, w) && Quad(start) && Quad(end) && start > 0 && end >= start + 3 * REGION_SIZE
    requires start == w.limit || (h.shape == map[] && start <= w.limit)
    ensures CanAdd(h.shape, start, end)
  {
    forall p | p in h.shape ensures End(h.shape, p) <= start { assert End(h.shape, p) <= w.limit; }
  }

  lemma RootNotLive(s: Shape, r: nat)
    requires r in s && s[r].kind == Root
    ensures r !in LiveOf(s)
  {}

  /* Memory beyond all regions holds no links. */
  lemma BeyondAll(h: Heap, w: Bounds, m: Mem, m': Mem, a: nat)
    requires HeapOk(h, w) && a >= w.limit && w.heads + HEADS_SIZE <= w.limit
        && OnlyLinks(m, m', ListedOf(h.shape, {}), w.heads)
    ensures Word(m', a) == Word(m, a)
  {
    assert forall x | x in h.shape :: End(h.shape, x) <= w.limit && RegOk(h.shape, x);
    assert Outside(ListedOf(h.shape, {}), w.heads, a);
  }

  lemma LastSentinel(h: Heap, w: Bounds, t: nat)
    requires HeapOk(h, w) && h.blocks != [] && h.blocks[0].end == t + REGION_SIZE == w.limit && h.loose == {}
    ensures t in h.shape && h.shape[t].kind == Sentinel && h.shape[t].prev in h.shape && w.heads + HEADS_SIZE <= w.limit
    ensures Quad(ExtendStart(h.shape, t)) && ExtendStart(h.shape, t) <= t
  {
    SentinelFields(h, w, t);
    assert RegOk(h.shape, t) && RegOk(h.shape, h.shape[t].prev);
    hide HeapOk;
  }

  lemma WidenPart(h: Heap, w: Bounds, w': Bounds)
    requires ListPart(h, w) && w' == w.(limit := w'.limit) && w.limit <= w'.limit <= W32
    ensures ListPart(h, w')
  {
    GrowRange(h.shape, w.base, w.limit, w'.limit);
  }

  lemma StepMarks(h: Heap, h': Heap)
    requires MarksPart(h.mem, h.shape) && ListStep(h, h')
    ensures MarksPart(h'.mem, h'.shape)
  {
    forall q | q in h'.shape ensures Marked(h'.mem, h'.shape, q) { assert Marked(h.mem, h.shape, q); }
  }

  lemma StepSame(h: Heap)
    ensures ListStep(h, h)
  {}

  lemma ExtendedWords(h: Heap, m: Mem, s': Shape, t: nat, end: nat)
    requires t in h.shape && end - REGION_SIZE >= ExtendStart(h.shape, t) + REGION_SIZE
    requires Word(h.mem, end - REGION_SIZE) == 16 && Word(h.mem, end - REGION_SIZE + 12) == 16
    requires var lo, e := ExtendStart(h.shape, t),
        end - REGION_SIZE; m == h.mem[lo := e - lo][lo + (e - lo) - 4 := e - lo + 1]
    ensures ExtendWords(h, h.(mem := m, shape := s', loose := {ExtendStart(h.shape, t)}), t, end)
  {}

  lemma AlignedStart(f: nat, alignment: nat)
    requires Quad(f) && IsPowerOf2(alignment) && 4 <= alignment <= W32 && f + 4 < W32
    ensures f + 4 <= AlignUp(f + 4, alignment) ==>
        Quad(AlignUp(f + 4, alignment) - (f + 4)) && AlignUp(f + 4, alignment) % alignment == 0
    ensures AlignUp(f + 4, alignment) == (if CeilTo(f + 4, alignment) < W32 then CeilTo(f + 4, alignment) else 0)
    ensures f + 4 <= CeilTo(f + 4, alignment) <= W32
  {
    AlignUpWraps(f + 4, alignment);
    Pow2Values();
    Pow2IsPower(2);
    if f + 4 <= AlignUp(f + 4, alignment) {
      Finer(AlignUp(f + 4, alignment), 4, alignment);
      QuadSum(f, 4);
      QuadSum(AlignUp(f + 4, alignment), f + 4);
    }
  }

  lemma SizeWordBut(h: Heap, p: nat, q: nat)
    requires MarkedBut(h.mem, h.shape, p) && q in h.shape && q != p
    ensures Word(h.mem, q) == h.shape[q].size
  {
    assert Marked(h.mem, h.shape, q);
  }

  lemma Sixteen()
    ensures IsPowerOf2(MALLOC_ALIGNMENT)
  {
    Pow2Values();
    Pow2IsPower(4);
  }

  lemma PayloadOf(h: Heap, w: Bounds, p: nat)
    requires HeapOk(h, w) && p in LiveOf(h.shape)
    ensures p in h.shape && Quad(LiveOf(h.shape)[p]) && LiveOf(h.shape)[p] == h.shape[p].size >= REGION_SIZE
        && p + REGION_SIZE <= w.limit
  {
    assert RegOk(h.shape, p) && End(h.shape, p) <= w.limit;
  }

  lemma QuadStep(k: nat, n: nat)
    requires 4 * k < n && Quad(n)
    ensures 4 * k + 4 <= n
  {}

  /* Memory is at least a page, and regions end where it does. */
  lemma SomePage(h: Heap, w: Bounds, alignment: nat, size: nat)
    requires HeapOk(h, w) && w.base <= w.limit && w.limit % PAGESIZE == 0 && Request(alignment, size)
        && w.limit + 3 * REGION_SIZE + alignment + size <= W32
    ensures NoWrapping(h.shape, alignment, size) && PAGESIZE <= w.limit
  {
    forall f: nat | FreeAt(h.shape, f) ensures !WrapsAt(h.shape, f, alignment, size) {
      assert RegOk(h.shape, f) && RegOk(h.shape, End(h.shape, f)) && End(h.shape, End(h.shape, f)) <= w.limit;
      Ceiling(f + 4, alignment);
    }
  }

  /* Writing what is there already. */
  lemma SameWrite(m: Mem, a: nat)
    requires Word(m, a) != 0
    ensures m[a := Word(m, a)] == m
  {}

  lemma SizeWord(h: Heap, p: nat)
    requires MarksPart(h.mem, h.shape) && p in h.shape
    ensures Word(h.mem, p) == h.shape[p].size
  {
    assert Marked(h.mem, h.shape, p);
  }

  lemma NothingLoose(h: Heap)
    requires h.loose == {}
    ensures forall q {:trigger q in ListedOf(h.shape, h.loose)} :: q in ListedOf(h.shape, h.loose) <==>
        FreeAt(h.shape, q)
  {}
}
