/** dlmalloc for wasm32: no mmap, no trimming, 16-byte alignment, no footers. */
module DlMalloc {
  import opened Words
  import opened Alignment
  import opened DlChunk
  import opened DlBinMap
  import opened DlHeap
  import opened DlSmallBins
  import opened DlTreeBins
  import opened DlTreeSearch
  import opened DlRequest
  import opened DlIndex
  import opened DlGrow
  import opened DlSegments
  import opened Sbrk

  class Malloc {
    const smalls: SmallBins
    const trees: TreeBins
    const memory: LinearMemory

    var head: map<Ptr, Head>
    var foot: map<Ptr, nat>
    var dv: Ptr
    var dvsize: nat
    var top: Ptr
    var topsize: nat
    var segs: seq<Segment>
    var noncontiguous: bool

    ghost var chunks: map<Ptr, Chunk>
    ghost var areas: map<nat, Area>
    ghost var cur: nat
    ghost var records: set<Ptr>

    ghost function View(): Heap reads this { Heap(head, foot, chunks, areas, cur, topsize) }

    /* Every binned chunk with its size. */
    ghost function Bins(): map<Ptr, nat> reads smalls, trees { smalls.Sizes() + trees.Sizes() }

    /* Small chunks are in smallbins, large ones in treebins, none in both. */
    ghost predicate BinsOk() reads smalls, trees {
      && smalls.Valid() && trees.Valid() && smalls.Sizes().Keys !! trees.Sizes().Keys
      && (forall p | p in smalls.Sizes() :: IsSmall(smalls.Sizes()[p]))
      && (forall p | p in trees.Sizes() :: !IsSmall(trees.Sizes()[p]))
    }

    ghost predicate DvOk() reads this {
      if dv == 0 then dvsize == 0
      else dv in chunks && !chunks[dv].used && dvsize == chunks[dv].size
    }

    ghost predicate TopOfHeap() reads this {
      if top == 0 then topsize == 0 && chunks == map[] && areas == map[]
      else cur in areas && top == areas[cur].hi
    }

    ghost predicate Valid() reads this, smalls, trees, memory {
      SegmentsOk() && BinsOk() && HeapOk(View()) && Bins() == FreeBins(chunks, dv) && DvOk() && TopOfHeap()
        && RecordsIn(View(), records)
    }

    /* The segment list, the newest and topmost segment first.  The heap lies in memory obtained
       from sbrk, which others may have grown since. */
    ghost predicate SegmentsOk() reads `segs, `top, `topsize, `areas, `cur, memory {
      memory.Valid() && SegmentsIn(segs, top, topsize, areas, cur, memory.size)
    }

    /* The chunks handed out and not yet freed, with their sizes. */
    ghost function Live(): map<Ptr, nat> reads this {
      LiveIn(View(), records)
    }

    /* The state before the first call: _gm_ is all zeros. */
    constructor (memory: LinearMemory)
      requires memory.Valid()
      ensures Valid() && Live() == map[] && this.memory == memory && fresh(smalls) && fresh(trees)
      ensures top == 0 && !noncontiguous
    {
      this.memory := memory;
      smalls := new SmallBins();
      trees := new TreeBins();
      head, foot, dv, dvsize, top, topsize, segs, noncontiguous := map[], map[], 0, 0, 0, 0, [], false;
      chunks, areas, cur, records := map[], map[], 0, {};
      new;
      NothingYet(View());
      hide SmallBins.Valid; hide TreeBins.Valid; hide HeapOk; hide RecordsIn; hide LiveIn; hide FreeBins;
    }

    /* What callers own: payloads are aligned, lie in memory, and do not overlap.  (A payload may run
       into the first word of the next chunk, which is a foot only while the chunk is free.) */
    lemma LivePayloads(p: Ptr, q: Ptr)
      requires Valid() && p in Live() && q in Live() && p < q
      ensures Chunk2Mem(p) % 16 == 0 && Chunk2Mem(q) % 16 == 0
      ensures p < Chunk2Mem(p) && Chunk2Mem(p) + (Live()[p] - CHUNK_OVERHEAD) == p + Live()[p] + 4
      ensures Chunk2Mem(p) + (Live()[p] - CHUNK_OVERHEAD) < Chunk2Mem(q)
      ensures Chunk2Mem(q) + (Live()[q] - CHUNK_OVERHEAD) < memory.size
    {
      hide SmallBins.Valid; hide TreeBins.Valid; hide BinsOk; hide HeapOk; hide RecordsIn; hide FreeBins; hide LiveIn;
      LiveFacts(View(), records, p);
      LiveFacts(View(), records, q);
      assert cur in areas && View().Top() + topsize <= memory.size;
      AreasBelow();
      hide Valid; hide SegmentsIn;
      Payloads(View(), p, q);
    }

    lemma Payloads(h: Heap, p: Ptr, q: Ptr)
      requires HeapOk(h) && p in h.chunks && q in h.chunks && p < q && forall i | i in h.areas ::
          h.areas[i].hi <= h.Top()
      ensures p % 16 == 8 && q % 16 == 8 && p + h.chunks[p].size <= q
      ensures q + h.chunks[q].size <= h.Top() + h.topsize
    {
      assert Placed(h, p) && Placed(h, q) && Clear(h, p, q);
      assert AreaOk(h, h.chunks[q].seg);
    }

    /* Other users of sbrk do not disturb the heap. */
    method OthersGrow(pages: nat, available: bool)
      requires Valid()
      modifies memory
      ensures Valid() && Live() == old(Live())
      ensures available && old(memory.size) + pages * PAGESIZE <= W32 ==>
          memory.size == old(memory.size) + pages * PAGESIZE
    {
      hide SmallBins.Valid; hide TreeBins.Valid; hide HeapOk; hide BinsOk;
      var br := memory.Sbrk(pages * PAGESIZE, available);
    }

    /* insert_chunk */
    method InsertChunk(p: Ptr, s: nat)
      requires BinsOk() && HeapOk(View()) && p in chunks && chunks[p].size == s
      requires p !in Bins() && forall x | x in Bins() :: x in chunks && chunks[x].size == Bins()[x]
      modifies smalls, trees
      ensures BinsOk() && Bins() == old(Bins())[p := s]
    {
      hide SmallBins.Valid; hide TreeBins.Valid;
      ChunkFacts(View(), p);
      SmallSizes(s);
      if IsSmall(s) {
        smalls.Insert(p, s);
      } else {
        HeadsOf(View(), trees.Sizes());
        trees.InsertLarge(head, p, s);
      }
    }

    /* unlink_chunk */
    method UnlinkChunk(p: Ptr, s: nat)
      requires BinsOk() && p in Bins() && Bins()[p] == s
      modifies smalls, trees
      ensures BinsOk() && Bins() == old(Bins()) - {p}
    {
      hide SmallBins.Valid; hide TreeBins.Valid;
      if IsSmall(s) {
        smalls.Unlink(p, s);
      } else {
        trees.UnlinkLarge(p);
      }
    }

    /* ---- dlfree and dispose_chunk ---- */

    /* Midway through coalescing: in `h` the chunks gathered so far are one chunk p in use, while
       the words still show p0 as it was.  `rest` are the live chunks besides p. */
    ghost predicate Pending(h: Heap, p: Ptr, psize: nat, p0: Ptr, rest: map<Ptr, nat>)
      reads this, smalls, trees, memory
    {
      && SegmentsOk() && BinsOk() && HeapOk(h) && p in h.chunks && h.chunks[p].used && h.chunks[p].size == psize
      && p !in records
      && p in h.head && h.head[p].pinuse && (p0 == p || p < p0 < p + psize)
      && h.foot == foot && h.areas == areas && h.cur == cur && h.topsize == topsize
      && (forall k | k in h.head && k != p && k != p0 :: k in head && head[k] == h.head[k])
      && Bins() == FreeBins(h.chunks, dv)
      && (if dv == 0 then dvsize == 0
          else dv == p || (dv in h.chunks && !h.chunks[dv].used && dvsize == h.chunks[dv].size))
      && cur in areas && top == areas[cur].hi && top != 0
      && RecordsIn(h, records) && LiveIn(h, records) - {p} == rest
    }

    /* All is well but for the free chunk p, which is in no bin yet. */
    ghost predicate Unbinned(p: Ptr, rest: map<Ptr, nat>) reads this, smalls, trees, memory {
      && SegmentsOk() && BinsOk() && HeapOk(View()) && p in chunks && !chunks[p].used && top != 0 && TopOfHeap()
      && RecordsIn(View(), records) && Live() == rest
      && Bins() == FreeBins(chunks, dv) - {p}
      && (p != dv ==> DvOk())
    }

    /* The heap `h` goes with the segments and the bins once v, of vsize bytes, is the designated
       victim; the free chunks but `loose` are in bins, and the live chunks are `rest`. */
    ghost predicate Built(h: Heap, loose: set<Ptr>, rest: map<Ptr, nat>, v: Ptr, vsize: nat)
      reads `records, `segs, smalls, trees, memory
    {
      && memory.Valid() && BinsOk() && HeapOk(h) && h.cur in h.areas && h.Top() != 0
      && SegmentsIn(segs, h.Top(), h.topsize, h.areas, h.cur, memory.size)
      && RecordsIn(h, records) && LiveIn(h, records) == rest && Bins() == FreeBins(h.chunks, v) - loose
      && (if v == 0 then vsize == 0
          else v in loose || (v in h.chunks && !h.chunks[v].used && vsize == h.chunks[v].size))
    }

    /* The state has come to hold what `h` says, though some dead words may differ. */
    ghost predicate Holds(h: Heap) reads this {
      HeapOk(View()) && chunks == h.chunks && areas == h.areas && cur == h.cur && topsize == h.topsize && cur in areas
        && top == h.Top()
    }

    lemma BuiltValid(h: Heap, rest: map<Ptr, nat>)
      requires Holds(h) && Built(h, {}, rest, dv, dvsize)
      ensures Valid() && Live() == rest
    {
      hide SmallBins.Valid; hide TreeBins.Valid; hide BinsOk; hide HeapOk; hide SegmentsIn; hide LiveIn; hide RecordsIn;
      SameIndex(h, View(), records);
      assert FreeBins(chunks, dv) - {} == FreeBins(chunks, dv);
    }

    /* The same when the words are those of h. */
    lemma MatchesValid(h: Heap, rest: map<Ptr, nat>)
      requires head == h.head && foot == h.foot && chunks == h.chunks && areas == h.areas && cur == h.cur
          && topsize == h.topsize && cur in areas && top == h.Top()
      requires Built(h, {}, rest, dv, dvsize)
      ensures Valid() && Live() == rest
    {
      hide Valid; hide Live; hide HeapOk; hide SegmentsIn; hide BinsOk; hide LiveIn; hide RecordsIn; hide FreeBins;
      assert View() == h;
      BuiltValid(h, rest);
    }

    lemma BuiltUnbinned(h: Heap, p: Ptr, rest: map<Ptr, nat>)
      requires Holds(h) && Built(h, {p}, rest, dv, dvsize) && p in chunks && !chunks[p].used
      ensures Unbinned(p, rest)
    {
      hide SmallBins.Valid; hide TreeBins.Valid; hide BinsOk; hide HeapOk; hide SegmentsIn; hide LiveIn; hide RecordsIn;
      hide FreeBins;
      SameIndex(h, View(), records);
    }

    lemma FreedPlan(p: Ptr, psize: nat, h: Heap, p0: Ptr, rest: map<Ptr, nat>)
      requires Pending(h, p, psize, p0, rest) && p + psize in h.chunks && h.chunks[p + psize].used
      requires p + psize in head && p + psize in h.head && head[p + psize] == h.head[p + psize]
      ensures p in h.chunks && h.End(p) in h.head && Built(Release(h, p), {p}, rest, dv, dvsize) && psize > 1
      ensures var h', next, d := Release(h, p), p + psize, if p0 == p then p + 1 else p0;
              && p in h'.chunks && !h'.chunks[p].used && h'.chunks[p].size == psize && p < d < p + psize
              && h'.foot == foot[next := psize] && h'.areas == areas && h'.cur == cur && h'.topsize == topsize
              && cur in areas && top == h'.Top()
              && HeadsBut(h'.head, head[next := head[next].(pinuse := false)][p := Head(psize, false, true)], d)
    {
      hide SegmentsIn; hide BinsOk; hide HeapOk; hide RecordsIn; hide LiveIn; hide FreeBins;
      ReleaseOk(h, p);
      ChunkFacts(h, p);
      FreedIndex(h, Release(h, p), p, dv, records);
    }

    /* set_free_with_pinuse(p, psize, next), when the next chunk is in use */
    method SetFree(p: Ptr, psize: nat, next: Ptr, ghost h: Heap, ghost p0: Ptr, ghost rest: map<Ptr, nat>)
      requires Pending(h, p, psize, p0, rest) && next == p + psize && next in h.chunks && h.chunks[next].used
      requires next in head && next in h.head && head[next] == h.head[next]
      modifies `head, `foot, `chunks
      ensures Unbinned(p, rest) && chunks[p].size == psize
    {
      hide *;
      FreedPlan(p, psize, h, p0, rest);
      ghost var h' := Release(h, p);
      head := head[next := head[next].(pinuse := false)];
      head := head[p := Head(psize, false, true)];
      foot := foot[p + psize := psize];
      chunks := h'.chunks;
      FreedValid(h', p, if p0 == p then p + 1 else p0, rest);
    }

    lemma FreedValid(h: Heap, p: Ptr, d: Ptr, rest: map<Ptr, nat>)
      requires Built(h, {p}, rest, dv, dvsize) && HeadsBut(h.head, head, d)
      requires chunks == h.chunks && areas == h.areas && cur == h.cur && topsize == h.topsize && foot == h.foot
      requires cur in areas && top == h.Top() && p in chunks && !chunks[p].used && p < d < p + chunks[p].size
      ensures Unbinned(p, rest)
    {
      hide SegmentsIn; hide BinsOk; hide HeapOk; hide RecordsIn; hide LiveIn; hide FreeBins; hide Unbinned;
      DeadInChunk(h, View(), p, d, d);
      BuiltUnbinned(h, p, rest);
    }

    /* What becomes of the designated victim, d of dsize bytes, when a chunk is freed: it stays, or top takes it in
       with the chunk, or the chunk joins it at its start, or at its end. */
    ghost predicate DvFollows(d: Ptr, dsize: nat) reads `dv, `dvsize, `top {
      dv == d || (d != 0 && dv == 0 && top == d) || (0 < dv < d && dv + dvsize == d + dsize)
    }

    /* dlfree on a chunk in use, and dispose_chunk, which differ in nothing that is left in this
       build: consolidate p0 with its free neighbours and bin the result, unless it joins top or
       is, or takes in, the designated victim. */
    method DisposeChunk(p0: Ptr, psize0: nat)
      requires Valid() && p0 in Live() && psize0 == Live()[p0]
      modifies this, smalls, trees
      ensures Valid() && Live() == old(Live()) - {p0}
      ensures records == old(records)
      ensures DvFollows(old(dv), old(dvsize))
    {
      hide SegmentsOk; hide SmallBins.Valid; hide TreeBins.Valid; hide HeapOk; hide RecordsIn; hide FreeBins;
      hide BinsOk; hide Pending;
      ghost var rest, h := Live() - {p0}, View();
      var p, psize, next := p0, psize0, p0 + psize0;
      ChunkFacts(h, p0);
      NextKnown(h, p0, records);
      if !head[p].pinuse {
        p, psize, h := TakePrev(p0, psize0, rest);
        PendingNext(h, p, psize, p0, rest);
        if p == dv && head[next].cinuse && head[next].pinuse {
          SetFree(p, psize, next, h, p0, rest);
          BinLast(chunks, dv, p);
          ChunkFacts(View(), p);
          dvsize := psize;
          return;
        }
      } else {
        StartPending(p0, psize0, rest);
        PendingNext(h, p, psize, p0, rest);
      }
      if !head[next].cinuse {
        if next == top {
          JoinTop(p, psize, next, h, p0, rest);
        } else if next == dv {
          JoinDv(p, psize, next, h, p0, rest);
        } else {
          JoinNext(p, psize, next, h, p0, rest);
        }
      } else {
        SetFree(p, psize, next, h, p0, rest);
        BinLast(chunks, dv, p);
        InsertChunk(p, psize);
      }
    }

    /* `prev = chunk_minus_offset(p, p->prev_foot)`, unlinked unless it is the designated victim */
    method TakePrev(p0: Ptr, psize0: nat, ghost rest: map<Ptr, nat>) returns (p: Ptr, psize: nat, ghost h: Heap)
      requires Valid() && p0 in Live() && psize0 == Live()[p0] && rest == Live() - {p0}
      requires p0 in head && !head[p0].pinuse
      modifies smalls, trees
      ensures Pending(h, p, psize, p0, rest) && p + psize == p0 + psize0 && p < p0
    {
      hide SegmentsOk; hide SmallBins.Valid; hide TreeBins.Valid; hide HeapOk; hide RecordsIn; hide FreeBins;
      hide BinsOk;
      NextKnown(View(), p0, records);
      ChunkFacts(View(), p0);
      var prevsize := foot[p0];
      WithPrevOk(View(), p0, prevsize);
      WithPrevIndex(View(), p0, prevsize, dv, records);
      h := WithPrev(View(), p0, prevsize);
      p, psize := p0 - prevsize, psize0 + prevsize;
      if p != dv {
        UnlinkChunk(p, prevsize);
      } else {
        NotInBins(chunks, dv);
      }
    }

    lemma StartPending(p0: Ptr, psize0: nat, rest: map<Ptr, nat>)
      requires Valid() && p0 in Live() && psize0 == Live()[p0] && rest == Live() - {p0}
      requires p0 in head && head[p0].pinuse && top != 0
      ensures Pending(View(), p0, psize0, p0, rest)
    {
      hide SmallBins.Valid; hide TreeBins.Valid; hide HeapOk; hide RecordsIn; hide FreeBins; hide BinsOk;
      ChunkFacts(View(), p0);
    }

    lemma PendingNext(h: Heap, p: Ptr, psize: nat, p0: Ptr, rest: map<Ptr, nat>)
      requires Pending(h, p, psize, p0, rest)
      ensures var n := p + psize;
        && n in h.head && n in head && head[n] == h.head[n] && head[n].pinuse
        && if n in h.chunks then n != top && head[n].cinuse == h.chunks[n].used else n == top && !head[n].cinuse
    {
      hide SmallBins.Valid; hide TreeBins.Valid; hide HeapOk; hide RecordsIn; hide FreeBins; hide BinsOk;
      ChunkFacts(h, p);
      NextKnown(h, p, records);
    }

    lemma JoinPlan(p: Ptr, psize: nat, h: Heap, p0: Ptr, rest: map<Ptr, nat>)
      requires Pending(h, p, psize, p0, rest) && p + psize == top
      ensures p in h.chunks && h.cur in h.areas && HeapOk(ToTop(h, p)) && psize > 1
      ensures Built(ToTop(h, p), {}, rest, if p == dv then 0 else dv, if p == dv then 0 else dvsize)
      ensures var h', d := ToTop(h, p), if p0 == p then p + 1 else p0;
              && h'.topsize == topsize + psize && h'.foot == foot && h'.cur == cur && cur in h'.areas && h'.Top() == p
              && p < d < p + h'.topsize
              && HeadsBut(h'.head, head[p := Head(topsize + psize, false, true)], d)
    {
      hide SmallBins.Valid; hide TreeBins.Valid; hide HeapOk; hide RecordsIn; hide LiveIn; hide FreeBins; hide BinsOk;
      ghost var h' := ToTop(h, p);
      ToTopOk(h, p);
      ToTopIndex(h, p, dv, records);
      ChunkFacts(h, p);
      SameSegments(segs, top, topsize, areas, cur, memory.size, p, topsize + psize);
      ghost var bins := FreeBins(h'.chunks, if p == dv then 0 else dv);
      assert bins - {} == bins;
    }

    /* `next == top`: p joins top */
    method JoinTop(p: Ptr, psize: nat, next: Ptr, ghost h: Heap, ghost p0: Ptr, ghost rest: map<Ptr, nat>)
      requires Pending(h, p, psize, p0, rest) && next == p + psize && next == top
      modifies `head, `top, `topsize, `dv, `dvsize, `chunks, `areas
      ensures Valid() && Live() == rest && records == old(records)
      ensures top == p && dv == if p == old(dv) then 0 else old(dv)
    {
      hide *;
      JoinPlan(p, psize, h, p0, rest);
      ghost var h' := ToTop(h, p);
      topsize := topsize + psize;
      top := p;
      head := head[p := Head(topsize, false, true)];
      if p == dv {
        dv := 0;
        dvsize := 0;
      }
      assert Built(h', {}, rest, dv, dvsize);
      chunks, areas := h'.chunks, h'.areas;
      JoinedValid(h', if p0 == p then p + 1 else p0, rest);
    }

    lemma JoinedValid(h: Heap, d: Ptr, rest: map<Ptr, nat>)
      requires Built(h, {}, rest, dv, dvsize) && HeadsBut(h.head, head, d)
      requires chunks == h.chunks && areas == h.areas && cur == h.cur && topsize == h.topsize && foot == h.foot
      requires cur in areas && top == h.Top() < d < top + topsize
      ensures Valid() && Live() == rest
    {
      hide Valid; hide Live; hide SegmentsIn; hide HeapOk; hide BinsOk; hide RecordsIn; hide LiveIn; hide FreeBins;
      hide HeadsBut;
      DeadInTop(h, View(), d);
      BuiltValid(h, rest);
    }

    /* set_size_and_pinuse_of_free_chunk(p, total), when p takes in the free chunk next */
    method SetFreeWithNext(p: Ptr, total: nat, ghost next: Ptr, ghost h: Heap, ghost p0: Ptr)
      requires CanNext(h, p) && cur in areas && next == h.End(p) && total == h.chunks[p].size + h.chunks[next].size
      requires p in h.head && h.head[p].pinuse && (p0 == p || p < p0 < next)
      requires h.foot == foot && h.areas == areas && h.cur == cur && h.topsize == topsize
      requires forall k | k in h.head && k != p && k != p0 :: k in head && head[k] == h.head[k]
      modifies `head, `foot, `chunks
      ensures HeapOk(View())
      ensures chunks == (h.chunks - {next})[p := Chunk(total, false, h.chunks[p].seg)]
    {
      hide SmallBins.Valid; hide TreeBins.Valid; hide HeapOk; hide RecordsIn; hide LiveIn; hide FreeBins; hide WithNext;
      WithNextOk(h, p);
      ghost var h1 := WithNext(h, p);
      ReleaseOk(h1, p);
      ghost var h2 := Release(h1, p);
      head := head[p := Head(total, false, true)];
      foot := foot[p + total := total];
      chunks := h2.chunks;
      DeadInChunk(h2, View(), p, if p0 == p then next else p0, next);
    }

    /* `next == dv`: dv grows down to p */
    method JoinDv(p: Ptr, psize: nat, next: Ptr, ghost h: Heap, ghost p0: Ptr, ghost rest: map<Ptr, nat>)
      requires Pending(h, p, psize, p0, rest) && next == p + psize && next == dv && next in h.chunks
          && !h.chunks[next].used
      modifies `head, `foot, `chunks, `dv, `dvsize
      ensures Valid() && Live() == rest && records == old(records)
      ensures 0 < dv < old(dv) && dv + dvsize == old(dv) + old(dvsize)
    {
      hide SegmentsOk; hide SmallBins.Valid; hide TreeBins.Valid; hide BinsOk; hide HeapOk; hide RecordsIn; hide LiveIn;
      hide FreeBins; hide CanNext;
      ChunkFacts(h, p);
      ChunkFacts(h, next);
      NextIs(h, p);
      dvsize := dvsize + psize;
      dv := p;
      SetFreeWithNext(p, dvsize, next, h, p0);
      AbsorbedIndex(h, View(), p, next, next, records);
    }

    /* The free chunk p goes to its bin, unless it is the designated victim. */
    method KeepFree(p: Ptr, psize: nat, ghost rest: map<Ptr, nat>)
      requires Unbinned(p, rest) && chunks[p].size == psize
      modifies smalls, trees, `dvsize
      ensures Valid() && Live() == rest
    {
      hide SegmentsOk; hide SmallBins.Valid; hide TreeBins.Valid; hide BinsOk; hide HeapOk; hide RecordsIn; hide LiveIn;
      hide FreeBins;
      ChunkFacts(View(), p);
      BinLast(chunks, dv, p);
      if p == dv {
        dvsize := psize;
      } else {
        InsertChunk(p, psize);
      }
    }

    /* Any other free chunk after p is unlinked and taken in. */
    method JoinNext(p: Ptr, psize: nat, next: Ptr, ghost h: Heap, ghost p0: Ptr, ghost rest: map<Ptr, nat>)
      requires Pending(h, p, psize, p0, rest) && next == p + psize && next != dv && next in h.chunks
          && !h.chunks[next].used
      requires next in head && next in h.head && head[next] == h.head[next]
      modifies this, smalls, trees
      ensures Valid() && Live() == rest && records == old(records) && dv == old(dv)
    {
      hide SegmentsOk; hide SmallBins.Valid; hide TreeBins.Valid; hide BinsOk; hide HeapOk; hide RecordsIn; hide LiveIn;
      hide FreeBins; hide CanNext;
      ChunkFacts(h, p);
      ChunkFacts(h, next);
      NextIs(h, p);
      BinnedAt(h.chunks, dv, next);
      var nsize := head[next].size;
      UnlinkChunk(next, nsize);
      SetFreeWithNext(p, psize + nsize, next, h, p0);
      AbsorbedIndex(h, View(), p, next, dv, records);
      KeepFree(p, psize + nsize, rest);
    }

    /* ---- dlmalloc ---- */

    /* All is well but for the free chunk p, which is neither binned nor dv. */
    ghost predicate Loose(p: Ptr, rest: map<Ptr, nat>) reads this, smalls, trees, memory {
      Unbinned(p, rest) && p != dv
    }

    lemma IsLoose(h: Heap, p: Ptr, rest: map<Ptr, nat>)
      requires SegmentsOk() && BinsOk() && HeapOk(View()) && chunks == h.chunks && areas == h.areas && cur == h.cur
      requires p in chunks && !chunks[p].used && p != dv && DvOk() && top != 0 && TopOfHeap()
      requires RecordsIn(h, records) && LiveIn(h, records) == rest && Bins() == FreeBins(h.chunks, dv) - {p}
      ensures Loose(p, rest)
    {
      hide SmallBins.Valid; hide TreeBins.Valid; hide BinsOk; hide HeapOk; hide SegmentsOk; hide FreeBins; hide LiveIn;
      hide RecordsIn;
      SameIndex(h, View(), records);
    }

    /* What a successful request for a chunk of nb bytes makes of the live chunks. */
    ghost predicate Allocated(before: map<Ptr, nat>, mem: Ptr, nb: nat) reads this, smalls, trees, memory {
      && Valid() && mem >= 8 && Mem2Chunk(mem) !in before && Live() == before[Mem2Chunk(mem) := nb]
    }

    lemma IsAllocated(before: map<Ptr, nat>, p: Ptr, nb: nat)
      requires Valid() && p !in before && Live() == before[p := nb]
      ensures Allocated(before, Chunk2Mem(p), nb) && Mem2Chunk(Chunk2Mem(p)) == p
    {
      hide Valid; hide Live;
    }

    /* set_inuse_and_pinuse */
    method UseChunk(p: Ptr, s: nat, ghost rest: map<Ptr, nat>) returns (mem: Ptr)
      requires Loose(p, rest) && s == chunks[p].size
      modifies `head, `chunks
      ensures Allocated(rest, mem, s) && mem == Chunk2Mem(p) && records == old(records)
    {
      hide SegmentsOk; hide SmallBins.Valid; hide TreeBins.Valid; hide BinsOk; hide HeapOk; hide RecordsIn; hide LiveIn;
      hide FreeBins;
      UseOk(View(), p);
      ChunkFacts(View(), p);
      UsedIndex(View(), p, dv, records);
      ghost var h := Use(View(), p);
      head := head[p := Head(s, true, true)];
      head := head[p + s := head[p + s].(pinuse := true)];
      chunks := h.chunks;
      mem := Chunk2Mem(p);
    }

    /* set_size_and_pinuse_of_inuse_chunk(p, nb); set_size_and_pinuse_of_free_chunk(r, rsize) */
    method SplitChunk(p: Ptr, nb: nat, rsize: nat, ghost rest: map<Ptr, nat>) returns (r: Ptr)
      requires Loose(p, rest) && nb + rsize == chunks[p].size
      requires nb % 16 == 0 && nb >= MIN_CHUNK_SIZE && rsize >= MIN_CHUNK_SIZE
      modifies `head, `foot, `chunks
      ensures r == p + nb && p >= 8 && p !in rest && Loose(r, rest[p := nb]) && chunks[r].size == rsize
          && r !in old(chunks)
    {
      hide SegmentsOk; hide SmallBins.Valid; hide TreeBins.Valid; hide BinsOk; hide HeapOk; hide RecordsIn; hide LiveIn;
      hide FreeBins;
      CarveOk(View(), p, nb);
      ChunkFacts(View(), p);
      CarvedIndex(View(), p, nb, dv, records);
      ghost var h := Carve(View(), p, nb);
      head := head[p := Head(nb, true, true)];
      r := p + nb;
      head := head[r := Head(rsize, false, true)];
      foot := foot[r + rsize := rsize];
      chunks := h.chunks;
    }

    /* replace_dv, used only when dvsize is small */
    method ReplaceDv(r: Ptr, rsize: nat, ghost live: map<Ptr, nat>)
      requires Loose(r, live) && chunks[r].size == rsize && IsSmall(dvsize)
      modifies smalls, trees, `dv, `dvsize
      ensures Valid() && Live() == live && records == old(records) && dv == r && dvsize == rsize
    {
      hide SegmentsOk; hide SmallBins.Valid; hide TreeBins.Valid; hide BinsOk; hide HeapOk; hide RecordsIn; hide LiveIn;
      hide FreeBins;
      ChunkFacts(View(), r);
      var dvs := dvsize;
      DvSwap(View(), dv, r);
      if dvs != 0 {
        InsertChunk(dv, dvs);
      }
      dvsize := rsize;
      dv := r;
    }

    /* What a free chunk must be to leave a bin. */
    lemma FromBin(p: Ptr)
      requires Valid() && p in Bins()
      ensures p in chunks && !chunks[p].used && p != dv && chunks[p].size == Bins()[p] && top != 0
      ensures MIN_CHUNK_SIZE <= chunks[p].size < W32 && chunks[p].size % 16 == 0 && p >= 8
    {
      ChunkFacts(View(), p);
    }

    /* tmalloc_large: the best fit, unless dv fits at least as well */
    method TmallocLarge(nb: nat) returns (mem: Ptr)
      requires Valid() && !IsSmall(nb) && nb % 16 == 0 && nb < W32
      modifies `head, `foot, `chunks, smalls, trees
      ensures mem == 0 <==> forall y | y in old(trees.Sizes()) && old(trees.Sizes())[y] >= nb ::
                              nb <= old(dvsize) <= old(trees.Sizes())[y]
      ensures mem == 0 ==>
          Valid() && Live() == old(Live()) && dv == old(dv) && dvsize == old(dvsize) && top == old(top)
          && topsize == old(topsize) && segs == old(segs) && noncontiguous == old(noncontiguous)
      ensures mem != 0 ==> Allocated(old(Live()), mem, nb) && BestOf(old(trees.Sizes()), nb, Mem2Chunk(mem))
      ensures var p, d := if mem == 0 then 0 else Mem2Chunk(mem), dv; mem != 0 ==> old(PicksBin(nb, p, d))
      ensures mem == 0 <==> !old(Binned(nb))
      ensures records == old(records)
    {
      hide SmallBins.Valid; hide TreeBins.Valid; hide HeapOk; hide RecordsIn; hide LiveIn; hide FreeBins; hide BinsOk;
      hide SegmentsOk;
      LargeBinned(nb);
      hide Binned;
      ghost var live := Live();
      DvBound();
      AllHeads();
      TreesValid();
      var v, rsize := trees.FindLarge(head, nb);
      SizesBound();
      if v != 0 && rsize < Sub32(dvsize, nb) {
        mem := UseLarge(v, nb, rsize);
        return;
      }
      mem := 0;
    }

    /* The chunk that tmalloc_large has found is used, and its remainder goes to a bin. */
    method UseLarge(v: Ptr, nb: nat, rsize: nat) returns (mem: Ptr)
      requires Valid() && nb >= MIN_CHUNK_SIZE && nb % 16 == 0 && v in trees.Sizes() && trees.Sizes()[v] == rsize + nb
      modifies `head, `foot, `chunks, smalls, trees
      ensures mem != 0 && Allocated(old(Live()), mem, nb) && Mem2Chunk(mem) == v
      ensures records == old(records)
    {
      hide SmallBins.Valid; hide TreeBins.Valid; hide HeapOk; hide RecordsIn; hide LiveIn; hide FreeBins; hide BinsOk;
      hide SegmentsOk;
      ghost var live := Live();
      TakeLarge(v);
      if rsize < MIN_CHUNK_SIZE {
        mem := UseChunk(v, rsize + nb, live);
      } else {
        var r := SplitChunk(v, nb, rsize, live);
        BinLast(chunks, dv, r);
        InsertChunk(r, rsize);
        mem := Chunk2Mem(v);
      }
    }

    /* unlink_large_chunk for a chunk about to be used */
    method TakeLarge(v: Ptr)
      requires Valid() && v in trees.Sizes()
      modifies trees
      ensures Loose(v, Live()) && chunks[v].size == old(trees.Sizes())[v] && chunks[v].size % 16 == 0
    {
      hide SmallBins.Valid; hide TreeBins.Valid; hide HeapOk; hide RecordsIn; hide LiveIn; hide FreeBins;
      assert v in Bins() && Bins()[v] == trees.Sizes()[v];
      FromBin(v);
      trees.UnlinkLarge(v);
      assert Bins() == old(Bins()) - {v};
    }

    /* The tree chunk v, all of it or its first nb bytes. */
    method UseSmall(v: Ptr, nb: nat, rsize: nat) returns (mem: Ptr)
      requires Valid() && nb >= MIN_CHUNK_SIZE && nb % 16 == 0 && v in trees.Sizes() && trees.Sizes()[v] == rsize + nb
          && IsSmall(dvsize)
      modifies `head, `foot, `chunks, `dv, `dvsize, smalls, trees
      ensures mem != 0 && Allocated(old(Live()), mem, nb) && Mem2Chunk(mem) == v
      ensures rsize >= MIN_CHUNK_SIZE ==> dv == v + nb
      ensures records == old(records)
    {
      hide SmallBins.Valid; hide TreeBins.Valid; hide HeapOk; hide RecordsIn; hide LiveIn; hide FreeBins; hide BinsOk;
      hide SegmentsOk;
      ghost var live := Live();
      TakeLarge(v);
      if rsize < MIN_CHUNK_SIZE {
        mem := UseChunk(v, rsize + nb, live);
      } else {
        var r := SplitChunk(v, nb, rsize, live);
        ReplaceDv(r, rsize, live[v := nb]);
        mem := Chunk2Mem(v);
      }
    }

    /* tmalloc_small: the smallest tree chunk, whose remainder becomes dv */
    method TmallocSmall(nb: nat) returns (mem: Ptr)
      requires Valid() && trees.treemap != 0 && MIN_CHUNK_SIZE <= nb && IsSmall(nb) && nb % 16 == 0 && IsSmall(dvsize)
      modifies `head, `foot, `chunks, `dv, `dvsize, smalls, trees
      ensures Allocated(old(Live()), mem, nb) && BestOf(old(trees.Sizes()), nb, Mem2Chunk(mem))
      ensures dv == Mem2Chunk(mem) + nb
      ensures records == old(records)
    {
      hide Allocated; hide SegmentsOk; hide SmallBins.Valid; hide TreeBins.Valid; hide HeapOk; hide RecordsIn;
      hide LiveIn; hide FreeBins; hide BinsOk;
      AllHeads();
      TreesValid();
      var v, rsize := trees.FindSmall(head, nb);
      TreeSize(v);
      mem := UseSmall(v, nb, rsize);
    }

    lemma TreeSize(v: Ptr)
      requires Valid() && v in trees.Sizes()
      ensures trees.Sizes()[v] >= SMALL_LIMIT && trees.Sizes()[v] % 16 == 0
      ensures v in Bins() && Bins()[v] == trees.Sizes()[v]
    {
      FromBin(v);
    }

    lemma TreesValid()
      requires Valid()
      ensures trees.Valid()
    {}

    lemma DvPlan(nb: nat)
      requires Valid() && MIN_CHUNK_SIZE <= nb && nb + MIN_CHUNK_SIZE <= dvsize && nb % 16 == 0
      ensures dv in chunks && chunks[dv].size == dvsize && 8 <= dv && dv !in Live() && HeapOk(Carve(View(), dv, nb))
      ensures Built(Carve(View(), dv, nb), {}, Live()[dv := nb], dv + nb, dvsize - nb) && cur in areas
      ensures var h := Carve(View(), dv, nb);
        && h.head == head[dv + nb := Head(dvsize - nb, false, true)][dv := Head(nb, true, true)]
        && h.foot == foot[dv + nb + (dvsize - nb) := dvsize - nb]
        && h.areas == areas && h.cur == cur && h.topsize == topsize && top == h.Top()
    {
      hide SmallBins.Valid; hide TreeBins.Valid; hide HeapOk; hide RecordsIn; hide LiveIn; hide FreeBins; hide BinsOk;
      ChunkFacts(View(), dv);
      CarveOk(View(), dv, nb);
      CarvedDv(View(), dv, nb, records);
      ghost var bins := FreeBins(Carve(View(), dv, nb).chunks, dv + nb);
      assert bins - {} == bins;
    }

    method SplitDv(nb: nat) returns (mem: Ptr)
      requires Valid() && MIN_CHUNK_SIZE <= nb && nb + MIN_CHUNK_SIZE <= dvsize && nb % 16 == 0
      modifies `head, `foot, `chunks, `dv, `dvsize
      ensures Allocated(old(Live()), mem, nb) && Mem2Chunk(mem) == old(dv)
      ensures dv == old(dv) + nb
    {
      hide Live; hide Valid; hide Built;
      DvPlan(nb);
      ghost var h, live := Carve(View(), dv, nb), Live();
      hide *;
      var p, rsize := dv, dvsize - nb;
      var r := p + nb;
      dv := r;
      dvsize := rsize;
      head := head[r := Head(rsize, false, true)];
      foot := foot[r + rsize := rsize];
      head := head[p := Head(nb, true, true)];
      chunks := h.chunks;
      mem := Chunk2Mem(p);
      MatchesValid(h, live[p := nb]);
      IsAllocated(live, p, nb);
    }

    /* The designated victim is split, or used whole. */
    method FromDv(nb: nat) returns (mem: Ptr)
      requires Valid() && MIN_CHUNK_SIZE <= nb <= dvsize && nb % 16 == 0
      modifies `head, `foot, `chunks, `dv, `dvsize
      ensures mem != 0 && Allocated(old(Live()), mem, nb) && Mem2Chunk(mem) == old(dv)
      ensures dv == if old(dvsize) - nb < MIN_CHUNK_SIZE then 0 else old(dv) + nb
    {
      hide SegmentsOk; hide SmallBins.Valid; hide TreeBins.Valid; hide HeapOk; hide RecordsIn; hide LiveIn;
      hide FreeBins; hide BinsOk;
      if dvsize - nb >= MIN_CHUNK_SIZE {
        mem := SplitDv(nb);
      } else {
        ghost var live := Live();
        var p, dvs := dv, dvsize;
        ChunkFacts(View(), p);
        DvGone(View(), p);
        dvsize := 0;
        dv := 0;
        mem := UseChunk(p, dvs, live);
      }
    }

    lemma CutPlan(nb: nat)
      requires Valid() && MIN_CHUNK_SIZE <= nb < topsize && nb % 16 == 0
      ensures cur in areas && top == areas[cur].hi && 8 <= top && top !in Live() && HeapOk(FromTop(View(), nb))
      ensures Built(FromTop(View(), nb), {}, Live()[top := nb], dv, dvsize)
    {
      hide SmallBins.Valid; hide TreeBins.Valid; hide HeapOk; hide RecordsIn; hide LiveIn; hide FreeBins; hide BinsOk;
      ghost var h := FromTop(View(), nb);
      FromTopOk(View(), nb);
      FromTopIndex(View(), nb, dv, records);
      SameSegments(segs, top, topsize, areas, cur, memory.size, top + nb, topsize - nb);
      assert FreeBins(h.chunks, dv) - {} == FreeBins(h.chunks, dv);
    }

    /* nb bytes from the bottom of top */
    method CutTop(nb: nat) returns (mem: Ptr)
      requires Valid() && MIN_CHUNK_SIZE <= nb < topsize && nb % 16 == 0
      modifies `head, `chunks, `areas, `top, `topsize
      ensures mem != 0 && Allocated(old(Live()), mem, nb) && Mem2Chunk(mem) == old(top) && top == old(top) + nb
    {
      hide Valid; hide HeapOk; hide LiveIn; hide Built;
      CutPlan(nb);
      ghost var h, live := FromTop(View(), nb), Live();
      topsize := topsize - nb;
      var p := top;
      top := p + nb;
      head := head[p + nb := Head(topsize, false, true)];
      head := head[p := Head(nb, true, true)];
      chunks, areas := h.chunks, h.areas;
      mem := Chunk2Mem(p);
      assert View() == h;
      BuiltValid(h, live[p := nb]);
    }

    /* `b->fd` of a marked smallbin, unlinked */
    method TakeSmall(i: nat) returns (p: Ptr)
      requires Valid() && i < NBINS && Marked(smalls.smallmap, i)
      modifies smalls
      ensures Loose(p, Live()) && chunks[p].size == SmallSize(i) && SmallSize(i) % 16 == 0
      ensures p in old(Bins()) && old(Bins())[p] == SmallSize(i)
    {
      hide SmallBins.Valid; hide TreeBins.Valid; hide HeapOk; hide RecordsIn; hide LiveIn; hide FreeBins; hide Marked;
      ghost var b := Bins();
      p := smalls.UnlinkFirst(i);
      assert p in b && b[p] == SmallSize(i);
      assert Bins() == b - {p};
      assert HeapOk(View()) && b == FreeBins(chunks, dv);
      InFreeBins(chunks, dv, p);
      ChunkFacts(View(), p);
    }

    /* Of the binned chunks one is wanted for a request of nb bytes: one of exactly that size for a small request;
       else one that fits, if dv does not, or if the request is large and dv does not fit as well. */
    ghost predicate Binned(nb: nat) reads this, smalls, trees {
      exists y | y in Bins() :: nb <= Bins()[y]
        && (dvsize < nb || (if nb < SMALL_LIMIT then Bins()[y] == nb else Bins()[y] < dvsize))
    }

    /* It is the best fit.  What a small request leaves of it becomes dv. */
    ghost predicate PicksBin(nb: nat, p: Ptr, d: Ptr) reads this, smalls, trees {
      Binned(nb) && BestOf(Bins(), nb, p) && d == if nb >= SMALL_LIMIT || Bins()[p] == nb then dv else p + nb
    }

    /* Which chunk serves a request of nb bytes: one from a bin, or else dv, or else the bottom of top, or else the
       bottom of top once memory has been obtained.  d and t are what dv and top become. */
    ghost predicate Picks(nb: nat, p: Ptr, d: Ptr, t: Ptr) reads this, smalls, trees, memory {
      if Binned(nb) then PicksBin(nb, p, d) && t == top else PicksRest(nb, p, d, t)
    }

    ghost predicate Picked(nb: nat, p: Ptr) reads this, smalls, trees, memory {
      exists d, t :: Picks(nb, p, d, t)
    }

    ghost predicate PicksRest(nb: nat, p: Ptr, d: Ptr, t: Ptr) reads `dv, `dvsize, `top, `topsize, `segs, memory {
      if nb <= dvsize then p == dv && t == top && d == if dvsize - nb < MIN_CHUNK_SIZE then 0 else dv + nb
      else
        d == dv && t == p + nb
        && p == if nb < topsize || (segs != [] && segs[0].End() == memory.size) then top else memory.size + 8
    }

    /* A request below 256 bytes, as far as bins serve it; 0 if dv, top or the system must. */
    method SmallRequest(nb: nat) returns (mem: Ptr)
      requires Valid() && MIN_CHUNK_SIZE <= nb <= 240 && nb % 16 == 0
      modifies `head, `foot, `chunks, `dv, `dvsize, smalls, trees
      ensures mem == 0 ==>
          Valid() && Live() == old(Live()) && dvsize == old(dvsize) && topsize == old(topsize) && top == old(top)
          && segs == old(segs) && noncontiguous == old(noncontiguous)
      ensures mem != 0 ==> Allocated(old(Live()), mem, nb)
      ensures var p, d := if mem == 0 then 0 else Mem2Chunk(mem), dv; mem != 0 ==> old(PicksBin(nb, p, d))
      ensures mem == 0 ==> !old(Binned(nb)) && dv == old(dv)
      ensures mem == 0 && nb > dvsize ==> forall p | p in old(Bins()) :: old(Bins())[p] < nb
      ensures records == old(records)
    {
      hide SegmentsOk; hide SmallBins.Valid; hide TreeBins.Valid; hide HeapOk; hide RecordsIn; hide LiveIn;
      hide FreeBins; hide Marked; hide BinsOk;
      ghost var live := Live();
      var idx := SmallIndex(nb);
      var smallbits := Shr(smalls.smallmap, idx);
      LowTwoBits(smalls.smallmap, idx);
      SmallFits(nb);
      mem := 0;
      if And(smallbits, 3) != 0 {
        idx := idx + (1 - smallbits % 2);
        var p := TakeSmall(idx);
        mem := UseChunk(p, SmallSize(idx), live);
      } else if nb > dvsize {
        if smallbits != 0 {
          mem := NextSmall(nb, idx);
        } else {
          TreesValid();
          if trees.treemap != 0 {
            mem := TmallocSmall(nb);
          } else {
            NoFit(nb);
          }
        }
      }
    }

    /* What the smallmap tells of a small request. */
    lemma SmallFits(nb: nat)
      requires Valid() && MIN_CHUNK_SIZE <= nb <= 240 && nb % 16 == 0
      ensures SmallSize(SmallIndex(nb)) == nb < SMALL_LIMIT && SmallIndex(nb) < NBINS
      ensures !Marked(smalls.smallmap, SmallIndex(nb)) ==> forall y | y in Bins() :: Bins()[y] != nb
      ensures Shr(smalls.smallmap, SmallIndex(nb)) == 0 ==>
          forall p | BestOf(trees.Sizes(), nb, p) :: BestOf(Bins(), nb, p) && Bins()[p] != nb
    {
      hide SmallBins.Valid; hide TreeBins.Valid; hide HeapOk; hide Marked;
      var i := SmallIndex(nb);
      forall y | y in trees.Sizes() ensures trees.Sizes()[y] >= SMALL_LIMIT { TreeSize(y); }
      if !Marked(smalls.smallmap, i) { smalls.Unused(i); }
      if Shr(smalls.smallmap, i) == 0 { smalls.NoneFrom(i); }
    }

    /* The next marked smallbin holds the best fit if the one for the request itself is not in use. */
    lemma NextFits(nb: nat, i: nat)
      requires Valid() && MIN_CHUNK_SIZE <= nb <= 240 && nb % 16 == 0 && SmallIndex(nb) < i < NBINS
      requires forall j {:trigger Marked(smalls.smallmap, j)} | SmallIndex(nb) <= j < i :: !Marked(smalls.smallmap, j)
      ensures forall p | p in Bins() && Bins()[p] == SmallSize(i) :: BestOf(Bins(), nb, p)
    {
      hide SmallBins.Valid; hide TreeBins.Valid; hide HeapOk; hide Marked;
      forall y | y in Bins() && nb <= Bins()[y] ensures SmallSize(i) <= Bins()[y] {
        if y in trees.Sizes() {
          TreeSize(y);
        } else {
          FromBin(y);
          var j := SmallIndex(Bins()[y]);
          if j < i { smalls.Unused(j); }
        }
      }
    }

    lemma NoFit(nb: nat)
      requires Valid() && nb % 16 == 0 && Shr(smalls.smallmap, SmallIndex(nb)) == 0 && trees.treemap == 0
      ensures forall p | p in Bins() :: Bins()[p] < nb
    {
      smalls.NoneFrom(SmallIndex(nb));
      trees.NoTrees();
      SmallSizes(nb);
    }

    /* The chunk from the next marked smallbin is split and its remainder becomes dv. */
    method NextSmall(nb: nat, idx: nat) returns (mem: Ptr)
      requires Valid() && MIN_CHUNK_SIZE <= nb <= 240 && nb % 16 == 0 && idx == SmallIndex(nb) && nb > dvsize
      requires Shr(smalls.smallmap, idx) != 0 && !Marked(smalls.smallmap, idx)
      modifies `head, `foot, `chunks, `dv, `dvsize, smalls, trees
      ensures Allocated(old(Live()), mem, nb) && records == old(records)
      ensures BestOf(old(Bins()), nb, Mem2Chunk(mem)) && dv == Mem2Chunk(mem) + nb
    {
      hide SegmentsOk; hide SmallBins.Valid; hide TreeBins.Valid; hide HeapOk; hide RecordsIn; hide LiveIn;
      hide FreeBins; hide Marked; hide BinsOk;
      hide LeftInSmall; hide LeastBit; hide Bit2Idx; hide Live; hide BestOf;
      ghost var live := Live();
      var leftbits := LeftInSmall(smalls.smallmap, idx);
      NextSmallBin(smalls.smallmap, idx);
      var i := Bit2Idx(LeastBit(leftbits));
      NextFits(nb, i);
      var p := TakeSmall(i);
      var rsize := SmallSize(i) - nb;
      var r := SplitChunk(p, nb, rsize, live);
      ReplaceDv(r, rsize, live[p := nb]);
      mem := Chunk2Mem(p);
    }

    lemma DvBound()
      requires Valid()
      ensures dvsize < W32
    {
      if dv != 0 { ChunkFacts(View(), dv); }
    }

    lemma SizesBound()
      requires Valid()
      ensures forall y | y in trees.Sizes() :: trees.Sizes()[y] < W32
    {
      forall y | y in trees.Sizes() ensures trees.Sizes()[y] < W32 {
        assert y in Bins() && Bins()[y] == trees.Sizes()[y];
        FromBin(y);
      }
    }

    lemma AllHeads()
      requires Valid()
      ensures HeadsHold(head, trees.Sizes())
    {
      forall y | y in trees.Sizes() ensures y in chunks && chunks[y].size == trees.Sizes()[y] {
        assert y in Bins() && Bins()[y] == trees.Sizes()[y];
      }
      HeadsOf(View(), trees.Sizes());
    }

    /* ---- sys_alloc ---- */

    /* The block of ssize bytes just obtained, up to the end of memory of the given size, is too small, and
       sbrk refuses the rest of it. */
    predicate RestRefused(nb: nat, ssize: nat, size: nat, a2: bool) {
      ssize < nb + SYS_ALLOC_PADDING
      && var esize := GranularityAlign(nb + SYS_ALLOC_PADDING - ssize);
           esize < HALF_MAX_SIZE_T && !Granted(a2, size, esize)
    }

    /* The rest is too large for an increment: the code goes on with the block as it is. */
    predicate RestTooLarge(nb: nat, ssize: nat) {
      ssize < nb + SYS_ALLOC_PADDING && GranularityAlign(nb + SYS_ALLOC_PADDING - ssize) >= HALF_MAX_SIZE_T
    }

    /* What is asked for besides. */
    function Rest(nb: nat, ssize: nat): nat {
      if ssize < nb + SYS_ALLOC_PADDING
         && GranularityAlign(nb + SYS_ALLOC_PADDING - ssize) < HALF_MAX_SIZE_T
      then GranularityAlign(nb + SYS_ALLOC_PADDING - ssize) else 0
    }

    /* The block of ssize bytes just obtained is not contiguous with top: get the rest of it. */
    method FillUp(nb: nat, ssize: nat, a2: bool) returns (total: nat, trapped: bool)
      requires memory.Valid() && nb < W32 && GranularityAlign(nb + SYS_ALLOC_PADDING) > nb && ssize % PAGESIZE == 0
      modifies memory
      ensures memory.Valid() && (!trapped ==>
          total % PAGESIZE == 0 && total >= ssize && memory.size == old(memory.size) + (total - ssize))
      ensures memory.size >= old(memory.size)
      ensures !trapped ==> total == ssize + Rest(nb, ssize)
      ensures trapped <==> RestRefused(nb, ssize, old(memory.size), a2)
      ensures !trapped ==> if RestTooLarge(nb, ssize) then total == ssize else total >= nb + SYS_ALLOC_PADDING
    {
      hide GranularityAlign;
      total, trapped := ssize, false;
      if ssize < nb + SYS_ALLOC_PADDING {
        var esize := GranularityAlign(nb + SYS_ALLOC_PADDING - ssize);
        Granules(nb + SYS_ALLOC_PADDING - ssize, nb);
        if esize < HALF_MAX_SIZE_T {
          var end := memory.Sbrk(esize, a2);
          if end == FAILED { return ssize, true; }
          total := ssize + esize;
        }
      }
    }

    /* The first segment is one page, others have obtained the next one, and the engine then grants one more page
       and no other: a request for a page makes the allocator give memory back. */
    static method GivesPageBack() returns (m: Malloc)
      ensures fresh(m) && m.Valid() && m.GivesBack(PAGESIZE, true, false)
    {
      hide SmallBins.Valid; hide TreeBins.Valid; hide HeapOk; hide FreeBins; hide LiveIn; hide RecordsIn;
      hide SegmentsIn;
      var memory := new LinearMemory(2);
      m := new Malloc(memory);
      m.FirstSegment(PAGESIZE, PAGESIZE);
      m.OthersGrow(1, true);
      m.PageGivenBack();
    }

    lemma PageGivenBack()
      requires top != 0 && topsize == PAGESIZE - TOP_FOOT_SIZE - 8 && segs == [Segment(PAGESIZE, PAGESIZE)]
      requires !noncontiguous && memory.size == 3 * PAGESIZE
      ensures GivesBack(PAGESIZE, true, false)
    {
      assert GranularityAlign(PAGESIZE + SYS_ALLOC_PADDING) == 2 * PAGESIZE;
      assert FirstIncrement(PAGESIZE) == PAGESIZE;
    }

    /* The bytes that the contiguous call of sbrk asks for. */
    function FirstIncrement(nb: nat): nat
      requires nb >= topsize
      reads `top, `topsize
    {
      GranularityAlign(if top == 0 then nb + SYS_ALLOC_PADDING else nb - topsize + SYS_ALLOC_PADDING)
    }

    /* The contiguous call of sbrk is made, and granted. */
    ghost predicate FirstGranted(nb: nat, a1: bool)
      reads `top, `topsize, `segs, `noncontiguous, memory
      requires nb >= topsize
    {
      && GranularityAlign(nb + SYS_ALLOC_PADDING) > nb && !noncontiguous
      && FirstIncrement(nb) < HALF_MAX_SIZE_T && Granted(a1, memory.size, FirstIncrement(nb))
    }

    /* The contiguous call of sbrk is refused, or not tried because it would be too large: it is not tried again. */
    ghost predicate Disables(nb: nat, a1: bool)
      reads `top, `topsize, `segs, `noncontiguous, memory
    {
      !noncontiguous && GranularityAlign(nb + SYS_ALLOC_PADDING) > nb >= topsize && !FirstGranted(nb, a1)
    }

    /* The block obtained does not follow top, is too small alone, and sbrk refuses the rest: giving it back aborts. */
    ghost predicate GivesBack(nb: nat, a1: bool, a2: bool)
      reads `top, `topsize, `segs, `noncontiguous, memory
    {
      && nb >= topsize && FirstGranted(nb, a1) && top != 0 && segs != [] && memory.size != segs[0].End()
      && RestRefused(nb, FirstIncrement(nb), memory.size + FirstIncrement(nb), a2)
    }

    /* The second try is made, wherever the memory is, and granted. */
    ghost predicate SecondGranted(nb: nat, a1: bool, a3: bool)
      reads `top, `topsize, `segs, `noncontiguous, memory
    {
      var asize := GranularityAlign(nb + SYS_ALLOC_PADDING);
      asize > nb >= topsize && !FirstGranted(nb, a1) && asize < HALF_MAX_SIZE_T && Granted(a3, memory.size, asize)
    }

    /* It then reaches to the end of the address space, which the code takes for address zero: the pages are lost. */
    ghost predicate Loses(nb: nat, a1: bool, a3: bool)
      reads `top, `topsize, `segs, `noncontiguous, memory
    {
      SecondGranted(nb, a1, a3) && memory.size + GranularityAlign(nb + SYS_ALLOC_PADDING) == W32
    }

    /* Memory is obtained for a request of nb bytes. */
    ghost predicate Obtains(nb: nat, a1: bool, a2: bool, a3: bool)
      reads `top, `topsize, `segs, `noncontiguous, memory
    {
      && GranularityAlign(nb + SYS_ALLOC_PADDING) > nb >= topsize && !GivesBack(nb, a1, a2)
      && (FirstGranted(nb, a1) || (SecondGranted(nb, a1, a3) && !Loses(nb, a1, a3)))
    }

    /* How many bytes are then obtained. */
    ghost function Increment(nb: nat, a1: bool): nat
      reads `top, `topsize, `segs, `noncontiguous, memory
    {
      if nb < topsize || !FirstGranted(nb, a1) then GranularityAlign(nb + SYS_ALLOC_PADDING)
      else
        FirstIncrement(nb)
          + if top != 0 && segs != [] && memory.size != segs[0].End() then Rest(nb, FirstIncrement(nb)) else 0
    }

    /* The block obtained does not follow top, is too small alone, and its rest is too large for an increment. */
    ghost predicate FallsShort(nb: nat, a1: bool)
      reads `top, `topsize, `segs, `noncontiguous, memory
    {
      && nb >= topsize && FirstGranted(nb, a1) && top != 0 && segs != [] && memory.size != segs[0].End()
      && RestTooLarge(nb, FirstIncrement(nb))
    }

    /* Memory grows, but not so that the request can be served. */
    ghost predicate Wastes(nb: nat, a1: bool, a2: bool, a3: bool)
      reads `top, `topsize, `segs, `noncontiguous, memory
    {
      Loses(nb, a1, a3) || (Obtains(nb, a1, a2, a3) && FallsShort(nb, a1))
    }

    /* Memory is obtained, and there is enough of it. */
    ghost predicate Provides(nb: nat, a1: bool, a2: bool, a3: bool)
      reads `top, `topsize, `segs, `noncontiguous, memory
    {
      Obtains(nb, a1, a2, a3) && !FallsShort(nb, a1)
    }

    /* Memory for a request of nb bytes: contiguous with top if sbrk can, else wherever it is.
       If a second sbrk for the rest of a noncontiguous block fails, giving the block back aborts
       in sbrk: `trapped`.  a1 to a3 are the engine's answers. */
    method GetCore(nb: nat, a1: bool, a2: bool, a3: bool) returns (ok: bool, tbase: Ptr, tsize: nat, trapped: bool)
      requires SegmentsOk() && nb < W32 && nb >= topsize
      modifies memory, `noncontiguous
      ensures memory.Valid() && memory.size >= old(memory.size)
      ensures trapped <==> old(GivesBack(nb, a1, a2))
      ensures noncontiguous <==> old(noncontiguous || Disables(nb, a1))
      ensures ok <==> old(Obtains(nb, a1, a2, a3))
      ensures ok ==> tbase == old(memory.size) && tbase + tsize == memory.size && tsize % PAGESIZE == 0 && tsize > 0
                     && GranularityAlign(nb + SYS_ALLOC_PADDING) > nb
      ensures ok ==> tsize == old(Increment(nb, a1))
      ensures ok && !old(FallsShort(nb, a1)) ==>
                nb + SYS_ALLOC_PADDING <= tsize + if segs != [] && segs[0].End() == tbase then topsize else 0
      ensures ok && old(FallsShort(nb, a1)) ==> top != 0 && segs[0].End() != tbase && tsize < nb + SYS_ALLOC_PADDING
      ensures !ok && !trapped ==> memory.size == if old(Loses(nb, a1, a3)) then W32 else old(memory.size)
    {
      hide GranularityAlign; hide RestRefused; hide RestTooLarge;
      ok, tbase, tsize, trapped := false, 0, 0, false;
      var asize := GranularityAlign(nb + SYS_ALLOC_PADDING);
      if asize <= nb { return; }
      if !noncontiguous {
        ok, tbase, tsize, trapped := Contiguous(nb, asize, a1, a2);
        if ok || trapped { return; }
        noncontiguous := true;
      }
      ok, tbase, tsize := Anywhere(nb, asize, a3);
    }

    /* The first way to get memory, contiguous with top if sbrk can. */
    method Contiguous(nb: nat, asize: nat, a1: bool, a2: bool)
        returns (ok: bool, tbase: Ptr, tsize: nat, trapped: bool)
      requires SegmentsOk() && topsize <= nb < asize && nb < W32 && asize == GranularityAlign(nb + SYS_ALLOC_PADDING)
          && !noncontiguous
      modifies memory
      ensures memory.Valid() && memory.size >= old(memory.size)
      ensures trapped <==> old(GivesBack(nb, a1, a2))
      ensures ok <==> old(FirstGranted(nb, a1)) && !trapped
      ensures ok ==> tbase == old(memory.size) && tbase + tsize == memory.size && tsize % PAGESIZE == 0 && tsize > 0
      ensures ok && !old(FallsShort(nb, a1)) ==>
                nb + SYS_ALLOC_PADDING <= tsize + if segs != [] && segs[0].End() == tbase then topsize else 0
      ensures ok && old(FallsShort(nb, a1)) ==> top != 0 && segs[0].End() != tbase && tsize < nb + SYS_ALLOC_PADDING
      ensures ok ==> tsize == old(Increment(nb, a1))
      ensures !ok && !trapped ==> memory.size == old(memory.size)
    {
      ok, tbase, tsize, trapped := false, 0, 0, false;
      /* Whether a segment holds top, by a comparison that fails if it reaches to the end of the address space. */
      var held := top != 0 && top < segs[0].End() % W32;
      if held {
        ok, tbase, tsize, trapped := Following(nb, asize, a1, a2);
        return;
      }
      Granules(nb + SYS_ALLOC_PADDING, nb);
      UnheldMeans(nb, a1, a2);
      hide GranularityAlign; hide FirstGranted; hide GivesBack; hide FallsShort; hide SegmentsIn;
      var base := memory.Sbrk(0, a1);
      if asize < HALF_MAX_SIZE_T {
        var br := memory.Sbrk(asize, a1);
        if br == base { return true, br, asize, false; }
      }
    }

    lemma UnheldMeans(nb: nat, a1: bool, a2: bool)
      requires SegmentsOk() && topsize <= nb < W32 && GranularityAlign(nb + SYS_ALLOC_PADDING) > nb && !noncontiguous
      requires top == 0 || segs[0].End() % W32 <= top
      ensures var asize := GranularityAlign(nb + SYS_ALLOC_PADDING);
        FirstGranted(nb, a1) <==> asize < HALF_MAX_SIZE_T && Granted(a1, memory.size, asize)
      ensures !GivesBack(nb, a1, a2) && !FallsShort(nb, a1)
      ensures Increment(nb, a1) == GranularityAlign(nb + SYS_ALLOC_PADDING)
    {
      Granules(nb + SYS_ALLOC_PADDING, nb);
      Granules(nb - topsize + SYS_ALLOC_PADDING, nb);
      if top != 0 { assert memory.size == W32 == segs[0].End(); }
      hide GranularityAlign; hide RestRefused; hide RestTooLarge;
    }

    lemma FollowingMeans(nb: nat, a1: bool, a2: bool)
      requires SegmentsOk() && topsize <= nb && GranularityAlign(nb + SYS_ALLOC_PADDING) > nb
          && !noncontiguous && top != 0
      ensures segs != []
      ensures var inc := GranularityAlign(nb - topsize + SYS_ALLOC_PADDING);
        && (FirstGranted(nb, a1) <==> inc < HALF_MAX_SIZE_T && Granted(a1, memory.size, inc))
        && (GivesBack(nb, a1, a2) <==>
              FirstGranted(nb, a1) && memory.size != segs[0].End() && RestRefused(nb, inc, memory.size + inc, a2))
        && (FallsShort(nb, a1) <==>
              FirstGranted(nb, a1) && memory.size != segs[0].End() && RestTooLarge(nb, inc))
        && (RestTooLarge(nb, inc) ==> inc < nb + SYS_ALLOC_PADDING)
        && (FirstGranted(nb, a1) ==>
              Increment(nb, a1) == inc + if memory.size != segs[0].End() then Rest(nb, inc) else 0)
    {
      hide GranularityAlign; hide RestRefused; hide Rest;
    }

    /* What is in top already is taken off; if the block does not follow top, it has to be filled up. */
    method Following(nb: nat, ghost asize: nat, a1: bool, a2: bool)
        returns (ok: bool, tbase: Ptr, tsize: nat, trapped: bool)
      requires SegmentsOk() && topsize <= nb < asize && nb < W32 && asize == GranularityAlign(nb + SYS_ALLOC_PADDING)
          && !noncontiguous && top != 0
      modifies memory
      ensures memory.Valid() && memory.size >= old(memory.size)
      ensures trapped <==> old(GivesBack(nb, a1, a2))
      ensures ok <==> old(FirstGranted(nb, a1)) && !trapped
      ensures ok ==> tbase == old(memory.size) && tbase + tsize == memory.size && tsize % PAGESIZE == 0 && tsize > 0
      ensures ok && !old(FallsShort(nb, a1)) ==>
                nb + SYS_ALLOC_PADDING <= tsize + if segs[0].End() == tbase then topsize else 0
      ensures ok && old(FallsShort(nb, a1)) ==> segs[0].End() != tbase && tsize < nb + SYS_ALLOC_PADDING
      ensures ok ==> tsize == old(Increment(nb, a1))
      ensures !ok && !trapped ==> memory.size == old(memory.size)
    {
      FollowingMeans(nb, a1, a2);
      Granules(nb - topsize + SYS_ALLOC_PADDING, nb);
      hide FirstGranted; hide GivesBack; hide FallsShort; hide SegmentsIn; hide RestTooLarge;
      hide GranularityAlign; hide RestRefused; hide FirstIncrement;
      ok, tbase, tsize, trapped := false, 0, 0, false;
      var ssize := GranularityAlign(nb - topsize + SYS_ALLOC_PADDING);
      if ssize >= HALF_MAX_SIZE_T { return; }
      ghost var size := memory.size;
      var br := memory.Sbrk(ssize, a1);
      if br == FAILED { return; }
      assert br == size && memory.size == br + ssize;
      if br == segs[0].End() { return true, br, ssize, false; }
      ssize, trapped := FillUp(nb, ssize, a2);
      if trapped { return false, 0, 0, true; }
      ok, tbase, tsize := true, br, ssize;
    }

    /* The other way, wherever it is. */
    method Anywhere(nb: nat, asize: nat, a3: bool) returns (ok: bool, tbase: Ptr, tsize: nat)
      requires memory.Valid() && nb < W32 && nb < asize == GranularityAlign(nb + SYS_ALLOC_PADDING)
      modifies memory
      ensures memory.Valid()
      ensures var granted := asize < HALF_MAX_SIZE_T && old(Granted(a3, memory.size, asize));
              memory.size == (if granted then old(memory.size) + asize else old(memory.size))
              && (ok <==> granted && memory.size < W32)
      ensures ok ==> tbase == old(memory.size) && tbase + tsize == memory.size && tsize == asize
                     && tsize % PAGESIZE == 0 && nb + SYS_ALLOC_PADDING <= tsize
    {
      Granules(nb + SYS_ALLOC_PADDING, nb);
      hide GranularityAlign;
      ok, tbase, tsize := false, 0, 0;
      if asize < HALF_MAX_SIZE_T {
        var br := memory.Sbrk(asize, a3);
        var end := memory.Sbrk(0, a3);
        if br != FAILED && br < end && end - br > nb + TOP_FOOT_SIZE {
          return true, br, end - br;
        }
      }
    }

    /* init_top for the first segment */
    method FirstSegment(tbase: Ptr, tsize: nat)
      requires Valid() && top == 0 && tbase > 0 && tbase + tsize <= memory.size
      requires tbase % PAGESIZE == 0 && tsize % PAGESIZE == 0 && tsize > 0
      modifies `head, `top, `topsize, `segs, `areas, `cur
      ensures Valid() && Live() == old(Live()) && topsize == tsize - TOP_FOOT_SIZE - 8
      ensures top == tbase + 8 && segs == [Segment(tbase, tsize)]
    {
      hide SmallBins.Valid; hide TreeBins.Valid; hide BinsOk; hide HeapOk; hide FreeBins;
      PageArith(tbase, tsize);
      ghost var h := FirstArea(View(), tbase + 8, tsize - TOP_FOOT_SIZE - 8);
      FirstAreaOk(View(), tbase + 8, tsize - TOP_FOOT_SIZE - 8);
      segs := [Segment(tbase, tsize)];
      InitTop(tbase, tsize - TOP_FOOT_SIZE);
      areas, cur := h.areas, h.cur;
      assert View() == h;
    }

    /* init_top */
    method InitTop(p: Ptr, psize: nat)
      requires AlignOffset(p + 8) <= psize
      modifies `head, `top, `topsize
      ensures var offset := AlignOffset(p + 8);
              top == p + offset && topsize == psize - offset && head == TopWords(old(head), top, topsize)
    {
      var offset := AlignOffset(Chunk2Mem(p));
      top := p + offset;
      topsize := psize - offset;
      head := head[top := Head(topsize, false, true)];
      head := head[top + topsize := Head(TOP_FOOT_SIZE, false, false)];
    }

    /* The new memory is contiguous with top. */
    method ExtendTop(tsize: nat)
      requires Valid() && top != 0 && segs[0].End() + tsize <= memory.size && tsize % PAGESIZE == 0
      modifies `head, `top, `topsize, `segs
      ensures Valid() && Live() == old(Live()) && topsize == old(topsize) + tsize && top == old(top)
    {
      hide SmallBins.Valid; hide TreeBins.Valid; hide BinsOk; hide HeapOk; hide FreeBins;
      ghost var h := GrowTop(View(), tsize);
      TopIsAligned(View());
      AreasBelow();
      PageMod(tsize, 0);
      PageSum(segs[0].End(), tsize);
      hide AlignOffset;
      GrowTopOk(View(), tsize);
      SameIndex(View(), h, records);
      segs := segs[0 := Segment(segs[0].base, segs[0].size + tsize)];
      InitTop(top, topsize + tsize);
      assert View() == h;
    }

    lemma AreasBelow()
      requires Valid() && top != 0
      ensures forall i | i in areas :: areas[i].hi <= top && areas[i].lo <= top
    {
      forall i | i in areas ensures areas[i].hi <= top && areas[i].lo <= top {
        assert AreaOk(View(), i) && AreaOk(View(), cur);
      }
    }

    /* Where the segment record goes: at the end of the old segment, aligned as a chunk.  There is
       room for it, because top never takes the last TOP_FOOT_SIZE bytes. */
    method RecordPlace(oldTop: Ptr, oldSize: nat, oldEnd: Ptr) returns (csp: int)
      requires oldEnd == oldTop + oldSize + TOP_FOOT_SIZE && oldEnd % PAGESIZE == 0 && oldSize >= MIN_CHUNK_SIZE
      ensures csp == oldTop + oldSize
    {
      var ssize := PadRequest(16);
      var rawsp := oldEnd - (ssize + 16 + 15);
      var offset := AlignOffset(Chunk2Mem(rawsp));
      var asp := rawsp + offset;
      csp := if asp < oldTop + MIN_CHUNK_SIZE then oldTop else asp;
    }

    /* The trailing fenceposts, in each word from p to the end of the segment. */
    method Fences(p0: Ptr, oldEnd: Ptr)
      requires p0 + 24 == oldEnd
      modifies `head
      ensures p0 in head && head[p0] == FENCEPOST_HEAD
      ensures forall k | k <= p0 - 1 || k >= oldEnd ::
          (k in head <==> k in old(head)) && (k in head ==> head[k] == old(head)[k])
    {
      var p, nfences := p0, 0;
      while true
        invariant p0 <= p && p + 8 <= oldEnd && (oldEnd - p) % 4 == 0
            && (p > p0 ==> p0 in head && head[p0] == FENCEPOST_HEAD)
        invariant forall k | k <= p0 - 1 || k >= oldEnd ::
            (k in head <==> k in old(head)) && (k in head ==> head[k] == old(head)[k])
        decreases oldEnd - p
      {
        var nextp := p + 4;
        head := head[p := FENCEPOST_HEAD];
        nfences := nfences + 1;
        if nextp + 4 < oldEnd { p := nextp; } else { break; }
      }
    }

    /* What add_segment writes. */
    method RetireWords(oldTop: Ptr, oldSize: nat, oldEnd: Ptr, tbase: Ptr, tsize: nat) returns (psize: nat)
      requires oldEnd == oldTop + oldSize + TOP_FOOT_SIZE && oldEnd % PAGESIZE == 0 && oldSize >= MIN_CHUNK_SIZE
          && oldEnd <= tbase
      requires tbase % PAGESIZE == 0 && tsize % PAGESIZE == 0 && tsize > 0
      modifies `head, `foot, `top, `topsize, `segs
      ensures psize == oldSize && top == tbase + 8 && topsize == tsize - TOP_FOOT_SIZE - 8
      ensures segs == [Segment(tbase, tsize)] + old(segs) && foot == old(foot)[oldTop + oldSize := oldSize]
      ensures RetiredWords(old(head), head, oldTop, oldSize, top, topsize)
    {
      var ssize := PadRequest(16);
      var csp: Ptr := RecordPlace(oldTop, oldSize, oldEnd);
      PageArith(tbase, tsize);
      hide AlignOffset;
      InitTop(tbase, tsize - TOP_FOOT_SIZE);
      head := head[csp := Head(ssize, true, true)];
      segs := [Segment(tbase, tsize)] + segs;
      Fences(csp + ssize, oldEnd);
      psize := csp - oldTop;
      head := head[csp := head[csp].(pinuse := false)];
      head := head[oldTop := Head(psize, false, true)];
      foot := foot[oldTop + psize := psize];
    }

    /* The heap `h` fits the state once the new segment s and its top of `size` bytes are in place. */
    ghost predicate RetireReady(h: Heap, id: nat, s: Segment, size: nat) reads this, smalls, trees, memory {
      var r := top + topsize;
      && memory.Valid() && BinsOk() && segs != [] && segs[0].End() == r + TOP_FOOT_SIZE && segs[0].End() % PAGESIZE == 0
      && topsize >= MIN_CHUNK_SIZE
      && View().Top() == top && SegmentsIn([s] + segs, s.base + 8, size, h.areas, id, memory.size)
      && h.cur == id && id in h.areas && h.areas[id].hi == s.base + 8
      && top in h.chunks && h.chunks[top] == Chunk(topsize, false, cur) && top != dv
      && (if dv == 0 then dvsize == 0 else dv in h.chunks && !h.chunks[dv].used && dvsize == h.chunks[dv].size)
      && RecordsIn(h, records + {r}) && LiveIn(h, records + {r}) == Live() && Bins() == FreeBins(h.chunks, dv) - {top}
    }

    lemma CanRetire(tbase: Ptr, tsize: nat, id: nat, size: nat)
      requires Valid() && top != 0 && segs[0].End() <= tbase && tbase + tsize <= memory.size
      requires tbase % PAGESIZE == 0 && tsize % PAGESIZE == 0 && tsize > 0
      requires id == FreshId(areas.Keys) && size == tsize - TOP_FOOT_SIZE - 8
      ensures CanExtend(View(), id, tbase + 8, size) && size > 0 && topsize >= MIN_CHUNK_SIZE
    {
      hide SmallBins.Valid; hide TreeBins.Valid; hide BinsOk; hide HeapOk; hide FreeBins; hide LiveIn; hide RecordsIn;
      TopIsAligned(View());
      AreasBelow();
      PageArith(tbase, tsize);
    }

    lemma RetirePlan(tbase: Ptr, tsize: nat, id: nat, size: nat)
      requires Valid() && top != 0 && segs[0].End() <= tbase && tbase + tsize <= memory.size
      requires tbase % PAGESIZE == 0 && tsize % PAGESIZE == 0 && tsize > 0
      requires id == FreshId(areas.Keys) && size == tsize - TOP_FOOT_SIZE - 8
      ensures CanExtend(View(), id, tbase + 8, size) && size > 0
      ensures RetireReady(Retire(View(), id, tbase + 8, size), id, Segment(tbase, tsize), size)
    {
      hide *;
      CanRetire(tbase, tsize, id, size);
      NextSegment(tbase, tsize, id, size);
      RetireOk(View(), id, tbase + 8, size);
      RetireIndex(View(), id, tbase + 8, size, dv, records);
      Retired(Retire(View(), id, tbase + 8, size), id, Segment(tbase, tsize), size);
    }

    lemma NextSegment(tbase: Ptr, tsize: nat, id: nat, size: nat)
      requires Valid() && top != 0 && segs[0].End() <= tbase && tbase + tsize <= memory.size
      requires tbase % PAGESIZE == 0 && tsize % PAGESIZE == 0 && tsize > 0
      requires id == FreshId(areas.Keys) && size == tsize - TOP_FOOT_SIZE - 8
      ensures View().chunks == chunks && View().topsize == topsize && View().cur == cur && View().areas == areas
          && View().Top() == top && cur in areas && id !in areas && RecordsIn(View(), records)
          && (dv != 0 ==> dv in chunks)
      ensures var areas' := areas[cur := Area(areas[cur].lo, top + topsize + SEGMENT_RECORD)]
          [id := Area(tbase + 8, tbase + 8)];
        SegmentsIn([Segment(tbase, tsize)] + segs, tbase + 8, size, areas', id, memory.size)
    {
      hide SmallBins.Valid; hide TreeBins.Valid; hide BinsOk; hide HeapOk; hide FreeBins; hide LiveIn; hide RecordsIn;
      AreasBelow();
      PageArith(tbase, tsize);
      NewSegment(segs, top, topsize, areas, cur, Segment(tbase, tsize), id, memory.size);
    }

    lemma Retired(h: Heap, id: nat, s: Segment, size: nat)
      requires Valid() && top != 0 && cur in areas && id !in areas && topsize >= MIN_CHUNK_SIZE && View().Top() == top
      requires h.areas == areas[cur := Area(areas[cur].lo, top + topsize + SEGMENT_RECORD)]
          [id := Area(s.base + 8, s.base + 8)] && h.cur == id && h.topsize == size
      requires h.chunks == chunks[top := Chunk(topsize, false, cur)][top + topsize := Chunk(SEGMENT_RECORD, true, cur)]
      requires top !in chunks && top + topsize !in chunks && top != dv && top + topsize != dv
      requires SegmentsIn([s] + segs, s.base + 8, size, h.areas, id, memory.size)
      requires FreeBins(h.chunks, dv) - {top} == FreeBins(chunks, dv)
      requires RecordsIn(h, records + {top + topsize})
          && LiveIn(h, records + {top + topsize}) == LiveIn(View(), records)
      ensures RetireReady(h, id, s, size)
    {
      hide SmallBins.Valid; hide TreeBins.Valid; hide BinsOk; hide HeapOk; hide FreeBins; hide LiveIn; hide RecordsIn;
    }

    lemma RetiredLoose(h: Heap, id: nat, p: Ptr, psize: nat, s: Segment, rest: seq<Segment>, size: nat,
        live: map<Ptr, nat>)
      requires memory.Valid() && BinsOk() && HeapOk(View()) && segs == [s] + rest
          && SegmentsIn(segs, s.base + 8, size, h.areas, id, memory.size)
      requires h.cur == id && id in h.areas && h.areas[id].hi == s.base + 8 && top == s.base + 8 && topsize == size
      requires chunks == h.chunks && areas == h.areas && cur == h.cur
      requires p in h.chunks && !h.chunks[p].used && p != dv && p != 0
      requires if dv == 0 then dvsize == 0 else dv in h.chunks && !h.chunks[dv].used && dvsize == h.chunks[dv].size
      requires RecordsIn(h, records) && LiveIn(h, records) == live && Bins() == FreeBins(h.chunks, dv) - {p}
      ensures Loose(p, live)
    {
      hide HeapOk; hide BinsOk; hide SegmentsIn; hide RecordsIn; hide LiveIn; hide FreeBins; hide LinearMemory.Valid;
      hide Loose;
      IsLoose(h, p, live);
    }

    /* The old top becomes an ordinary free chunk, in no bin yet, and top starts over. */
    method RetireTop(tbase: Ptr, tsize: nat) returns (oldTop: Ptr, psize: nat)
      requires Valid() && top != 0 && segs[0].End() <= tbase && tbase + tsize <= memory.size
      requires tbase % PAGESIZE == 0 && tsize % PAGESIZE == 0 && tsize > 0
      modifies `head, `foot, `top, `topsize, `segs, `chunks, `areas, `cur, `records
      ensures Loose(oldTop, old(Live())) && chunks[oldTop].size == psize && topsize == tsize - TOP_FOOT_SIZE - 8
      ensures top == tbase + 8
    {
      hide Valid; hide BinsOk; hide HeapOk; hide FreeBins; hide LiveIn; hide RecordsIn; hide RetiredWords; hide Loose;
      hide Unbinned; hide Live;
      hide SegmentsIn; hide AlignedAt; hide CanExtend; hide AlignOffset; hide Retire; hide LinearMemory.Valid;
      ghost var v, id, size := View(), FreshId(areas.Keys), tsize - TOP_FOOT_SIZE - 8;
      RetirePlan(tbase, tsize, id, size);
      ghost var h := Retire(v, id, tbase + 8, size);
      oldTop := top;
      psize := RetireWords(oldTop, topsize, segs[0].End(), tbase, tsize);
      chunks, areas, cur, records := h.chunks, h.areas, h.cur, records + {oldTop + psize};
      RetireFences(v, id, tbase + 8, size, View());
      RetiredLoose(h, id, oldTop, psize, Segment(tbase, tsize), old(segs), size, old(Live()));
    }

    /* add_segment.  The old top is never too small for a chunk of its own, so it always goes to a bin. */
    method AddSegment(tbase: Ptr, tsize: nat)
      requires Valid() && top != 0 && segs[0].End() <= tbase && tbase + tsize <= memory.size
      requires tbase % PAGESIZE == 0 && tsize % PAGESIZE == 0 && tsize > 0
      modifies `head, `foot, `top, `topsize, `segs, `chunks, `areas, `cur, `records, smalls, trees
      ensures Valid() && Live() == old(Live()) && topsize == tsize - TOP_FOOT_SIZE - 8 && top == tbase + 8
    {
      hide SegmentsOk; hide SmallBins.Valid; hide TreeBins.Valid; hide BinsOk; hide HeapOk; hide FreeBins; hide LiveIn;
      hide RecordsIn;
      var oldTop, psize := RetireTop(tbase, tsize);
      BinLast(chunks, dv, oldTop);
      InsertChunk(oldTop, psize);
    }

    /* The segment that ends at tbase, searched along the list; |segs| if there is none. */
    method SegmentEndingAt(tbase: Ptr) returns (i: nat)
      requires SegmentsOk() && top != 0 && segs[0].End() <= tbase && segs[0].base < segs[0].End()
      ensures i == if segs[0].End() == tbase then 0 else |segs|
    {
      i := 0;
      while i < |segs| && tbase != segs[i].End()
        invariant i <= |segs| && (i > 0 ==> segs[0].End() != tbase)
      {
        i := i + 1;
      }
    }

    /* No segment starts where new memory ends, so prepend_alloc is never reached. */
    method SegmentStartingAt(tend: Ptr) returns (i: nat)
      requires SegmentsOk() && top != 0 && segs[0].End() < tend <= W32 && segs[0].base < segs[0].End()
      ensures i == |segs|
    {
      i := 0;
      while i < |segs| && segs[i].base != tend % W32
        invariant i <= |segs|
      {
        i := i + 1;
      }
    }

    /* What sys_alloc does with tsize bytes at tbase. */
    method TakeMemory(tbase: Ptr, tsize: nat)
      requires Valid() && tbase > 0 && tbase + tsize <= memory.size && (top != 0 ==> segs[0].End() <= tbase)
      requires tbase % PAGESIZE == 0 && tsize % PAGESIZE == 0 && tsize > 0
      modifies this, smalls, trees
      ensures Valid() && Live() == old(Live())
      ensures var follows := old(top) != 0 && old(segs[0].End()) == tbase;
        && topsize == (if follows then old(topsize) + tsize else tsize - TOP_FOOT_SIZE - 8)
        && top == (if follows then old(top) else tbase + 8)
      ensures dv == old(dv) && noncontiguous == old(noncontiguous)
    {
      hide SmallBins.Valid; hide TreeBins.Valid; hide BinsOk; hide HeapOk; hide FreeBins; hide LiveIn; hide RecordsIn;
      if top == 0 {
        FirstSegment(tbase, tsize);
      } else {
        AreasBelow();
        var i := SegmentEndingAt(tbase);
        if i == 0 {
          ExtendTop(tsize);
        } else {
          var j := SegmentStartingAt(tbase + tsize);
          AddSegment(tbase, tsize);
        }
      }
    }

    /* How the cases of GetCore make up those of sys_alloc. */
    lemma RefusalMeans(nb: nat, a1: bool, a2: bool, a3: bool)
      ensures if Obtains(nb, a1, a2, a3) then
                (Provides(nb, a1, a2, a3) <==> !FallsShort(nb, a1)) && (Wastes(nb, a1, a2, a3) <==> FallsShort(nb, a1))
              else !Provides(nb, a1, a2, a3) && (Wastes(nb, a1, a2, a3) <==> Loses(nb, a1, a3))
      ensures Obtains(nb, a1, a2, a3) ==> GranularityAlign(nb + SYS_ALLOC_PADDING) > nb
      ensures GivesBack(nb, a1, a2) || Loses(nb, a1, a3) ==> GranularityAlign(nb + SYS_ALLOC_PADDING) > nb
      ensures GivesBack(nb, a1, a2) ==> !Obtains(nb, a1, a2, a3)
      ensures Loses(nb, a1, a3) ==> memory.size < W32
    {
      hide GranularityAlign;
    }

    /* The part of sys_alloc that gets memory and makes it part of the heap. */
    method ObtainMemory(nb: nat, a1: bool, a2: bool, a3: bool) returns (ok: bool, trapped: bool)
      requires Valid() && topsize <= nb && MIN_CHUNK_SIZE <= nb < W32 && (nb % 16 == 0 || nb == MAX_SIZE_T)
      modifies this, smalls, trees, memory
      ensures Valid() && Live() == old(Live()) && dv == old(dv) && memory.size >= old(memory.size)
      ensures (trapped <==> old(GivesBack(nb, a1, a2))) && (ok <==> old(Obtains(nb, a1, a2, a3)))
      ensures ok ==> (nb < topsize <==> !old(FallsShort(nb, a1))) && memory.size > old(memory.size)
      ensures ok ==> memory.size == old(memory.size) + old(Increment(nb, a1))
      ensures ok ==>
          top == old(if segs != [] && segs[0].End() == memory.size then top else memory.size + 8)
      ensures noncontiguous <==> old(noncontiguous || Disables(nb, a1))
      ensures !ok && !trapped ==> memory.size == if old(Loses(nb, a1, a3)) then W32 else old(memory.size)
    {
      hide Valid; hide Live; hide SegmentsOk; hide LinearMemory.Valid; hide PAGESIZE;
      hide GranularityAlign; hide GivesBack; hide Obtains; hide Loses; hide FallsShort; hide Disables; hide Increment;
      BeforeObtaining();
      TooBig(nb);
      var tbase, tsize;
      ok, tbase, tsize, trapped := GetCore(nb, a1, a2, a3);
      StillValid();
      if !ok { return; }
      SbrkPlace(tbase, tsize);
      if old(FallsShort(nb, a1)) { TooShort(nb, tsize); }
      TakeMemory(tbase, tsize);
    }

    lemma BeforeObtaining()
      requires Valid()
      ensures SegmentsOk() && memory.size > 0
      ensures (top != 0 <==> segs != []) && (segs != [] ==> segs[0].End() <= memory.size)
    {
      hide SmallBins.Valid; hide TreeBins.Valid; hide BinsOk; hide HeapOk; hide FreeBins; hide LiveIn; hide RecordsIn;
    }

    /* Memory has grown, and nothing else has changed that the invariant speaks of. */
    twostate lemma StillValid()
      requires old(Valid()) && View() == old(View()) && records == old(records) && segs == old(segs) && top == old(top)
          && dv == old(dv) && dvsize == old(dvsize) && unchanged(smalls) && unchanged(trees)
      requires memory.Valid() && memory.size >= old(memory.size)
      ensures Valid() && Live() == old(Live()) && memory.size % PAGESIZE == 0
    {
      hide SmallBins.Valid; hide TreeBins.Valid; hide BinsOk; hide HeapOk; hide FreeBins; hide LiveIn; hide RecordsIn;
    }

    /* sys_alloc.  It fails only for an oversized request, or if sbrk does not provide the memory. */
    method SysAlloc(nb: nat, a1: bool, a2: bool, a3: bool) returns (mem: Ptr, trapped: bool)
      requires Valid() && topsize <= nb && MIN_CHUNK_SIZE <= nb < W32 && (nb % 16 == 0 || nb == MAX_SIZE_T)
      modifies this, smalls, trees, memory
      ensures mem != 0 ==> Allocated(old(Live()), mem, nb) && top == Mem2Chunk(mem) + nb && dv == old(dv)
      ensures mem != 0 ==>
          Mem2Chunk(mem) == old(if segs != [] && segs[0].End() == memory.size then top else memory.size + 8)
      ensures mem == 0 ==> Valid() && Live() == old(Live())
      ensures nb == MAX_SIZE_T ==> mem == 0 && !trapped && memory.size == old(memory.size)
      ensures (trapped <==> old(GivesBack(nb, a1, a2))) && (trapped ==> mem == 0)
      ensures mem != 0 <==> old(Provides(nb, a1, a2, a3))
      ensures mem != 0 ==> memory.size == old(memory.size) + old(Increment(nb, a1))
      ensures mem == 0 && !trapped ==> (memory.size == old(memory.size) <==> !old(Wastes(nb, a1, a2, a3)))
      ensures memory.size >= old(memory.size) && (noncontiguous <==> old(noncontiguous || Disables(nb, a1)))
    {
      hide Valid; hide Live; hide GranularityAlign;
      TooBig(nb);
      RefusalMeans(nb, a1, a2, a3);
      hide GivesBack; hide Obtains; hide Provides; hide Wastes; hide Loses; hide FallsShort; hide Disables;
      mem := 0;
      var ok, t := ObtainMemory(nb, a1, a2, a3);
      trapped := t;
      if ok && nb < topsize { mem := CutTop(nb); }
    }

    lemma RestPlan(nb: nat, a1: bool)
      requires Valid() && nb < W32
      ensures nb == MAX_SIZE_T ==> !(nb <= dvsize) && !(nb < topsize) && !Disables(nb, a1)
      ensures Disables(nb, a1) ==> nb >= topsize
      ensures nb <= dvsize ==> PicksRest(nb, dv, if dvsize - nb < MIN_CHUNK_SIZE then 0 else dv + nb, top)
      ensures var p := if nb < topsize || (segs != [] && segs[0].End() == memory.size) then top else memory.size + 8;
        nb > dvsize ==> PicksRest(nb, p, dv, p + nb)
    {
      hide SmallBins.Valid; hide TreeBins.Valid; hide HeapOk; hide BinsOk; hide GranularityAlign; hide FirstGranted;
      DvBound();
      TopBound();
      TooBig(nb);
    }

    /* What dlmalloc does for a request that no bin serves: dv, or else top, or else the system. */
    method FromRest(nb: nat, a1: bool, a2: bool, a3: bool) returns (mem: Ptr, trapped: bool)
      requires Valid() && MIN_CHUNK_SIZE <= nb < W32 && (nb % 16 == 0 || nb == MAX_SIZE_T)
      modifies this, smalls, trees, memory
      ensures mem != 0 ==> Allocated(old(Live()), mem, nb)
      ensures var p, d, t := if mem == 0 then 0 else Mem2Chunk(mem), dv, top; mem != 0 ==> old(PicksRest(nb, p, d, t))
      ensures mem == 0 ==> Valid() && Live() == old(Live()) && !old(Provides(nb, a1, a2, a3))
      ensures nb <= old(dvsize) || nb < old(topsize) ==> mem != 0 && !trapped && memory.size == old(memory.size)
      ensures mem != 0 && nb > old(dvsize) && nb >= old(topsize) ==>
          memory.size == old(memory.size) + old(Increment(nb, a1))
      ensures nb == MAX_SIZE_T ==>
          mem == 0 && !trapped && memory.size == old(memory.size) && noncontiguous == old(noncontiguous)
      ensures trapped ==> mem == 0 && old(GivesBack(nb, a1, a2))
      ensures mem == 0 && !trapped ==> (memory.size == old(memory.size) <==> !old(Wastes(nb, a1, a2, a3)))
      ensures memory.size >= old(memory.size)
      ensures noncontiguous <==> old(noncontiguous || (nb > dvsize && Disables(nb, a1)))
    {
      hide *;
      RestPlan(nb, a1);
      trapped := false;
      if nb <= dvsize {
        mem := FromDv(nb);
      } else if nb < topsize {
        mem := CutTop(nb);
      } else {
        mem, trapped := SysAlloc(nb, a1, a2, a3);
      }
    }

    lemma MallocPlan(bytes: nat)
      requires Valid() && bytes < W32
      ensures MAX_SMALL_REQUEST < MAX_REQUEST && MIN_CHUNK_SIZE <= MAX_SIZE_T < W32
      ensures var nb := Request2Size(bytes);
        bytes < MAX_REQUEST ==>
          && MIN_CHUNK_SIZE <= nb < W32 && nb % 16 == 0
          && (bytes <= MAX_SMALL_REQUEST ==> nb <= 240)
          && (bytes > MAX_SMALL_REQUEST ==>
                nb == PadRequest(bytes) && !IsSmall(nb) && (trees.treemap == 0 ==> !Binned(nb)))
          && (Serves(nb) ==> nb < topsize || nb <= dvsize || Binned(nb))
          && (forall p, d {:trigger PicksBin(nb, p, d)} :: PicksBin(nb, p, d) ==> Binned(nb) && Picks(nb, p, d, top))
          && (forall p, d, t {:trigger PicksRest(nb, p, d, t)} | PicksRest(nb, p, d, t) && !Binned(nb) ::
                Picks(nb, p, d, t))
    {
      hide SmallBins.Valid; hide TreeBins.Valid; hide HeapOk; hide BinsOk; hide PicksRest; hide BestOf;
      var nb := Request2Size(bytes);
      RequestSizes(bytes);
      if bytes < MAX_REQUEST { ServesFrom(nb); }
      if MAX_SMALL_REQUEST < bytes < MAX_REQUEST {
        LargeBinned(nb);
        if trees.treemap == 0 {
          TreesValid();
          trees.NoTrees();
        }
      }
    }

    /* dlmalloc: a chunk of exactly the padded size, from a bin, dv or top if any of them can serve
       the request, else from the system. */
    method Malloc(bytes: nat, a1: bool, a2: bool, a3: bool) returns (mem: Ptr, trapped: bool)
      requires Valid() && bytes < W32
      modifies this, smalls, trees, memory
      ensures mem != 0 ==> Allocated(old(Live()), mem, Request2Size(bytes)) && bytes < MAX_REQUEST
      ensures var p, d, t := if mem == 0 then 0 else Mem2Chunk(mem), dv, top;
        mem != 0 ==> old(Picks(Request2Size(bytes), p, d, t))
      ensures mem == 0 ==> Valid() && Live() == old(Live())
      ensures bytes < MAX_REQUEST && old(Serves(Request2Size(bytes))) ==>
          mem != 0 && !trapped && memory.size == old(memory.size)
      ensures trapped ==>
          bytes < MAX_REQUEST && mem == 0 && old(!Serves(Request2Size(bytes)) && GivesBack(Request2Size(bytes), a1, a2))
      ensures mem == 0 && bytes < MAX_REQUEST ==> !old(Provides(Request2Size(bytes), a1, a2, a3))
      ensures var nb := Request2Size(bytes);
        mem != 0 ==>
          memory.size == old(memory.size)
            + if old(Binned(nb) || nb <= dvsize || nb < topsize) then 0 else old(Increment(nb, a1))
      ensures mem == 0 && !trapped ==> (memory.size == old(memory.size) <==>
          !(bytes < MAX_REQUEST && old(Wastes(Request2Size(bytes), a1, a2, a3))))
      ensures memory.size >= old(memory.size)
      ensures var nb := Request2Size(bytes);
        noncontiguous == (old(noncontiguous)
                          || (bytes < MAX_REQUEST && old(!Binned(nb) && nb > dvsize && Disables(nb, a1))))
    {
      hide *;
      MallocPlan(bytes);
      mem, trapped := 0, false;
      var nb := MAX_SIZE_T;
      if bytes <= MAX_SMALL_REQUEST {
        nb := Request2Size(bytes);
        mem := SmallRequest(nb);
      } else if bytes < MAX_REQUEST {
        nb := PadRequest(bytes);
        if trees.treemap != 0 { mem := TmallocLarge(nb); }
      }
      if mem == 0 { mem, trapped := FromRest(nb, a1, a2, a3); }
    }

    /* dlfree */
    method Free(mem: Ptr)
      requires Valid() && (mem == 0 || (mem >= 8 && Mem2Chunk(mem) in Live()))
      modifies this, smalls, trees
      ensures Valid() && Live() == if mem == 0 then old(Live()) else old(Live()) - {Mem2Chunk(mem)}
      ensures DvFollows(old(dv), old(dvsize))
    {
      hide SegmentsOk; hide SmallBins.Valid; hide TreeBins.Valid; hide HeapOk; hide RecordsIn; hide FreeBins;
      hide BinsOk;
      if mem != 0 {
        var p := Mem2Chunk(mem);
        ChunkFacts(View(), p);
        DisposeChunk(p, head[p].size);
      }
    }

    /* ---- realloc in place ---- */

    /* What becomes of the live chunks when p takes up s bytes. */
    ghost predicate Resized(live: map<Ptr, nat>, p: Ptr, s: nat) reads this, smalls, trees, memory {
      Valid() && Live() == live[p := s]
    }

    lemma CutLivePlan(p: Ptr, nb: nat, rsize: nat, live: map<Ptr, nat>)
      requires Valid() && live == Live() && p in live && nb % 16 == 0 && MIN_CHUNK_SIZE <= nb && MIN_CHUNK_SIZE <= rsize
          && live[p] == nb + rsize
      ensures CanSplit(View(), p, nb) && chunks[p].size == nb + rsize && HeapOk(Split(View(), p, nb)) && p + nb !in live
      ensures Built(Split(View(), p, nb), {}, live[p := nb][p + nb := rsize], dv, dvsize) && cur in areas
          && top == View().Top()
      ensures p + nb + rsize in head && head[p + nb + rsize].pinuse
    {
      hide SegmentsIn; hide SmallBins.Valid; hide TreeBins.Valid; hide HeapOk; hide RecordsIn; hide FreeBins;
      hide BinsOk;
      NextKnown(View(), p, records);
      SplitOk(View(), p, nb);
      SplitIndex(View(), p, nb, dv, records);
      ghost var h := Split(View(), p, nb);
      ChunkFacts(h, p + nb);
      NextKnown(h, p + nb, records);
      ghost var bins := FreeBins(h.chunks, dv);
      assert bins - {} == bins;
    }

    /* set_inuse(p, nb); set_inuse(r, rsize): a live chunk becomes two. */
    method CutLive(p: Ptr, nb: nat, rsize: nat) returns (r: Ptr)
      requires Valid() && p in Live() && nb + rsize == Live()[p] && nb % 16 == 0 && MIN_CHUNK_SIZE <= nb
          && MIN_CHUNK_SIZE <= rsize
      modifies `head, `chunks
      ensures r == p + nb && r !in old(Live()) && Resized(old(Live())[p := nb], r, rsize)
    {
      hide Valid; hide BinsOk; hide HeapOk; hide Built; hide LiveIn;
      ghost var live := Live();
      CutLivePlan(p, nb, rsize, live);
      ghost var h := Split(View(), p, nb);
      r := p + nb;
      head := head[p := Head(nb, true, head[p].pinuse)];
      head := head[r := WordAt(r).(pinuse := true)];
      head := head[r := Head(rsize, true, head[r].pinuse)];
      head := head[r + rsize := head[r + rsize].(pinuse := true)];
      chunks := h.chunks;
      assert head == h.head;
      assert View() == h;
      BuiltValid(h, live[p := nb][r := rsize]);
    }

    /* A word of memory; what was never written as a head is some other word. */
    function WordAt(p: Ptr): Head reads this {
      if p in head then head[p] else Head(0, false, false)
    }

    lemma AbsorbPlan(p: Ptr, n: Ptr, live: map<Ptr, nat>)
      requires Loose(n, live) && p in live && n == p + live[p]
      ensures CanNext(View(), p) && chunks[p].size == live[p] && View().End(p) == n && cur in areas
          && top == View().Top()
      ensures HeapOk(WithNext(View(), p))
          && Built(WithNext(View(), p), {}, live[p := live[p] + chunks[n].size], dv, dvsize)
    {
      hide SegmentsIn; hide SmallBins.Valid; hide TreeBins.Valid; hide BinsOk; hide HeapOk; hide RecordsIn;
      hide FreeBins; hide CanNext; hide WithNext;
      NextIs(View(), p);
      WithNextOk(View(), p);
      WithNextIndex(View(), p, dv, records);
      ghost var bins := FreeBins(WithNext(View(), p).chunks, dv);
      assert bins - {} == bins;
    }

    /* The free chunk n after p, in no bin, is all taken in: set_inuse(p, newsize). */
    method AbsorbWhole(p: Ptr, n: Ptr, newsize: nat, ghost live: map<Ptr, nat>)
      requires Loose(n, live) && p in live && n == p + live[p] && newsize == live[p] + chunks[n].size
      modifies `head, `chunks
      ensures Resized(live, p, newsize) && records == old(records)
    {
      hide Loose; hide BinsOk; hide HeapOk; hide CanNext; hide WithNext; hide Built; hide Live; hide Valid;
      AbsorbPlan(p, n, live);
      ghost var v := View();
      ghost var h := WithNext(v, p);
      WithNextOk(v, p);
      ChunkFacts(h, p);
      head := head[p := Head(newsize, true, head[p].pinuse)];
      head := head[p + newsize := head[p + newsize].(pinuse := true)];
      chunks := h.chunks;
      DeadInChunk(h, View(), p, n, n);
      BuiltValid(h, live[p := newsize]);
    }

    /* What the writes of AbsorbPart make of the state; n is no longer the head of a chunk. */
    ghost predicate Absorbed(h: Heap, p: Ptr, n: Ptr, nb: nat, rsize: nat) reads this {
      && h.areas == areas && h.cur == cur && h.topsize == topsize && h.foot == foot && cur in areas
      && top == h.Top() && p in h.chunks && p < n < p + h.chunks[p].size && p in head && p + nb + rsize in head
      && HeadsBut(h.head, head[p := Head(nb, true, head[p].pinuse)][p + nb := Head(rsize, true, true)]
           [p + nb + rsize := head[p + nb + rsize].(pinuse := true)], n)
    }

    lemma AbsorbPartPlan(p: Ptr, n: Ptr, nb: nat, rsize: nat, live: map<Ptr, nat>)
      requires Loose(n, live) && p in live && n == p + live[p] && nb + rsize == live[p] + chunks[n].size
      requires live[p] < nb && nb % 16 == 0 && MIN_CHUNK_SIZE <= rsize
      ensures CanAbsorb(View(), p, nb) && p + nb !in live && p in head && p + nb + rsize in head
      ensures Built(Absorb(View(), p, nb), {}, live[p := nb][p + nb := rsize], dv, dvsize)
          && Absorbed(Absorb(View(), p, nb), p, n, nb, rsize)
    {
      hide SegmentsIn; hide SmallBins.Valid; hide TreeBins.Valid; hide BinsOk; hide HeapOk; hide RecordsIn;
      hide FreeBins; hide LiveIn; hide CanNext; hide Absorb;
      ghost var v := View();
      LiveFacts(v, records, p);
      NextIs(v, p);
      AbsorbOk(v, p, nb);
      AbsorbIndex(v, p, nb, dv, records);
      ghost var bins := FreeBins(Absorb(v, p, nb).chunks, dv);
      assert bins - {} == bins;
    }

    lemma AbsorbedValid(h: Heap, p: Ptr, n: Ptr, rest: map<Ptr, nat>)
      requires Built(h, {}, rest, dv, dvsize) && HeadsBut(h.head, head, n)
      requires chunks == h.chunks && areas == h.areas && cur == h.cur && topsize == h.topsize && foot == h.foot
      requires cur in areas && top == h.Top() && p in chunks && p < n < p + chunks[p].size
      ensures Valid() && Live() == rest
    {
      hide Valid; hide Live; hide SegmentsIn; hide HeapOk; hide BinsOk; hide RecordsIn; hide LiveIn; hide FreeBins;
      DeadInChunk(h, View(), p, n, n);
      BuiltValid(h, rest);
    }

    /* Only part of n is needed: set_inuse(p, nb); set_inuse(r, rsize). */
    method AbsorbPart(p: Ptr, n: Ptr, nb: nat, rsize: nat, ghost live: map<Ptr, nat>) returns (r: Ptr)
      requires Loose(n, live) && p in live && n == p + live[p] && nb + rsize == live[p] + chunks[n].size
      requires live[p] < nb && nb % 16 == 0 && MIN_CHUNK_SIZE <= rsize
      modifies `head, `chunks
      ensures r == p + nb && r !in live && Resized(live[p := nb], r, rsize) && records == old(records)
    {
      hide Valid; hide Live; hide Loose; hide Built; hide CanAbsorb; hide Absorb; hide HeadsBut;
      AbsorbPartPlan(p, n, nb, rsize, live);
      ghost var h := Absorb(View(), p, nb);
      r := p + nb;
      head := head[p := Head(nb, true, head[p].pinuse)];
      head := head[r := WordAt(r).(pinuse := true)];
      head := head[r := Head(rsize, true, head[r].pinuse)];
      head := head[r + rsize := head[r + rsize].(pinuse := true)];
      assert head == old(head[p := Head(nb, true, head[p].pinuse)][p + nb := Head(rsize, true, true)]
                         [p + nb + rsize := head[p + nb + rsize].(pinuse := true)]);
      chunks := h.chunks;
      AbsorbedValid(h, p, n, live[p := nb][r := rsize]);
    }

    lemma ShiftPlan(p: Ptr, nb: nat, dsize: nat)
      requires Valid() && p in Live() && dv == p + Live()[p] && dv != 0 && nb + dsize == Live()[p] + dvsize
      requires Live()[p] < nb && nb % 16 == 0 && MIN_CHUNK_SIZE <= dsize
      ensures CanAbsorb(View(), p, nb) && cur in areas && top == View().Top()
      ensures Built(Shift(View(), p, nb), {}, Live()[p := nb], p + nb, dsize)
    {
      hide SmallBins.Valid; hide TreeBins.Valid; hide HeapOk; hide RecordsIn; hide LiveIn; hide FreeBins; hide BinsOk;
      hide CanNext; hide Shift;
      ghost var v := View();
      LiveFacts(v, records, p);
      NextIs(v, p);
      ShiftShape(v, p, nb);
      ShiftIndex(v, p, nb, records);
      ShiftOk(v, p, nb);
      ghost var bins := FreeBins(Shift(v, p, nb).chunks, p + nb);
      assert bins - {} == bins;
    }

    lemma ShiftPlace(p: Ptr, nb: nat, dsize: nat)
      requires Valid() && p in Live() && dv == p + Live()[p] && dv != 0 && nb + dsize == Live()[p] + dvsize
      requires CanAbsorb(View(), p, nb) && cur in areas
      ensures var h, r := Shift(View(), p, nb), p + nb;
        && r in h.chunks && h.chunks[r].size == dsize && h.areas == areas && h.cur == cur && h.topsize == topsize
        && h.foot == foot[r + dsize := dsize] && r + dsize == View().End(View().End(p)) && r + dsize in head
        && p in head && p < r < r + dsize && View().head == head && View().cur == cur && cur in areas
    {
      hide SegmentsOk; hide BinsOk; hide HeapOk; hide RecordsIn; hide CanNext; hide Shift; hide LiveIn;
      LiveFacts(View(), records, p);
      NextIs(View(), p);
      ShiftShape(View(), p, nb);
    }


    /* Of two writes to one word only the second counts. */
    lemma Overwrite(m: map<Ptr, Head>, p: Ptr, r: Ptr, e: Ptr, a: Head, x: Head, y: Head)
      requires e in m && e != p && e != r
      ensures m[p := a][r := x][r := y] == m[p := a][r := y]
      ensures e in m[p := a][r := y] && m[p := a][r := y][e] == m[e]
    {}

    lemma ShiftedValid(v: Heap, p: Ptr, nb: nat, live: map<Ptr, nat>)
      requires CanAbsorb(v, p, nb) && p in v.head && v.cur in v.areas
      requires var h := Shift(v, p, nb);
        && chunks == h.chunks && areas == h.areas && cur == h.cur && topsize == h.topsize && foot == h.foot
        && cur in areas && top == h.Top() && Built(h, {}, live[p := nb], dv, dvsize)
      requires var e, r := v.End(v.End(p)), p + nb;
        && e in v.head && e >= r
        && head == v.head[p := Head(nb, true, v.head[p].pinuse)][r := Head(e - r, false, true)]
             [e := v.head[e].(pinuse := false)]
      ensures Resized(live, p, nb)
    {
      hide Valid; hide Live; hide BinsOk; hide HeapOk; hide LiveIn; hide CanNext; hide CanAbsorb; hide Shift;
      hide Built;
      ShiftWords(v, p, nb, View());
      BuiltValid(Shift(v, p, nb), live[p := nb]);
    }

    /* The designated victim n gives its first bytes to p and moves up. */
    method ShiftDv(p: Ptr, n: Ptr, nb: nat, dsize: nat)
      requires Valid() && p in Live() && n == dv && n != 0 && n == p + Live()[p] && nb + dsize == Live()[p] + dvsize
      requires Live()[p] < nb && nb % 16 == 0 && MIN_CHUNK_SIZE <= dsize
      modifies `head, `foot, `chunks, `dv, `dvsize
      ensures Resized(old(Live()), p, nb) && dv == p + nb && dvsize == dsize
    {
      hide Valid; hide Live; hide CanAbsorb; hide Shift; hide Built;
      ShiftPlan(p, nb, dsize);
      ShiftPlace(p, nb, dsize);
      ghost var v, live := View(), Live();
      ghost var h := Shift(v, p, nb);
      hide *;
      var r := p + nb;
      var next := r + dsize;
      ghost var m, a := head, Head(nb, true, head[p].pinuse);
      head := head[p := Head(nb, true, head[p].pinuse)];
      head := head[r := WordAt(r).(pinuse := true)];
      Overwrite(m, p, r, next, a, head[r], Head(dsize, false, true));
      head := head[r := Head(dsize, false, true)];
      foot := foot[next := dsize];
      head := head[next := head[next].(pinuse := false)];
      dvsize := dsize;
      dv := r;
      chunks := h.chunks;
      ShiftedValid(v, p, nb, live);
    }

    lemma AbsorbTopPlan(p: Ptr, nb: nat)
      requires Valid() && p in Live() && top == p + Live()[p] && top != 0 && Live()[p] < nb < Live()[p] + topsize
          && nb % 16 == 0
      ensures CanInto(View(), p, nb) && p in head && head[p].size == chunks[p].size == Live()[p]
      ensures Built(IntoTop(View(), p, nb), {}, Live()[p := nb], dv, dvsize)
      ensures var h := IntoTop(View(), p, nb);
          h.foot == foot && h.cur == cur && h.topsize == Live()[p] + topsize - nb && cur in h.areas && h.Top() == p + nb
    {
      hide SmallBins.Valid; hide TreeBins.Valid; hide HeapOk; hide RecordsIn; hide LiveIn; hide FreeBins; hide BinsOk;
      hide IntoTop;
      ghost var v := View();
      LiveFacts(v, records, p);
      IntoTopIndex(v, p, nb, dv, records);
      IntoTopShape(v, p, nb);
      assert HeapOk(IntoTop(v, p, nb)) by { IntoTopHeap(v, p, nb); }
      SameSegments(segs, top, topsize, areas, cur, memory.size, p + nb, head[p].size + topsize - nb);
      ghost var bins := FreeBins(IntoTop(v, p, nb).chunks, dv);
      assert bins - {} == bins;
    }

    /* p grows into top. */
    method AbsorbTop(p: Ptr, nb: nat)
      requires Valid() && p in Live() && top == p + Live()[p] && top != 0 && Live()[p] < nb < Live()[p] + topsize
          && nb % 16 == 0
      modifies `head, `chunks, `areas, `top, `topsize
      ensures Resized(old(Live()), p, nb)
    {
      hide Valid; hide BinsOk; hide HeapOk; hide LiveIn; hide IntoTop; hide CanInto; hide Built;
      AbsorbTopPlan(p, nb);
      ghost var v, live := View(), Live();
      ghost var h := IntoTop(v, p, nb);
      var newsize := head[p].size + topsize;
      var newtopsize := newsize - nb;
      var newtop := p + nb;
      head := head[p := Head(nb, true, head[p].pinuse)];
      head := head[newtop := WordAt(newtop).(pinuse := true)];
      head := head[newtop := Head(newtopsize, false, true)];
      assert head == v.head[p := Head(nb, true, v.head[p].pinuse)][newtop := Head(newtopsize, false, true)];
      top := newtop;
      topsize := newtopsize;
      chunks, areas := h.chunks, h.areas;
      IntoTopWords(v, p, nb, View());
      BuiltValid(h, live[p := nb]);
    }

    /* A chunk that is large enough already gives back what it has too much of. */
    method Shrink(p: Ptr, nb: nat)
      requires Valid() && p in Live() && nb % 16 == 0 && MIN_CHUNK_SIZE <= nb <= Live()[p]
      modifies this, smalls, trees
      ensures Resized(old(Live()), p, nb) && DvFollows(old(dv), old(dvsize))
    {
      hide SegmentsOk; hide SmallBins.Valid; hide TreeBins.Valid; hide BinsOk; hide HeapOk; hide RecordsIn;
      hide FreeBins; hide LiveIn;
      ghost var live := Live();
      LiveFacts(View(), records, p);
      ChunkFacts(View(), p);
      var rsize := head[p].size - nb;
      if rsize >= MIN_CHUNK_SIZE {
        var r := CutLive(p, nb, rsize);
        DisposeChunk(r, rsize);
        UpdateAway(live[p := nb], r, rsize);
      } else {
        UpdateSame(live, p);
      }
    }

    /* The designated victim follows p and suffices together with it. */
    method GrowDv(p: Ptr, nb: nat)
      requires Valid() && p in Live() && nb % 16 == 0 && dv != 0 && dv == p + Live()[p]
          && Live()[p] < nb <= Live()[p] + dvsize
      modifies `head, `foot, `chunks, `dv, `dvsize
      ensures Resized(old(Live()), p, nb)
      ensures if dv == 0 then nb == old(Live()[p] + dvsize) else dv + dvsize == old(dv + dvsize)
    {
      hide SegmentsOk; hide SmallBins.Valid; hide TreeBins.Valid; hide BinsOk; hide HeapOk; hide RecordsIn;
      hide FreeBins; hide LiveIn;
      ghost var live := Live();
      LiveFacts(View(), records, p);
      ChunkFacts(View(), p);
      ChunkFacts(View(), dv);
      var oldsize, dvs, next := head[p].size, dvsize, dv;
      var dsize := oldsize + dvs - nb;
      if dsize >= MIN_CHUNK_SIZE {
        ShiftDv(p, next, nb, dsize);
      } else {
        DvGone(View(), next);
        dvsize := 0;
        dv := 0;
        AbsorbWhole(p, next, oldsize + dvs, live);
      }
    }

    /* A binned chunk follows p and suffices together with it. */
    method GrowNext(p: Ptr, nb: nat)
      requires Valid() && p in Live() && nb % 16 == 0 && p + Live()[p] in chunks && !chunks[p + Live()[p]].used
          && p + Live()[p] != dv && Live()[p] < nb <= Live()[p] + chunks[p + Live()[p]].size
      modifies this, smalls, trees
      ensures Resized(old(Live()), p, nb) && DvFollows(old(dv), old(dvsize))
    {
      hide SegmentsOk; hide SmallBins.Valid; hide TreeBins.Valid; hide BinsOk; hide HeapOk; hide RecordsIn;
      hide FreeBins; hide LiveIn;
      ghost var live := Live();
      LiveFacts(View(), records, p);
      ChunkFacts(View(), p);
      var oldsize := head[p].size;
      var next := p + oldsize;
      ChunkFacts(View(), next);
      var nextsize := head[next].size;
      var rsize := oldsize + nextsize - nb;
      BinnedAt(chunks, dv, next);
      UnlinkChunk(next, nextsize);
      if rsize < MIN_CHUNK_SIZE {
        AbsorbWhole(p, next, oldsize + nextsize, live);
      } else {
        var r := AbsorbPart(p, next, nb, rsize, live);
        DisposeChunk(r, rsize);
        UpdateAway(live[p := nb], r, rsize);
      }
    }

    /* try_realloc_chunk: in place, exactly if the chunk and what is free after it are large enough. */
    method TryReallocChunk(p: Ptr, nb: nat) returns (newp: Ptr)
      requires Valid() && p in Live() && nb % 16 == 0 && MIN_CHUNK_SIZE <= nb < W32
      modifies this, smalls, trees
      ensures newp == 0 || newp == p
      ensures newp == p <==> nb <= old(Room(p))
      ensures newp == 0 ==> unchanged(this) && unchanged(smalls) && unchanged(trees)
      ensures DvFollows(old(dv), old(dvsize)) || (newp == p && dv != 0 && dv + dvsize == old(dv + dvsize))
          || (newp == p && dv == 0 && old(dv == p + Live()[p] && nb == Live()[p] + dvsize))
      ensures Valid() && Live() == if newp == p then old(Live())[p := nb] else old(Live())
    {
      hide LinearMemory.Valid;
      hide SegmentsOk; hide SmallBins.Valid; hide TreeBins.Valid; hide BinsOk; hide HeapOk; hide RecordsIn;
      hide FreeBins; hide LiveIn;
      ghost var live := Live();
      LiveFacts(View(), records, p);
      ChunkFacts(View(), p);
      NextKnown(View(), p, records);
      newp := 0;
      var oldsize := head[p].size;
      var next := p + oldsize;
      RoomFacts(p);
      if oldsize >= nb {
        Shrink(p, nb);
        newp := p;
      } else if next == top {
        if oldsize + topsize > nb {
          AbsorbTop(p, nb);
          newp := p;
        }
      } else if next == dv {
        var dvs := dvsize;
        if oldsize + dvs >= nb {
          GrowDv(p, nb);
          newp := p;
        }
      } else if !head[next].cinuse {
        var nextsize := head[next].size;
        if oldsize + nextsize >= nb {
          GrowNext(p, nb);
          newp := p;
        }
      }
    }

    lemma RoomFacts(p: Ptr)
      requires Valid() && p in Live()
      ensures p in chunks
      ensures var s := chunks[p].size; var n := p + s;
        && (s <= Room(p)) && (n == top ==>
             Room(p) == s + topsize - 1 && top != 0 && topsize > 0 && n !in chunks && n != dv)
        && (n != top ==> n in chunks && n in head && head[n].cinuse == chunks[n].used && head[n].size == chunks[n].size)
        && (n != top && n == dv ==> Room(p) == s + dvsize && n != 0 && !chunks[n].used)
        && (n != top && n in chunks ==> Room(p) == if chunks[n].used then s else s + chunks[n].size)
    {
      LiveFacts(View(), records, p);
      NextKnown(View(), p, records);
      var n := p + chunks[p].size;
      if n in chunks { ChunkFacts(View(), n); }
      if top != 0 { TopIsAligned(View()); }
    }

    /* dlrealloc.  `copied` is the number of payload bytes that memcpy moves. */
    method Realloc(oldmem: Ptr, bytes: nat, a1: bool, a2: bool, a3: bool) returns (mem: Ptr, copied: nat, trapped: bool)
      requires Valid() && bytes < W32 && (oldmem == 0 || (oldmem >= 8 && Mem2Chunk(oldmem) in Live()))
      modifies this, smalls, trees, memory
      ensures mem == 0 ==> Valid() && Live() == old(Live())
      ensures mem != 0 && oldmem == 0 ==> Allocated(old(Live()), mem, Request2Size(bytes))
      ensures var p := if mem < 8 then 0 else Mem2Chunk(mem);
        mem != 0 && mem != oldmem ==> old(Picked(Request2Size(bytes), p))
      ensures mem != 0 && oldmem != 0 ==>
                && Allocated(old(Live()) - {Mem2Chunk(oldmem)}, mem, Request2Size(bytes))
                && (mem != oldmem ==>
                     Mem2Chunk(mem) !in old(Live())
                     && (var room := old(Live())[Mem2Chunk(oldmem)] - CHUNK_OVERHEAD;
                         copied == if room < bytes then room else bytes))
      ensures oldmem != 0 && bytes < MAX_REQUEST
              && old(Mem2Chunk(oldmem) in chunks && Request2Size(bytes) <= Room(Mem2Chunk(oldmem))) ==>
          mem == oldmem
      ensures mem != 0 ==> bytes < MAX_REQUEST
      ensures bytes < MAX_REQUEST && old(Serves(Request2Size(bytes))) ==> mem != 0
      ensures trapped ==>
          mem == 0 && bytes < MAX_REQUEST && old(!Serves(Request2Size(bytes)) && GivesBack(Request2Size(bytes), a1, a2))
      ensures mem == 0 && bytes < MAX_REQUEST ==> !old(Provides(Request2Size(bytes), a1, a2, a3))
    {
      hide SegmentsOk; hide SmallBins.Valid; hide TreeBins.Valid; hide BinsOk; hide HeapOk; hide RecordsIn;
      hide FreeBins; hide LiveIn;
      mem, copied, trapped := 0, 0, false;
      if oldmem == 0 {
        mem, trapped := Malloc(bytes, a1, a2, a3);
      } else if bytes < MAX_REQUEST {
        ghost var live := Live();
        var nb, oldp := Request2Size(bytes), Mem2Chunk(oldmem);
        RequestSizes(bytes);
        LiveFacts(View(), records, oldp);
        var newp := TryReallocChunk(oldp, nb);
        Replaced(live, oldp, nb);
        if newp != 0 {
          mem := Chunk2Mem(newp);
        } else {
          mem, trapped := Malloc(bytes, a1, a2, a3);
          if mem != 0 {
            LiveFacts(View(), records, oldp);
            var oc := head[oldp].size - CHUNK_OVERHEAD;
            copied := Min(oc, bytes);
            Moved(live, oldp, Mem2Chunk(mem), nb);
            Free(oldmem);
          }
        }
      }
    }

    /* The bytes behind the first nb go back. */
    method GiveTrailer(p: Ptr, nb: nat, ghost live: map<Ptr, nat>)
      requires Valid() && p !in live && p in Live() && Live() == live[p := Live()[p]]
      requires nb % 16 == 0 && MIN_CHUNK_SIZE <= nb && nb + MIN_CHUNK_SIZE < Live()[p]
      modifies this, smalls, trees
      ensures Allocated(live, Chunk2Mem(p), nb)
    {
      hide SegmentsOk; hide SmallBins.Valid; hide TreeBins.Valid; hide BinsOk; hide HeapOk; hide RecordsIn;
      hide FreeBins; hide LiveIn;
      LiveFacts(View(), records, p);
      var size := head[p].size;
      var remsize := size - nb;
      var rem := CutLive(p, nb, remsize);
      DisposeChunk(rem, remsize);
      UpdateAway(live[p := size][p := nb], rem, remsize);
      UpdateTwice(live, p, size, nb);
    }

    lemma MemalignSizes(bytes: nat, al: nat)
      requires MIN_CHUNK_SIZE <= al && bytes < MAX_REQUEST - al
      ensures var nb := Request2Size(bytes);
        && nb % 16 == 0 && MIN_CHUNK_SIZE <= nb && nb + al + MIN_CHUNK_SIZE - CHUNK_OVERHEAD < W32
        && Request2Size(nb + al + MIN_CHUNK_SIZE - CHUNK_OVERHEAD) >= nb + al + MIN_CHUNK_SIZE
    {
      RequestSizes(bytes);
      RequestSizes(Request2Size(bytes) + al + MIN_CHUNK_SIZE - CHUNK_OVERHEAD);
    }

    /* What internal_memalign cuts off the chunk it has got. */
    method Trim(p0: Ptr, nb: nat, ghost total: nat, al: nat, ghost live: map<Ptr, nat>) returns (mem: Ptr)
      requires Valid() && p0 !in live && Live() == live[p0 := total] && nb % 16 == 0 && MIN_CHUNK_SIZE <= nb
      requires IsPowerOf2(al) && MIN_CHUNK_SIZE <= al <= HALF_W32 && nb + al + MIN_CHUNK_SIZE <= total
      modifies this, smalls, trees
      ensures mem != 0 && Allocated(live, mem, nb)
      ensures mem % al == 0 && Chunk2Mem(p0) <= mem < Chunk2Mem(p0) + al
    {
      hide SegmentsOk; hide SmallBins.Valid; hide TreeBins.Valid; hide BinsOk; hide HeapOk; hide RecordsIn;
      hide FreeBins; hide LiveIn; hide IsPowerOf2; hide Allocated;
      var p := GiveLeader(p0, total, al, live);
      mem := Chunk2Mem(p);
      LiveFacts(View(), records, p);
      if head[p].size > nb + MIN_CHUNK_SIZE {
        GiveTrailer(p, nb, live);
      }
    }

    /* internal_memalign: of a chunk large enough, the part before the aligned spot and what is left
       at the end are given back.  `hangs` tells that the loop for the alignment does not end. */
    method Memalign(alignment: nat, bytes: nat, a1: bool, a2: bool, a3: bool)
        returns (mem: Ptr, trapped: bool, hangs: bool, ghost al: nat)
      requires Valid() && bytes < W32 && alignment < W32
      modifies this, smalls, trees, memory
      ensures hangs <==> alignment > HALF_W32
      ensures hangs ==> mem == 0
      ensures mem == 0 ==> Valid() && Live() == old(Live())
      ensures mem != 0 ==> Allocated(old(Live()), mem, Request2Size(bytes)) && bytes < MAX_REQUEST - al
      ensures !hangs ==> alignment <= al <= HALF_W32 && MIN_CHUNK_SIZE <= al && IsPowerOf2(al)
      ensures mem != 0 ==>
          !hangs && mem % al == 0 && (alignment > 0 && IsPowerOf2(alignment) ==> mem % alignment == 0)
      ensures !hangs && al > MIN_CHUNK_SIZE && al != alignment ==> al / 2 < alignment
      ensures var req := Request2Size(bytes) + al + MIN_CHUNK_SIZE - CHUNK_OVERHEAD; var nb := Request2Size(req);
        !hangs && bytes < MAX_REQUEST - al && req < MAX_REQUEST ==>
          && (old(Serves(nb)) ==> mem != 0)
          && (trapped ==> old(GivesBack(nb, a1, a2)))
          && (mem == 0 ==> !old(Provides(nb, a1, a2, a3)))
          && (mem != 0 ==> exists p :: old(Picked(nb, p)) && Chunk2Mem(p) <= mem < Chunk2Mem(p) + al)
      ensures var req := Request2Size(bytes) + al + MIN_CHUNK_SIZE - CHUNK_OVERHEAD;
        trapped || mem != 0 ==> !hangs && bytes < MAX_REQUEST - al && req < MAX_REQUEST && (trapped ==> mem == 0)
    {
      hide Valid; hide Live; hide IsPowerOf2; hide Serves; hide GivesBack; hide Provides; hide Wastes; hide Picks;
      hide Disables; hide Binned; hide Request2Size;
      ghost var live := Live();
      mem, trapped := 0, false;
      var a;
      a, hangs := RoundAlignment(alignment);
      al := a;
      if hangs { return; }
      if bytes >= MAX_REQUEST - a { return; }
      MemalignSizes(bytes, a);
      var nb := Request2Size(bytes);
      var req := nb + a + MIN_CHUNK_SIZE - CHUNK_OVERHEAD;
      mem, trapped := Malloc(req, a1, a2, a3);
      if mem == 0 { return; }
      ghost var p := Mem2Chunk(mem);
      assert old(Picked(Request2Size(req), p)) by {
        ghost var d, t := dv, top;
        assert old(Picks(Request2Size(req), p, d, t));
      }
      hide Picked;
      mem := Trim(Mem2Chunk(mem), nb, Request2Size(req), a, live);
      if alignment > 0 && IsPowerOf2(alignment) { Finer(mem, alignment, a); }
    }

    /* The part of p before the first aligned address becomes a free chunk. */
    method GiveLeader(p: Ptr, ghost total: nat, al: nat, ghost live: map<Ptr, nat>) returns (newp: Ptr)
      requires Valid() && p !in live && Live() == live[p := total] && IsPowerOf2(al) && MIN_CHUNK_SIZE <= al <= HALF_W32
          && al + MIN_CHUNK_SIZE <= total
      modifies this, smalls, trees
      ensures newp >= 8 && newp !in live && Valid() && newp in Live() && Live() == live[newp := Live()[newp]]
      ensures (newp + 8) % al == 0 && total - al < Live()[newp] <= total && p <= newp < p + al
    {
      hide SegmentsOk; hide SmallBins.Valid; hide TreeBins.Valid; hide BinsOk; hide HeapOk; hide RecordsIn;
      hide FreeBins; hide LiveIn;
      hide IsPowerOf2; hide HasAlignment; hide AlignUp;
      LiveFacts(View(), records, p);
      ChunkFacts(View(), p);
      LiveEnd(p);
      newp := p;
      var mem := Chunk2Mem(p);
      HasAlignmentOk(mem, al);
      if !HasAlignment(mem, al) {
        AlignUpOk(mem, al);
        AlignedSpot(p, al);
        var br: int := Mem2Chunk(AlignUp(mem, al));
        var pos := if br - p >= MIN_CHUNK_SIZE then br else br + al;
        newp := pos;
        var leadsize := newp - p;
        var newsize := head[p].size - leadsize;
        newp := CutLive(p, leadsize, newsize);
        DisposeChunk(p, leadsize);
        Leader(live, p, leadsize, total, newp, newsize);
      }
    }

    lemma LiveEnd(p: Ptr)
      requires Valid() && p in Live()
      ensures p + Live()[p] < W32 && AlignedAt(p)
    {
      LiveFacts(View(), records, p);
      assert Placed(View(), p) && AreaOk(View(), chunks[p].seg);
    }

    /* How far p can grow in place; top must keep a byte. */
    ghost function Room(p: Ptr): nat reads this
      requires p in chunks
    {
      var s, n := chunks[p].size, p + chunks[p].size;
      if n in chunks && !chunks[n].used then s + chunks[n].size
      else if n == top && n !in chunks && topsize > 0 then s + topsize - 1
      else s
    }

    /* Some free chunk, or top, is large enough for nb bytes. */
    ghost predicate Serves(nb: nat) reads this {
      nb < topsize || exists p | p in chunks :: !chunks[p].used && nb <= chunks[p].size
    }

    /* Of the bins a large request needs only those of the trees. */
    lemma LargeBinned(nb: nat)
      requires Valid() && nb >= SMALL_LIMIT
      ensures !Binned(nb) <==>
          forall y | y in trees.Sizes() && trees.Sizes()[y] >= nb :: nb <= dvsize <= trees.Sizes()[y]
      ensures forall p | BestOf(trees.Sizes(), nb, p) :: BestOf(Bins(), nb, p)
    {
      hide SmallBins.Valid; hide TreeBins.Valid; hide HeapOk;
      forall y | y in Bins() && nb <= Bins()[y] ensures y in trees.Sizes() && trees.Sizes()[y] == Bins()[y] {}
      forall y | y in trees.Sizes() ensures y in Bins() && Bins()[y] == trees.Sizes()[y] {}
    }

    /* The large path need not look at smallbins. */
    lemma ServesFrom(nb: nat)
      requires Valid()
      ensures Serves(nb) ==> nb < topsize || nb <= dvsize || exists p | p in Bins() :: nb <= Bins()[p]
      ensures !IsSmall(nb) ==>
          forall p | p in Bins() && nb <= Bins()[p] :: p in trees.Sizes() && trees.Sizes()[p] == Bins()[p]
    {
      if p :| p in chunks && !chunks[p].used && nb <= chunks[p].size {
        ChunkFacts(View(), p);
        if p != dv { assert p in Bins() && Bins()[p] == chunks[p].size; }
      }
    }

    lemma TopBound()
      requires Valid()
      ensures topsize < MAX_SIZE_T && dvsize < MAX_SIZE_T
    {
      if top != 0 { TopIsAligned(View()); }
      if dv != 0 { ChunkFacts(View(), dv); }
    }
  }
}
