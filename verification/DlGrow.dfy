/** How a chunk in use grows in place, into the free chunk or the top after it. */
module DlGrow {
  import opened DlChunk
  import opened DlHeap
  import opened DlIndex

  ghost predicate CanAbsorb(h: Heap, p: Ptr, nb: nat) {
    CanNext(h, p) && h.chunks[p].size < nb && nb % 16 == 0
      && nb + MIN_CHUNK_SIZE <= h.chunks[p].size + h.chunks[h.End(p)].size
  }

  /* p takes in the free chunk after it, up to nb bytes; the rest is a chunk in use. */
  function Absorb(h: Heap, p: Ptr, nb: nat): Heap
    requires CanAbsorb(h, p, nb)
  {
    WithNextOk(h, p);
    Split(WithNext(h, p), p, nb)
  }

  lemma AbsorbOk(h: Heap, p: Ptr, nb: nat)
    requires CanAbsorb(h, p, nb)
    ensures var h', n, r, rsize, e := Absorb(h, p, nb), h.End(p), p + nb, h.chunks[p].size
        + h.chunks[h.End(p)].size - nb, h.End(h.End(p));
      && HeapOk(h') && CanRelease(h', r)
      && h'.chunks == (h.chunks - {n})[p := Chunk(nb, true, h.chunks[p].seg)][r := Chunk(rsize, true, h.chunks[p].seg)]
      && h'.areas == h.areas && h'.cur == h.cur && h'.topsize == h.topsize && h'.foot == h.foot
      && r !in h.chunks && p < n < r && e == r + rsize && e in h.head && p in h.head
      && (forall k | k in h'.head && k != p && k != n && k != r && k != e :: k in h.head && h'.head[k] == h.head[k])
      && p in h'.head && h'.head[p] == Head(nb, true, h.head[p].pinuse)
      && r in h'.head && h'.head[r] == Head(rsize, true, true)
      && e in h'.head && h'.head[e] == h.head[e].(pinuse := true)
  {
    WithNextOk(h, p);
    var h1 := WithNext(h, p);
    assert Placed(h, p) && Placed(h, h.End(p));
    SplitOk(h1, p, nb);
    Inside(h1, p, p + nb);
    assert p + nb != h.End(p) ==> p + nb !in h1.chunks;
    assert Tagged(h, p) && Tagged(h1, p);
    hide HeapOk; hide WithNext; hide Placed; hide CanNext; hide Tagged;
  }

  lemma AbsorbIndex(h: Heap, p: Ptr, nb: nat, dv: Ptr, records: set<Ptr>)
    requires CanAbsorb(h, p, nb) && RecordsIn(h, records) && p !in records
    ensures var h', n, r, live := Absorb(h, p, nb), h.End(p), p + nb, LiveIn(h, records);
      && FreeBins(h'.chunks, dv) == FreeBins(h.chunks, dv) - {n} && RecordsIn(h', records) && r !in records
      && r !in live
      && LiveIn(h', records) == live[p := nb][r := h.chunks[p].size + h.chunks[n].size - nb]
  {
    hide HeapOk; hide FreeBins; hide RecordsIn; hide LiveIn; hide WithNext; hide CanNext; hide Split;
    AbsorbOk(h, p, nb);
    WithNextIndex(h, p, dv, records);
    WithNextOk(h, p);
    var h1, n, r, live := WithNext(h, p), h.End(p), p + nb, LiveIn(h, records);
    SplitIndex(h1, p, nb, dv, records);
    NotLive(h, records, r);
    UpdateTwice(live, p, h.chunks[p].size + h.chunks[n].size, nb);
    hide Heap.End; hide Absorb;
  }

  /* As Absorb, but the rest stays free. */
  function Shift(h: Heap, p: Ptr, nb: nat): Heap
    requires CanAbsorb(h, p, nb)
  {
    AbsorbOk(h, p, nb);
    ReleaseOk(Absorb(h, p, nb), p + nb);
    Release(Absorb(h, p, nb), p + nb)
  }

  lemma ShiftOk(h: Heap, p: Ptr, nb: nat)
    requires CanAbsorb(h, p, nb)
    ensures var h', n, r, rsize, e := Shift(h, p, nb), h.End(p), p + nb, h.chunks[p].size
        + h.chunks[h.End(p)].size - nb, h.End(h.End(p));
      && HeapOk(h') && h'.chunks == (h.chunks - {n})[p := Chunk(nb, true, h.chunks[p].seg)][r := Chunk(rsize, false,
           h.chunks[p].seg)]
      && h'.areas == h.areas && h'.cur == h.cur && h'.topsize == h.topsize && h'.foot == h.foot[e := rsize]
      && p < n < r && e == r + rsize && e in h.head && p in h.head
      && (forall k | k in h'.head && k != p && k != n && k != r && k != e :: k in h.head && h'.head[k] == h.head[k])
      && p in h'.head && h'.head[p] == Head(nb, true, h.head[p].pinuse)
      && r in h'.head && h'.head[r] == Head(rsize, false, true)
      && e in h'.head && h'.head[e] == h.head[e].(pinuse := false)
  {
    AbsorbOk(h, p, nb);
    ReleaseOk(Absorb(h, p, nb), p + nb);
    hide HeapOk; hide Absorb; hide CanNext; hide CanRelease;
  }

  lemma ShiftShape(h: Heap, p: Ptr, nb: nat)
    requires CanAbsorb(h, p, nb)
    ensures var h', n, r, rsize := Shift(h, p, nb), h.End(p), p + nb, h.chunks[p].size + h.chunks[h.End(p)].size - nb;
      && r in h'.chunks && h'.chunks[r] == Chunk(rsize, false, h.chunks[p].seg)
      && h'.areas == h.areas && h'.cur == h.cur && h'.topsize == h.topsize && h'.foot == h.foot[r + rsize := rsize]
      && r + rsize == h.End(n) && r + rsize in h.head && p in h.head
  {
    ShiftOk(h, p, nb);
  }

  lemma ShiftWords(h: Heap, p: Ptr, nb: nat, h': Heap)
    requires CanAbsorb(h, p, nb) && p in h.head && h.cur in h.areas
    requires var h1 := Shift(h, p, nb);
        h'.chunks == h1.chunks && h'.areas == h1.areas && h'.cur == h1.cur && h'.topsize == h1.topsize
        && h'.foot == h1.foot
    requires var e, r := h.End(h.End(p)), p + nb;
      e in h.head && e >= r && h'.head == h.head[p := Head(nb, true, h.head[p].pinuse)][r := Head(e - r, false,
        true)][e := h.head[e].(pinuse := false)]
    ensures HeapOk(h')
  {
    ShiftOk(h, p, nb);
    hide HeapOk; hide CanNext; hide Shift;
    DeadInChunk(Shift(h, p, nb), h', p, h.End(p), h.End(p));
  }

  lemma ShiftIndex(h: Heap, p: Ptr, nb: nat, records: set<Ptr>)
    requires CanAbsorb(h, p, nb) && RecordsIn(h, records) && p !in records
    ensures var h', n, r := Shift(h, p, nb), h.End(p), p + nb;
      && FreeBins(h'.chunks, r) == FreeBins(h.chunks, n) && RecordsIn(h', records)
      && LiveIn(h', records) == LiveIn(h, records)[p := nb]
  {
    hide HeapOk; hide FreeBins; hide RecordsIn; hide LiveIn; hide CanNext; hide Absorb;
    AbsorbOk(h, p, nb);
    var h1, h2, n, r, live := Absorb(h, p, nb), Shift(h, p, nb), h.End(p), p + nb, LiveIn(h, records);
    assert h2.chunks == h1.chunks[r := h1.chunks[r].(used := false)] && h2.areas == h1.areas && h2.cur == h1.cur by {
      ReleaseOk(h1, r);
    }
    hide Shift; hide Heap.End;
    ShiftSteps(h, h1, h2, p, n, r, nb, records);
  }

  lemma ShiftSteps(h: Heap, h1: Heap, h2: Heap, p: Ptr, n: Ptr, r: Ptr, nb: nat, records: set<Ptr>)
    requires CanAbsorb(h, p, nb) && RecordsIn(h, records) && p !in records
    requires n == h.End(p) && r == p + nb && h1 == Absorb(h, p, nb) && r in h1.chunks && h1.chunks[r].used
        && n !in h1.chunks
    requires h2.chunks == h1.chunks[r := h1.chunks[r].(used := false)] && h2.areas == h1.areas && h2.cur == h1.cur
    ensures FreeBins(h2.chunks, r) == FreeBins(h.chunks, n) && RecordsIn(h2, records)
    ensures LiveIn(h2, records) == LiveIn(h, records)[p := nb]
  {
    hide HeapOk; hide FreeBins; hide RecordsIn; hide LiveIn; hide Absorb;
    AbsorbIndex(h, p, nb, n, records);
    FreedIndex(h1, h2, r, n, records);
    ShiftedDv(h1.chunks, r, n);
    NotInBins(h.chunks, n);
    UpdateAway(LiveIn(h, records)[p := nb], r, h.chunks[p].size + h.chunks[n].size - nb);
  }

  lemma ShiftedDv(chunks: map<Ptr, Chunk>, r: Ptr, dv: Ptr)
    requires r in chunks && chunks[r].used && dv !in chunks
    ensures FreeBins(chunks[r := chunks[r].(used := false)], r) == FreeBins(chunks, dv)
  {}

  ghost predicate CanInto(h: Heap, p: Ptr, nb: nat) {
    && HeapOk(h) && h.cur in h.areas && p in h.chunks && h.chunks[p].used && h.End(p) == h.Top()
    && nb % 16 == 0 && h.chunks[p].size < nb < h.chunks[p].size + h.topsize
  }

  /* p takes bytes from the bottom of top, up to nb. */
  function IntoTop(h: Heap, p: Ptr, nb: nat): Heap
    requires CanInto(h, p, nb)
  {
    var k := nb - h.chunks[p].size;
    IntoTopMerges(h, p, nb);
    Merge(FromTop(h, k), p)
  }

  lemma IntoTopMerges(h: Heap, p: Ptr, nb: nat)
    requires CanInto(h, p, nb)
    ensures CanCut(h, nb - h.chunks[p].size) && CanMerge(FromTop(h, nb - h.chunks[p].size), p)
    ensures h.Top() !in h.chunks && FromTop(h, nb - h.chunks[p].size).End(p) == h.Top() && p < h.Top()
    ensures p in h.head && HeapOk(Merge(FromTop(h, nb - h.chunks[p].size), p))
  {
    ChunkFacts(h, p);
    FromTopOk(h, nb - h.chunks[p].size);
    MergeOk(FromTop(h, nb - h.chunks[p].size), p);
  }

  lemma IntoTopHeap(h: Heap, p: Ptr, nb: nat)
    requires CanInto(h, p, nb)
    ensures HeapOk(IntoTop(h, p, nb))
  {
    hide HeapOk;
    IntoTopMerges(h, p, nb);
  }

  lemma IntoTopShape(h: Heap, p: Ptr, nb: nat)
    requires CanInto(h, p, nb)
    ensures var h', s := IntoTop(h, p, nb), h.chunks[p].size;
      && h'.chunks == h.chunks[p := Chunk(nb, true, h.chunks[p].seg)] && h'.foot == h.foot && h'.cur == h.cur
      && h'.topsize == s + h.topsize - nb
      && h'.areas == h.areas[h.cur := Area(h.areas[h.cur].lo, p + nb)]
  {
    hide HeapOk;
    IntoTopMerges(h, p, nb);
  }

  lemma IntoTopWords(h: Heap, p: Ptr, nb: nat, h': Heap)
    requires CanInto(h, p, nb) && p in h.head
    requires var h1 := IntoTop(h, p, nb);
        h'.chunks == h1.chunks && h'.areas == h1.areas && h'.cur == h1.cur && h'.topsize == h1.topsize
        && h'.foot == h1.foot
    requires h.chunks[p].size + h.topsize >= nb
    requires h'.head == h.head[p := Head(nb, true, h.head[p].pinuse)][p
        + nb := Head(h.chunks[p].size + h.topsize - nb, false, true)]
    ensures HeapOk(h')
  {
    hide HeapOk;
    IntoTopMerges(h, p, nb);
    IntoTopShape(h, p, nb);
    DeadInChunk(IntoTop(h, p, nb), h', p, h.Top(), h.Top());
  }

  lemma ResizedIndex(h: Heap, h': Heap, p: Ptr, nb: nat, dv: Ptr, records: set<Ptr>)
    requires p in h.chunks && h.chunks[p].used && p !in records
        && h'.chunks == h.chunks[p := Chunk(nb, true, h.chunks[p].seg)]
    ensures FreeBins(h'.chunks, dv) == FreeBins(h.chunks, dv) && LiveIn(h', records) == LiveIn(h, records)[p := nb]
  {}

  lemma IntoTopIndex(h: Heap, p: Ptr, nb: nat, dv: Ptr, records: set<Ptr>)
    requires CanInto(h, p, nb) && RecordsIn(h, records) && p !in records
    ensures var h' := IntoTop(h, p, nb);
      FreeBins(h'.chunks, dv) == FreeBins(h.chunks, dv) && RecordsIn(h', records)
        && LiveIn(h', records) == LiveIn(h, records)[p := nb]
  {
    IntoTopMerges(h, p, nb);
    IntoTopShape(h, p, nb);
    BeforeTop(h, p);
    var h' := IntoTop(h, p, nb);
    hide HeapOk; hide IntoTop; hide FreeBins; hide LiveIn;
    ResizedIndex(h, h', p, nb, dv, records);
    forall x | x in h'.chunks && h'.chunks[x].seg in h'.areas && h'.chunks[x].seg != h'.cur
      && h'.End(x) == h'.areas[h'.chunks[x].seg].hi
      ensures x in records
    {
      assert x != p ==> h.End(x) == h'.End(x);
    }
  }
}
