/** The index of a heap: which free chunks belong in bins, which chunks are live.  For each elementary
    change of the heap, what becomes of the index. */
module DlIndex {
  import opened Words
  import opened DlChunk
  import opened DlHeap
  import opened DlTreeBins

  /* The free chunks that belong in bins: all but the designated victim. */
  function FreeBins(chunks: map<Ptr, Chunk>, dv: Ptr): map<Ptr, nat> {
    map p | p in chunks && !chunks[p].used && p != dv :: chunks[p].size
  }

  /* Old segments end with the record of a later one. */
  ghost predicate RecordsIn(h: Heap, records: set<Ptr>) {
    && (forall p | p in records :: p in h.chunks && h.chunks[p].used)
    && forall p | p in h.chunks && h.chunks[p].seg in h.areas && h.chunks[p].seg != h.cur
    && h.End(p) == h.areas[h.chunks[p].seg].hi :: p in records
  }

  ghost function LiveIn(h: Heap, records: set<Ptr>): map<Ptr, nat> {
    map p | p in h.chunks && h.chunks[p].used && p !in records :: h.chunks[p].size
  }

  /* v has the smallest size that is at least nb. */
  ghost predicate BestOf(sizes: map<Ptr, nat>, nb: nat, v: Ptr) {
    v in sizes && nb <= sizes[v] && forall y | y in sizes && sizes[y] >= nb :: sizes[v] <= sizes[y]
  }

  lemma ChunkFacts(h: Heap, p: Ptr)
    requires HeapOk(h) && p in h.chunks
    ensures p >= 8 && h.chunks[p].size % 16 == 0 && MIN_CHUNK_SIZE <= h.chunks[p].size < W32
    ensures p in h.head && h.head[p].size == h.chunks[p].size && h.head[p].cinuse == h.chunks[p].used
  {
    assert Placed(h, p) && Tagged(h, p) && AreaOk(h, h.chunks[p].seg);
  }

  lemma LiveFacts(h: Heap, records: set<Ptr>, p: Ptr)
    requires HeapOk(h) && p in LiveIn(h, records)
    ensures p in h.chunks && h.chunks[p].used && p !in records && LiveIn(h, records)[p] == h.chunks[p].size
    ensures p >= 8 && h.chunks[p].size >= MIN_CHUNK_SIZE && p in h.head && h.head[p].size == h.chunks[p].size
        && h.head[p].cinuse
  {
    ChunkFacts(h, p);
  }

  /* After a live chunk comes another chunk or top. */
  lemma NextKnown(h: Heap, p: Ptr, records: set<Ptr>)
    requires HeapOk(h) && RecordsIn(h, records) && p in h.chunks && h.chunks[p].used && p !in records
    ensures h.End(p) in h.head && h.head[h.End(p)].pinuse
    ensures if h.End(p) in h.chunks then h.head[h.End(p)].cinuse == h.chunks[h.End(p)].used
            else h.cur in h.areas && h.End(p) == h.Top() && !h.head[h.End(p)].cinuse
    ensures p in h.head && (!h.head[p].pinuse ==> p in h.foot && CanPrev(h, p, h.foot[p]))
    ensures h.cur in h.areas && h.End(p) == h.Top() ==> h.End(p) !in h.chunks
  {
    assert Placed(h, p) && Tagged(h, p);
    if h.End(p) in h.chunks {
      assert Tagged(h, h.End(p));
      if h.cur in h.areas { TopApart(h, h.End(p)); }
    }
  }

  lemma NextIs(h: Heap, p: Ptr)
    requires HeapOk(h) && p in h.chunks && h.chunks[p].used && h.End(p) in h.chunks && !h.chunks[h.End(p)].used
    ensures CanNext(h, p)
  {}

  /* Sizes of chunks are where chunksize reads them. */
  lemma HeadsOf(h: Heap, sizes: map<Ptr, nat>)
    requires HeapOk(h) && forall x | x in sizes :: x in h.chunks && h.chunks[x].size == sizes[x]
    ensures HeadsHold(h.head, sizes)
  {
    forall x | x in sizes ensures x in h.head && h.head[x].size == sizes[x] { assert Tagged(h, x); }
  }

  lemma InFreeBins(chunks: map<Ptr, Chunk>, dv: Ptr, p: Ptr)
    requires p in FreeBins(chunks, dv)
    ensures p in chunks && !chunks[p].used && p != dv && chunks[p].size == FreeBins(chunks, dv)[p]
  {}

  lemma BinnedAt(chunks: map<Ptr, Chunk>, dv: Ptr, p: Ptr)
    requires p in chunks && !chunks[p].used && p != dv
    ensures p in FreeBins(chunks, dv) && FreeBins(chunks, dv)[p] == chunks[p].size
  {}

  lemma NotInBins(chunks: map<Ptr, Chunk>, dv: Ptr)
    requires dv in chunks
    ensures FreeBins(chunks, dv) - {dv} == FreeBins(chunks, dv)
  {}

  lemma NotLive(h: Heap, records: set<Ptr>, r: Ptr)
    requires r !in h.chunks
    ensures r !in LiveIn(h, records)
  {}

  /* Binning the one free chunk left out completes the index. */
  lemma BinLast(chunks: map<Ptr, Chunk>, dv: Ptr, p: Ptr)
    requires p in chunks && !chunks[p].used
    ensures var rest := FreeBins(chunks, dv) - {p};
      && p !in rest && (forall x | x in rest :: x in chunks && chunks[x].size == rest[x])
      && (p != dv ==> rest[p := chunks[p].size] == FreeBins(chunks, dv))
      && (p == dv ==> rest == FreeBins(chunks, dv))
  {}

  lemma DvGone(h: Heap, p: Ptr)
    requires HeapOk(h)
    ensures FreeBins(h.chunks, 0) - {p} == FreeBins(h.chunks, p)
  {
    assert 0 in h.chunks ==> Placed(h, 0);
  }

  /* Binning the old dv makes room for r to be the new one. */
  lemma DvSwap(h: Heap, dv: Ptr, r: Ptr)
    requires HeapOk(h) && r in h.chunks && !h.chunks[r].used && r != dv
    requires dv == 0 || (dv in h.chunks && !h.chunks[dv].used)
    ensures var m := FreeBins(h.chunks, dv) - {r};
      && dv !in m && (forall x | x in m :: x in h.chunks && h.chunks[x].size == m[x])
      && (if dv == 0 then m else m[dv := h.chunks[dv].size]) == FreeBins(h.chunks, r)
      && (dv != 0 ==> h.chunks[dv].size > 0)
  {
    assert 0 in h.chunks ==> Placed(h, 0);
    if dv in h.chunks { assert Placed(h, dv); }
  }

  /* The index does not depend on words. */
  lemma SameIndex(h: Heap, h': Heap, records: set<Ptr>)
    requires h'.chunks == h.chunks && h'.areas == h.areas && h'.cur == h.cur
    ensures RecordsIn(h, records) ==> RecordsIn(h', records)
    ensures LiveIn(h, records) == LiveIn(h', records)
  {
    assert forall q :: h'.End(q) == h.End(q);
  }

  /* The index of h once the free chunk p is in use. */
  lemma UsedIndex(h: Heap, p: Ptr, dv: Ptr, records: set<Ptr>)
    requires HeapOk(h) && p in h.chunks && !h.chunks[p].used && p in h.head && h.End(p) in h.head
        && RecordsIn(h, records) && p != dv
    ensures var h' := Use(h, p);
      && FreeBins(h'.chunks, dv) == FreeBins(h.chunks, dv) - {p} && RecordsIn(h', records)
      && LiveIn(h', records) == LiveIn(h, records)[p := h.chunks[p].size] && p !in LiveIn(h, records)
  {
    var h' := Use(h, p);
    assert forall q :: h'.End(q) == h.End(q);
    assert p !in records;
    assert Tagged(h, p) && Placed(h, p);
  }

  lemma CarvedIndex(h: Heap, p: Ptr, nb: nat, dv: Ptr, records: set<Ptr>)
    requires HeapOk(h) && p in h.chunks && !h.chunks[p].used && RecordsIn(h, records) && p != dv
    requires 0 < nb < h.chunks[p].size && p + nb !in h.chunks && (dv != 0 ==> dv in h.chunks)
    ensures var h', r := Carve(h, p, nb), p + nb;
      && FreeBins(h'.chunks, dv) - {r} == FreeBins(h.chunks, dv) - {p} && RecordsIn(h', records) && r != dv
      && LiveIn(h', records) == LiveIn(h, records)[p := nb] && p !in LiveIn(h, records)
  {
    var h', r := Carve(h, p, nb), p + nb;
    assert Placed(h, p);
    assert p !in records && r !in records;
    forall x | x in h'.chunks && h'.chunks[x].seg in h'.areas && h'.chunks[x].seg != h'.cur
      && h'.End(x) == h'.areas[h'.chunks[x].seg].hi
      ensures x in records
    {
      assert x != p && x != r ==> h.End(x) == h'.End(x);
    }
  }

  lemma CarvedDv(h: Heap, p: Ptr, nb: nat, records: set<Ptr>)
    requires HeapOk(h) && p in h.chunks && !h.chunks[p].used && RecordsIn(h, records)
    requires 0 < nb < h.chunks[p].size && p + nb !in h.chunks
    ensures var h', r := Carve(h, p, nb), p + nb;
      && FreeBins(h'.chunks, r) == FreeBins(h.chunks, p) && RecordsIn(h', records)
      && LiveIn(h', records) == LiveIn(h, records)[p := nb] && p !in LiveIn(h, records)
  {
    var h', r := Carve(h, p, nb), p + nb;
    assert Placed(h, p);
    assert p !in records && r !in records;
    forall x | x in h'.chunks && h'.chunks[x].seg in h'.areas && h'.chunks[x].seg != h'.cur
      && h'.End(x) == h'.areas[h'.chunks[x].seg].hi
      ensures x in records
    {
      assert x != p && x != r ==> h.End(x) == h'.End(x);
    }
  }

  lemma FromTopIndex(h: Heap, nb: nat, dv: Ptr, records: set<Ptr>)
    requires CanCut(h, nb) && RecordsIn(h, records) && h.Top() !in h.chunks
    ensures var h', p := FromTop(h, nb), h.Top();
      && FreeBins(h'.chunks, dv) == FreeBins(h.chunks, dv) && RecordsIn(h', records)
      && LiveIn(h', records) == LiveIn(h, records)[p := nb] && p !in LiveIn(h, records) && p >= 8
  {
    var h' := FromTop(h, nb);
    assert AreaOk(h, h.cur);
    forall x | x in h'.chunks && h'.chunks[x].seg in h'.areas && h'.chunks[x].seg != h'.cur
      && h'.End(x) == h'.areas[h'.chunks[x].seg].hi
      ensures x in records
    {
      assert h.End(x) == h'.End(x);
    }
  }

  /* The index of h' when p of h has been freed. */
  lemma FreedIndex(h: Heap, h': Heap, p: Ptr, dv: Ptr, records: set<Ptr>)
    requires p in h.chunks && h.chunks[p].used && p !in records && RecordsIn(h, records)
    requires h'.chunks == h.chunks[p := h.chunks[p].(used := false)] && h'.areas == h.areas && h'.cur == h.cur
    ensures FreeBins(h'.chunks, dv) - {p} == FreeBins(h.chunks, dv)
    ensures RecordsIn(h', records) && LiveIn(h', records) == LiveIn(h, records) - {p}
  {
    assert forall q :: h'.End(q) == h.End(q);
  }

  /* The index of h' when p of h has been freed together with the free chunk n after it. */
  lemma AbsorbedIndex(h: Heap, h': Heap, p: Ptr, n: Ptr, dv: Ptr, records: set<Ptr>)
    requires HeapOk(h) && p in h.chunks && h.chunks[p].used && p !in records && RecordsIn(h, records)
    requires n == h.End(p) && n in h.chunks && !h.chunks[n].used
    requires h'.chunks == (h.chunks - {n})[p := Chunk(h.chunks[p].size + h.chunks[n].size, false, h.chunks[p].seg)]
    requires h'.areas == h.areas && h'.cur == h.cur
    ensures FreeBins(h'.chunks, dv) - {p} == FreeBins(h.chunks, dv) - {n}
    ensures n == dv ==> FreeBins(h'.chunks, p) == FreeBins(h.chunks, dv)
    ensures RecordsIn(h', records) && LiveIn(h', records) == LiveIn(h, records) - {p}
  {
    ChunkFacts(h, p);
    assert Placed(h, p) && Placed(h, n);
    forall x | x in h'.chunks && h'.chunks[x].seg in h'.areas && h'.chunks[x].seg != h'.cur
      && h'.End(x) == h'.areas[h'.chunks[x].seg].hi
      ensures x in records
    {
      assert x != p ==> h.End(x) == h'.End(x);
    }
  }

  lemma ToTopIndex(h: Heap, p: Ptr, dv: Ptr, records: set<Ptr>)
    requires CanTop(h, p) && RecordsIn(h, records) && p !in records
    ensures var h' := ToTop(h, p);
      && FreeBins(h'.chunks, dv) == FreeBins(h.chunks, dv) && RecordsIn(h', records)
      && LiveIn(h', records) == LiveIn(h, records) - {p}
      && (p == dv ==> FreeBins(h'.chunks, 0) == FreeBins(h.chunks, dv))
  {
    ToTopOk(h, p);
    BeforeTop(h, p);
    var h' := ToTop(h, p);
    assert 0 in h.chunks ==> Placed(h, 0);
    forall q | q in h'.chunks && h'.chunks[q].seg in h'.areas && h'.chunks[q].seg != h'.cur
      && h'.End(q) == h'.areas[h'.chunks[q].seg].hi
      ensures q in records
    {
      assert h.End(q) == h'.End(q);
    }
  }

  lemma WithPrevIndex(h: Heap, p: Ptr, s: nat, dv: Ptr, records: set<Ptr>)
    requires CanPrev(h, p, s) && RecordsIn(h, records) && p !in records && FreeBefore(h, p, s)
    ensures var h', q := WithPrev(h, p, s), p - s;
      && FreeBins(h'.chunks, dv) == FreeBins(h.chunks, dv) - {q} && RecordsIn(h', records) && q !in records
      && LiveIn(h', records) - {q} == LiveIn(h, records) - {p}
      && (q != dv ==> q in FreeBins(h.chunks, dv) && FreeBins(h.chunks, dv)[q] == s)
  {
    hide WithPrev;
    WithPrevOk(h, p, s);
    var h', q := WithPrev(h, p, s), p - s;
    forall x | x in h'.chunks && h'.chunks[x].seg in h'.areas && h'.chunks[x].seg != h'.cur
      && h'.End(x) == h'.areas[h'.chunks[x].seg].hi
      ensures x in records
    {
      assert x != q ==> h.End(x) == h'.End(x);
      assert Placed(h, q) && Placed(h, p);
    }
  }

  lemma WithNextIndex(h: Heap, p: Ptr, dv: Ptr, records: set<Ptr>)
    requires CanNext(h, p) && RecordsIn(h, records) && p !in records
    ensures var h', n := WithNext(h, p), h.End(p);
      && FreeBins(h'.chunks, dv) == FreeBins(h.chunks, dv) - {n} && RecordsIn(h', records)
      && LiveIn(h', records) == LiveIn(h, records)[p := h.chunks[p].size + h.chunks[n].size]
  {
    WithNextRecords(h, p, records);
    WithNextLive(h, p, records);
    WithNextFree(h, p, dv);
  }

  lemma WithNextFree(h: Heap, p: Ptr, dv: Ptr)
    requires CanNext(h, p)
    ensures FreeBins(WithNext(h, p).chunks, dv) == FreeBins(h.chunks, dv) - {h.End(p)}
  {
    WithNextOk(h, p);
    hide WithNext;
    assert Placed(h, p) && Placed(h, h.End(p));
    hide HeapOk; hide Placed;
  }

  lemma WithNextLive(h: Heap, p: Ptr, records: set<Ptr>)
    requires CanNext(h, p) && RecordsIn(h, records) && p !in records
    ensures LiveIn(WithNext(h, p), records)
         == LiveIn(h, records)[p := h.chunks[p].size + h.chunks[h.End(p)].size]
  {
    WithNextOk(h, p);
    hide WithNext;
    assert Placed(h, p) && Placed(h, h.End(p));
    hide HeapOk; hide Placed; hide RecordsIn;
  }

  lemma WithNextRecords(h: Heap, p: Ptr, records: set<Ptr>)
    requires CanNext(h, p) && RecordsIn(h, records) && p !in records
    ensures RecordsIn(WithNext(h, p), records)
  {
    WithNextOk(h, p);
    hide WithNext;
    var h', n := WithNext(h, p), h.End(p);
    assert Placed(h, p) && Placed(h, n);
    hide HeapOk; hide Placed; hide Aligned;
    forall x | x in h'.chunks && h'.chunks[x].seg in h'.areas && h'.chunks[x].seg != h'.cur
      && h'.End(x) == h'.areas[h'.chunks[x].seg].hi
      ensures x in records
    {
      assert x != p ==> h.End(x) == h'.End(x);
    }
  }

  lemma SplitIndex(h: Heap, p: Ptr, nb: nat, dv: Ptr, records: set<Ptr>)
    requires CanSplit(h, p, nb) && RecordsIn(h, records) && p !in records
    ensures var h', r, live := Split(h, p, nb), p + nb, LiveIn(h, records);
      && FreeBins(h'.chunks, dv) == FreeBins(h.chunks, dv) && RecordsIn(h', records) && r !in h.chunks && r !in records
      && LiveIn(h', records) == live[p := nb][r := h.chunks[p].size - nb]
  {
    var h', r := Split(h, p, nb), p + nb;
    Inside(h, p, r);
    assert Placed(h, p) && h'.End(r) == h.End(p);
    hide HeapOk; hide Placed; hide Aligned;
    forall x | x in h'.chunks && h'.chunks[x].seg in h'.areas && h'.chunks[x].seg != h'.cur
      && h'.End(x) == h'.areas[h'.chunks[x].seg].hi
      ensures x in records
    {
      assert x != p && x != r ==> h.End(x) == h'.End(x);
    }
  }

  lemma UpdateTwice(m: map<Ptr, nat>, p: Ptr, s: nat, t: nat)
    ensures m[p := s][p := t] == m[p := t]
  {}

  lemma Replaced(m: map<Ptr, nat>, p: Ptr, s: nat)
    ensures m[p := s] == (m - {p})[p := s]
  {}

  lemma Moved(m: map<Ptr, nat>, p: Ptr, q: Ptr, s: nat)
    requires p != q
    ensures m[q := s] - {p} == (m - {p})[q := s]
  {}

  lemma Leader(m: map<Ptr, nat>, p: Ptr, lead: nat, total: nat, q: Ptr, size: nat)
    requires p !in m && p != q
    ensures m[p := total][p := lead][q := size] - {p} == m[q := size]
  {}

  lemma UpdateSame(m: map<Ptr, nat>, p: Ptr)
    requires p in m
    ensures m[p := m[p]] == m
  {}

  lemma UpdateAway(m: map<Ptr, nat>, r: Ptr, s: nat)
    requires r !in m
    ensures m[r := s] - {r} == m
  {}

  lemma NothingYet(h: Heap)
    requires h.head == map[] && h.foot == map[] && h.chunks == map[] && h.areas == map[] && h.topsize == 0
    ensures HeapOk(h) && RecordsIn(h, {}) && LiveIn(h, {}) == map[] && FreeBins(h.chunks, 0) == map[]
  {}
}
