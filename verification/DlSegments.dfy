/** Segments of memory, and what add_segment does to the heap. */
module DlSegments {
  import opened Words
  import opened DlChunk
  import opened DlHeap
  import opened DlIndex
  import opened DlRequest
  import opened Sbrk

  datatype Segment = Segment(base: Ptr, size: nat) {
    function End(): Ptr { base + size }
  }

  const SYS_ALLOC_PADDING: nat := TOP_FOOT_SIZE + 16
  const HALF_MAX_SIZE_T: nat := 0x7FFF_FFFF

  /* granularity_align, in 32 bits */
  function GranularityAlign(s: nat): nat { (s % W32 + PAGESIZE - 1) % W32 / PAGESIZE * PAGESIZE }

  /* Whether sbrk gives `increment` bytes at the end of memory of the given size. */
  predicate Granted(answer: bool, size: nat, increment: nat) { increment == 0 || (answer && size + increment <= W32) }

  /* align_offset */
  function AlignOffset(a: nat): nat { if a % 16 == 0 then 0 else 16 - a % 16 }

  /* Page multiples modulo the alignment. */
  lemma PageMod(x: nat, c: nat)
    requires x % PAGESIZE == 0 && c < 16
    ensures (x + c) % 16 == c && (x + 16) % 16 == 0
  {
    var m := 4096 * (x / PAGESIZE);
    assert x == 16 * m;
    Mod16(m, c);
    Mod16(m + 1, 0);
  }

  lemma Mod16(m: nat, c: nat)
    requires c < 16
    ensures (16 * m + c) % 16 == c
  {}

  lemma PageSum(a: nat, b: nat)
    requires a % PAGESIZE == 0 && b % PAGESIZE == 0
    ensures (a + b) % PAGESIZE == 0
  {}

  lemma PageArith(tbase: nat, tsize: nat)
    requires tbase % PAGESIZE == 0 && tsize % PAGESIZE == 0 && tsize > 0
    ensures AlignOffset(tbase + 16) == 0 && AlignOffset(tbase + 8) == 8 && AlignedAt(tbase + 8)
    ensures tsize >= PAGESIZE && (tsize - TOP_FOOT_SIZE - 8) % 16 == 0
    ensures (tbase + tsize) % PAGESIZE == 0
  {
    PageBase(tbase);
    PageRoom(tsize);
    PageSum(tbase, tsize);
    hide AlignOffset; hide AlignedAt;
  }

  lemma PageBase(tbase: nat)
    requires tbase % PAGESIZE == 0
    ensures AlignOffset(tbase + 16) == 0 && AlignOffset(tbase + 8) == 8 && AlignedAt(tbase + 8)
  {
    PageMod(tbase, 8);
  }

  lemma PageRoom(tsize: nat)
    requires tsize % PAGESIZE == 0 && tsize > 0
    ensures tsize >= PAGESIZE && (tsize - TOP_FOOT_SIZE - 8) % 16 == 0
  {
    var m := 4096 * (tsize / PAGESIZE) - 4;
    assert tsize - TOP_FOOT_SIZE - 8 == 16 * m;
    Mod16(m, 0);
  }

  lemma Granules(s: nat, nb: nat)
    requires GranularityAlign(nb + SYS_ALLOC_PADDING) > nb && s <= nb + SYS_ALLOC_PADDING && nb < W32
    ensures s <= GranularityAlign(s) < s + PAGESIZE && GranularityAlign(s) % PAGESIZE == 0
  {
  }

  lemma TooBig(nb: nat)
    ensures nb == MAX_SIZE_T ==> GranularityAlign(nb + SYS_ALLOC_PADDING) <= nb
  {
    if nb == MAX_SIZE_T { assert (nb + SYS_ALLOC_PADDING) % W32 == SYS_ALLOC_PADDING - 1; }
  }

  lemma SbrkPlace(tbase: nat, tsize: nat)
    requires (tbase + tsize) % PAGESIZE == 0 && tsize % PAGESIZE == 0
    ensures tbase % PAGESIZE == 0
  {}

  /* Pages that lack a few bytes for a request do not hold it. */
  lemma TooShort(nb: nat, tsize: nat)
    requires nb % 16 == 0 && tsize % PAGESIZE == 0 && tsize < nb + SYS_ALLOC_PADDING
    ensures tsize - TOP_FOOT_SIZE - 8 <= nb
  {}

  lemma TopIsAligned(h: Heap)
    requires HeapOk(h) && h.cur in h.areas
    ensures AlignedAt(h.Top()) && AlignOffset(h.Top() + 8) == 0 && h.topsize >= MIN_CHUNK_SIZE
  {
    assert AreaOk(h, h.cur);
  }

  ghost function FreshId(s: set<nat>): (r: nat)
    ensures forall x | x in s :: x < r
  {
    if s == {} then 0
    else
      var x :| x in s;
      var r := FreshId(s - {x});
      assert forall y | y in s :: y == x || y in s - {x};
      if x < r then r else x + 1
  }

  /* What the segment list says of top. */
  ghost predicate SegmentsIn(segs: seq<Segment>, top: Ptr, topsize: nat, areas: map<nat, Area>, cur: nat, limit: nat) {
    && (segs == [] <==> top == 0) && (forall i | 0 <= i < |segs| :: segs[i].base > 0)
    && (segs != [] ==>
          && segs[0].End() == top + topsize + TOP_FOOT_SIZE <= limit && segs[0].End() % PAGESIZE == 0
          && cur in areas && segs[0].base <= areas[cur].lo
          && (forall i | 1 <= i < |segs| :: segs[i].End() <= segs[0].base)
          && forall i | i in areas && i != cur :: areas[i].hi < areas[cur].lo)
  }

  /* Top moves within its segment. */
  lemma SameSegments(segs: seq<Segment>, top: Ptr, topsize: nat, areas: map<nat, Area>, cur: nat, limit: nat, top': Ptr,
      topsize': nat)
    requires SegmentsIn(segs, top, topsize, areas, cur, limit) && top != 0 && top' != 0 && cur in areas
        && top + topsize == top' + topsize'
    ensures SegmentsIn(segs, top', topsize', areas[cur := Area(areas[cur].lo, top')], cur, limit)
  {}

  lemma NewSegment(segs: seq<Segment>, top: Ptr, topsize: nat, areas: map<nat, Area>, cur: nat, s: Segment, id: nat,
      limit: nat)
    requires SegmentsIn(segs, top, topsize, areas, cur, limit) && top != 0 && segs[0].End() <= s.base
        && s.End() <= limit
    requires s.End() % PAGESIZE == 0 && s.size >= TOP_FOOT_SIZE + 8
    requires forall i | i in areas :: areas[i].hi <= top
    requires id !in areas
    ensures var areas' := areas[cur := Area(areas[cur].lo, top + topsize + SEGMENT_RECORD)][id := Area(s.base
        + 8, s.base + 8)];
      SegmentsIn([s] + segs, s.base + 8, s.size - TOP_FOOT_SIZE - 8, areas', id, limit)
  {
    var n := [s] + segs;
    forall i | 1 <= i < |n| ensures n[i].End() <= s.base { assert n[i] == segs[i - 1]; }
  }

  /* add_segment on values, before the fenceposts beyond the first. */
  function Retire(h: Heap, id: nat, lo: Ptr, size: nat): Heap
    requires CanExtend(h, id, lo, size)
  {
    NewAreaOk(h, id, lo, size);
    ReleaseOk(NewArea(h, id, lo, size), h.Top());
    Release(NewArea(h, id, lo, size), h.Top())
  }

  lemma RetireOk(h: Heap, id: nat, lo: Ptr, size: nat)
    requires CanExtend(h, id, lo, size)
    ensures var h', p, r := Retire(h, id, lo, size), h.Top(), h.Top() + h.topsize;
      && HeapOk(h') && h'.foot == h.foot[r := h.topsize] && h'.cur == id && h'.topsize == size
      && h'.areas == h.areas[h.cur := Area(h.areas[h.cur].lo, r + SEGMENT_RECORD)][id := Area(lo, lo)]
      && h'.chunks == h.chunks[p := Chunk(h.topsize, false, h.cur)][r := Chunk(SEGMENT_RECORD, true, h.cur)]
      && p !in h.chunks && r !in h.chunks && p != r
  {
    hide HeapOk;
    TopHasNone(h);
    NewAreaOk(h, id, lo, size);
    ReleaseOk(NewArea(h, id, lo, size), h.Top());
  }

  lemma TopHasNone(h: Heap)
    requires HeapOk(h) && h.cur in h.areas
    ensures h.topsize > 0 && h.Top() !in h.chunks && h.Top() + h.topsize !in h.chunks
  {
    var p, r := h.Top(), h.Top() + h.topsize;
    if p in h.chunks { TopApart(h, p); }
    if r in h.chunks { TopApart(h, r); }
  }

  lemma RetireHead(h: Heap, id: nat, lo: Ptr, size: nat)
    requires CanExtend(h, id, lo, size)
    ensures var p, r := h.Top(), h.Top() + h.topsize;
      Retire(h, id, lo, size).head ==
        TopWords(h.head[p := Head(h.topsize, false, true)][r := Head(SEGMENT_RECORD, true, false)][r
          + SEGMENT_RECORD := FENCEPOST_HEAD], lo, size)
  {
    hide HeapOk;
    TopHasNone(h);
    NewAreaOk(h, id, lo, size);
    ReleaseOk(NewArea(h, id, lo, size), h.Top());
    var p, r := h.Top(), h.Top() + h.topsize;
    WordsCommute(h.head, p, r, r + SEGMENT_RECORD, lo, size, Head(h.topsize, true, true),
      Head(SEGMENT_RECORD, true, true), Head(h.topsize, false, true), Head(SEGMENT_RECORD, true, false));
    hide CanExtend; hide TopWords;
  }

  lemma WordsCommute(m: map<Ptr, Head>, p: Ptr, r: Ptr, f: Ptr, lo: Ptr, size: nat, a: Head, b: Head, a': Head,
      b': Head)
    requires p < r < f < lo
    ensures TopWords(m[p := a][r := b][f := FENCEPOST_HEAD], lo, size)[p := a'][r := b']
         == TopWords(m[p := a'][r := b'][f := FENCEPOST_HEAD], lo, size)
  {}

  lemma RetireIndex(h: Heap, id: nat, lo: Ptr, size: nat, dv: Ptr, records: set<Ptr>)
    requires CanExtend(h, id, lo, size) && RecordsIn(h, records) && (dv != 0 ==> dv in h.chunks)
    ensures var h', p, r := Retire(h, id, lo, size), h.Top(), h.Top() + h.topsize;
      && FreeBins(h'.chunks, dv) - {p} == FreeBins(h.chunks, dv) && p != dv && r != dv
      && RecordsIn(h', records + {r}) && LiveIn(h', records + {r}) == LiveIn(h, records)
  {
    RetireRecords(h, id, lo, size, records);
    RetireOk(h, id, lo, size);
    assert AreaOk(h, h.cur);
    hide CanExtend; hide Retire; hide HeapOk; hide FreeBins; hide LiveIn; hide RecordsIn;
    RetiredIndex(h, Retire(h, id, lo, size), h.Top(), h.Top() + h.topsize, dv, records);
  }

  lemma RetiredIndex(h: Heap, h': Heap, p: Ptr, r: Ptr, dv: Ptr, records: set<Ptr>)
    requires p < r && h'.chunks == h.chunks[p := Chunk(r - p, false, h.cur)][r := Chunk(SEGMENT_RECORD, true, h.cur)]
    requires p !in h.chunks && r !in h.chunks && p != dv && r != dv && RecordsIn(h, records)
    ensures FreeBins(h'.chunks, dv) - {p} == FreeBins(h.chunks, dv) && LiveIn(h', records + {r}) == LiveIn(h, records)
  {}

  lemma RetireRecords(h: Heap, id: nat, lo: Ptr, size: nat, records: set<Ptr>)
    requires CanExtend(h, id, lo, size) && RecordsIn(h, records)
    ensures RecordsIn(Retire(h, id, lo, size), records + {h.Top() + h.topsize})
  {
    hide HeapOk;
    var p, r := h.Top(), h.Top() + h.topsize;
    TopHasNone(h);
    NewAreaOk(h, id, lo, size);
    var h1 := NewArea(h, id, lo, size);
    var h' := Retire(h, id, lo, size);
    forall x | x in h'.chunks && h'.chunks[x].seg in h'.areas && h'.chunks[x].seg != h'.cur
      && h'.End(x) == h'.areas[h'.chunks[x].seg].hi
      ensures x in records + {r}
    {
      assert h1.End(x) == h'.End(x);
      if h'.chunks[x].seg == h.cur {
        SameEnd(h1, x, r);
      } else {
        assert h.End(x) == h'.End(x);
      }
    }
  }

  /* The words of memory after add_segment, up to fenceposts that nothing reads: the old top is
     free, followed by the segment record. */
  ghost predicate RetiredWords(a: map<Ptr, Head>, b: map<Ptr, Head>, oldTop: Ptr, oldSize: nat, top: Ptr,
      topsize: nat) {
    var r := oldTop + oldSize;
    var fence := r + SEGMENT_RECORD;
    && fence in b && b[fence] == FENCEPOST_HEAD
    && var c := TopWords(a, top, topsize)[r := Head(SEGMENT_RECORD, true, false)][oldTop := Head(oldSize, false, true)];
      forall k | k in c && (k < fence || fence + 24 <= k) :: k in b && b[k] == c[k]
  }

  /* The fencepost words do no harm. */
  lemma FenceApart(h: Heap, id: nat, lo: Ptr, size: nat)
    requires CanExtend(h, id, lo, size)
    ensures var h', fence := Retire(h, id, lo, size), h.Top() + h.topsize + SEGMENT_RECORD;
      && HeapOk(h') && h'.cur in h'.areas && fence + 24 <= h'.areas[h'.cur].lo == lo && h'.topsize == size
      && (forall i | i in h'.areas :: h'.areas[i].hi <= fence || fence + 24 <= h'.areas[i].lo)
      && h'.foot == h.foot[h.Top() + h.topsize := h.topsize] && h.topsize > 0 && size > 0
  {
    RetireOk(h, id, lo, size);
    assert h.topsize > 0 && AreaOk(h, h.cur);
    hide HeapOk; hide Retire;
  }

  lemma RetireFences(h: Heap, id: nat, lo: Ptr, size: nat, h': Heap)
    requires CanExtend(h, id, lo, size)
    requires var h1 := Retire(h, id, lo, size);
        h'.chunks == h1.chunks && h'.areas == h1.areas && h'.cur == h1.cur && h'.topsize == size
    requires h'.foot == h.foot[h.Top() + h.topsize := h.topsize]
    requires RetiredWords(h.head, h'.head, h.Top(), h.topsize, lo, size)
    ensures HeapOk(h')
  {
    FenceApart(h, id, lo, size);
    RetireHead(h, id, lo, size);
    FenceWords(h.head, Retire(h, id, lo, size).head, h'.head, h.Top(), h.topsize, lo, size);
    hide HeapOk; hide Retire; hide Heap.Top; hide CanExtend; hide RetiredWords; hide TopWords;
    DeadFences(Retire(h, id, lo, size), h', h.Top() + h.topsize + SEGMENT_RECORD);
  }

  lemma FenceWords(a: map<Ptr, Head>, b: map<Ptr, Head>, c: map<Ptr, Head>, p: Ptr, s: nat, lo: Ptr, size: nat)
    requires RetiredWords(a, c, p, s, lo, size) && s > 0 && p + s + SEGMENT_RECORD < lo
    requires b == TopWords(a[p := Head(s, false, true)][p + s := Head(SEGMENT_RECORD, true, false)]
        [p + s + SEGMENT_RECORD := FENCEPOST_HEAD], lo, size)
    ensures var f := p + s + SEGMENT_RECORD;
      && f in b && f in c && c[f] == b[f]
      && forall k | k in b && (k <= f - 1 || f + 24 <= k) :: k in c && c[k] == b[k]
  {}

  /* Fencepost words beyond the first are nobody's. */
  lemma DeadFences(h: Heap, h': Heap, fence: Ptr)
    requires HeapOk(h) && h.cur in h.areas && forall i | i in h.areas ::
        h.areas[i].hi <= fence || fence + 24 <= h.areas[i].lo
    requires h'.chunks == h.chunks && h'.areas == h.areas && h'.cur == h.cur && h'.topsize == h.topsize
        && h'.foot == h.foot
    requires fence in h.head && fence in h'.head && h'.head[fence] == h.head[fence]
    requires forall k | k in h.head && (k <= fence - 1 || fence + 24 <= k) :: k in h'.head && h'.head[k] == h.head[k]
    requires fence + 24 <= h.areas[h.cur].lo
    ensures HeapOk(h')
  {
    forall q | q in h.chunks ensures q <= fence || fence + 24 <= q { assert Placed(h, q); }
    forall i | i in h.areas
      ensures h.areas[i].lo <= fence || fence + 24 <= h.areas[i].lo
      ensures h.areas[i].hi <= fence || fence + 24 <= h.areas[i].hi
    {
      assert AreaOk(h, i);
    }
    assert AreaOk(h, h.cur);
    assert SameWords(h, h') by { hide HeapOk; }
    SameWordsOk(h, h');
  }
}
