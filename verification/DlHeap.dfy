/** The boundary-tag heap of dlmalloc on values: head and foot words in memory, and the chunks
    they describe.  The elementary changes below each keep `HeapOk`; dlmalloc, dlfree and
    in-place realloc are compositions of them. */
module DlHeap {
  import opened Words
  import opened DlChunk

  const TOP_FOOT_SIZE: nat := 56
  const SEGMENT_RECORD: nat := 32

  /** A chunk of the heap, in use or free, in the area `seg`. */
  datatype Chunk = Chunk(size: nat, used: bool, seg: nat)

  /** The part of a segment that chunks tile: from its first chunk up to top, or to the first
      fencepost of a segment that is no longer the topmost one. */
  datatype Area = Area(lo: Ptr, hi: Ptr)

  /** `head` and `foot` are the words of memory at chunk addresses; `cur` is the topmost area,
      whose end is the top chunk. */
  datatype Heap = Heap(head: map<Ptr, Head>, foot: map<Ptr, nat>, chunks: map<Ptr, Chunk>, areas: map<nat, Area>,
    cur: nat, topsize: nat) {
    function End(p: Ptr): Ptr { if p in chunks then p + chunks[p].size else p }

    function Top(): Ptr { if cur in areas then areas[cur].hi else 0 }
  }

  /* chunk2mem(p) is 16-byte aligned. */
  predicate AlignedAt(p: Ptr) { p % 16 == 8 }

  predicate Aligned(p: Ptr, s: nat) { AlignedAt(p) && s % 16 == 0 && s >= MIN_CHUNK_SIZE }

  ghost predicate Placed(h: Heap, p: Ptr)
    requires p in h.chunks
  {
    var c := h.chunks[p];
    && Aligned(p, c.size)
    && c.seg in h.areas && h.areas[c.seg].lo <= p && h.End(p) <= h.areas[c.seg].hi
    && if h.End(p) in h.chunks then h.chunks[h.End(p)].seg == c.seg else h.End(p) == h.areas[c.seg].hi && c.used
  }

  /* do_check_inuse_chunk, do_check_free_chunk */
  ghost predicate Tagged(h: Heap, p: Ptr)
    requires p in h.chunks
  {
    var c, n := h.chunks[p], h.End(p);
    && p in h.head && n in h.head
    && h.head[p].size == c.size && h.head[p].cinuse == c.used
    && h.head[n].pinuse == c.used
    && (!c.used ==> n in h.chunks && h.chunks[n].used && n in h.foot && h.foot[n] == c.size)
    && (!h.head[p].pinuse ==> c.used && p in h.foot && FreeBefore(h, p, h.foot[p]))
  }

  /* A free chunk of size s ends at p. */
  predicate FreeBefore(h: Heap, p: Ptr, s: nat) {
    s <= p && p - s in h.chunks && h.chunks[p - s].size == s && !h.chunks[p - s].used
  }

  ghost predicate AreaOk(h: Heap, i: nat)
    requires i in h.areas
  {
    var a := h.areas[i];
    && AlignedAt(a.lo) && AlignedAt(a.hi) && a.lo <= a.hi < W32 && a.lo in h.head && h.head[a.lo].pinuse
    && (a.lo in h.chunks || a.lo == a.hi)
  }

  predicate Clear(h: Heap, p: Ptr, q: Ptr) { h.End(p) <= q }

  ghost predicate NoOverlap(h: Heap) {
    forall p, q {:trigger Clear(h, p, q)} | p in h.chunks && q in h.chunks && p < q :: Clear(h, p, q)
  }

  ghost predicate Separated(h: Heap) {
    forall i, j | i in h.areas && j in h.areas && i != j :: h.areas[i].hi < h.areas[j].lo
      || h.areas[j].hi < h.areas[i].lo
  }

  ghost predicate TopOk(h: Heap) {
    h.cur in h.areas ==>
      && h.topsize % 16 == 0 && h.topsize > 0
      && h.Top() in h.head && h.head[h.Top()] == Head(h.topsize, false, true)
      && h.Top() + h.topsize in h.head && h.head[h.Top() + h.topsize] == Head(TOP_FOOT_SIZE, false, false)
      && h.Top() + h.topsize + TOP_FOOT_SIZE <= W32
      && forall i | i in h.areas && i != h.cur :: h.Top() + h.topsize + TOP_FOOT_SIZE <= h.areas[i].lo
           || h.areas[i].hi < h.areas[h.cur].lo
  }

  ghost predicate AllPlaced(h: Heap) {
    forall p {:trigger Placed(h, p)} | p in h.chunks :: Placed(h, p)
  }

  ghost predicate AllTagged(h: Heap) {
    forall p {:trigger Tagged(h, p)} | p in h.chunks :: Tagged(h, p)
  }

  ghost predicate AllAreas(h: Heap) {
    forall i {:trigger AreaOk(h, i)} | i in h.areas :: AreaOk(h, i)
  }

  ghost predicate HeapOk(h: Heap) {
    AllPlaced(h) && AllTagged(h) && AllAreas(h) && NoOverlap(h) && Separated(h) && TopOk(h)
  }

  /* ---- geometry ---- */

  lemma SameEnd(h: Heap, p: Ptr, q: Ptr)
    requires HeapOk(h) && p in h.chunks && q in h.chunks && h.End(p) == h.End(q)
    ensures p == q
  {
    assert Placed(h, p) && Placed(h, q);
    assert p < q ==> Clear(h, p, q);
    assert q < p ==> Clear(h, q, p);
  }

  /* Inside a chunk no other chunk starts or ends, and no area starts. */
  lemma Inside(h: Heap, p: Ptr, x: Ptr)
    requires HeapOk(h) && p in h.chunks && p < x < h.End(p)
    ensures x !in h.chunks
    ensures forall q | q in h.chunks :: h.End(q) != x
    ensures forall i | i in h.areas :: h.areas[i].lo != x && h.areas[i].hi != x
  {
    assert Placed(h, p);
    assert x in h.chunks ==> Clear(h, p, x);
    forall q | q in h.chunks ensures h.End(q) != x {
      assert Placed(h, q);
      assert p < q ==> Clear(h, p, q);
      assert q < p ==> Clear(h, q, p);
    }
    forall i | i in h.areas ensures h.areas[i].lo != x && h.areas[i].hi != x {
      assert AreaOk(h, i) && AreaOk(h, h.chunks[p].seg);
    }
  }

  /* A chunk that follows another does not start its area. */
  lemma FollowsNoLo(h: Heap, p: Ptr, i: nat)
    requires HeapOk(h) && p in h.chunks && i in h.areas
    ensures h.areas[i].lo != h.End(p)  || h.areas[i].lo == h.areas[i].hi
    ensures h.End(p) in h.chunks ==> h.areas[i].lo != h.End(p)
  {
    assert Placed(h, p) && AreaOk(h, i) && AreaOk(h, h.chunks[p].seg);
    if h.End(p) in h.chunks { assert Placed(h, h.End(p)); }
  }

  /* ---- elementary changes ---- */

  /* A free chunk is put to use: set_inuse_and_pinuse. */
  function Use(h: Heap, p: Ptr): Heap
    requires p in h.chunks && p in h.head && h.End(p) in h.head
  {
    var c, n := h.chunks[p], h.End(p);
    h.(head := h.head[p := Head(c.size, true, true)][n := h.head[n].(pinuse := true)],
      chunks := h.chunks[p := c.(used := true)])
  }

  lemma UseOk(h: Heap, p: Ptr)
    requires HeapOk(h) && p in h.chunks && !h.chunks[p].used
    ensures p in h.head && h.End(p) in h.head && HeapOk(Use(h, p))
  {
    assert Tagged(h, p);
    UsePlaced(h, p);
    UseTags(h, p);
    UseAreas(h, p);
  }

  lemma UsePlaced(h: Heap, p: Ptr)
    requires HeapOk(h) && p in h.chunks && p in h.head && h.End(p) in h.head
    ensures AllPlaced(Use(h, p)) && NoOverlap(Use(h, p)) && Separated(Use(h, p))
  {
    hide Aligned; hide AlignedAt;
    var h' := Use(h, p);
    forall q | q in h'.chunks ensures Placed(h', q) { assert Placed(h, q); }
    forall q, r | q in h'.chunks && r in h'.chunks && q < r ensures Clear(h', q, r) { assert Clear(h, q, r); }
  }

  lemma UseAreas(h: Heap, p: Ptr)
    requires HeapOk(h) && p in h.chunks && p in h.head && h.End(p) in h.head && !h.chunks[p].used
    ensures AllAreas(Use(h, p)) && TopOk(Use(h, p))
  {
    hide Aligned; hide AlignedAt;
    var h' := Use(h, p);
    forall i | i in h'.areas ensures AreaOk(h', i) { assert AreaOk(h, i); }
    if h.cur in h.areas { TopApart(h, p); assert Tagged(h, p); assert Placed(h, p); }
  }

  lemma UseTags(h: Heap, p: Ptr)
    requires HeapOk(h) && p in h.chunks && !h.chunks[p].used && p in h.head && h.End(p) in h.head
    ensures AllTagged(Use(h, p))
  {
    forall q | q in h.chunks ensures Tagged(Use(h, p), q) { UseTag(h, p, q); }
  }

  lemma UseTag(h: Heap, p: Ptr, q: Ptr)
    requires HeapOk(h) && p in h.chunks && !h.chunks[p].used && q in h.chunks
    requires p in h.head && h.End(p) in h.head
    ensures Tagged(Use(h, p), q)
  {
    assert Tagged(h, p) && Placed(h, p) && Tagged(h, q) && Placed(h, q);
    if q != p && h.End(q) == h.End(p) { SameEnd(h, p, q); }
    hide HeapOk; hide Placed;
  }

  /* A chunk in use is cut in two: set_inuse(p, nb); set_inuse(r, size - nb). */
  function Split(h: Heap, p: Ptr, nb: nat): Heap
    requires p in h.chunks && p in h.head && nb <= h.chunks[p].size
  {
    var c := h.chunks[p];
    var rest := c.size - nb;
    h.(head := h.head[p := Head(nb, true, h.head[p].pinuse)][p + nb := Head(rest, true, true)],
       chunks := h.chunks[p := Chunk(nb, true, c.seg)][p + nb := Chunk(rest, true, c.seg)])
  }

  ghost predicate CanSplit(h: Heap, p: Ptr, nb: nat) {
    && HeapOk(h) && p in h.chunks && p in h.head && h.chunks[p].used
    && nb % 16 == 0 && MIN_CHUNK_SIZE <= nb && nb + MIN_CHUNK_SIZE <= h.chunks[p].size
  }

  lemma SplitOk(h: Heap, p: Ptr, nb: nat)
    requires CanSplit(h, p, nb)
    ensures HeapOk(Split(h, p, nb))
  {
    SplitPlaced(h, p, nb);
    SplitTags(h, p, nb);
    SplitAreas(h, p, nb);
  }

  lemma SplitPlaced(h: Heap, p: Ptr, nb: nat)
    requires CanSplit(h, p, nb)
    ensures AllPlaced(Split(h, p, nb)) && NoOverlap(Split(h, p, nb)) && Separated(Split(h, p, nb))
  {
    var h' := Split(h, p, nb);
    forall q | q in h'.chunks ensures Placed(h', q) { SplitPlace(h, p, nb, q); }
    forall q, r | q in h'.chunks && r in h'.chunks && q < r ensures Clear(h', q, r) { SplitClear(h, p, nb, q, r); }
  }

  lemma SplitPlace(h: Heap, p: Ptr, nb: nat, q: Ptr)
    requires CanSplit(h, p, nb) && q in Split(h, p, nb).chunks
    ensures Placed(Split(h, p, nb), q)
  {
    assert Placed(h, p);
    Inside(h, p, p + nb);
    AlignedCut(p, h.chunks[p].size, nb);
    hide Aligned; hide AlignedAt;
    if q != p && q != p + nb { SplitOthers(h, p, nb, q); } else { hide HeapOk; }
  }

  lemma AlignedCut(p: Ptr, a: nat, b: nat)
    requires Aligned(p, a) && b % 16 == 0 && MIN_CHUNK_SIZE <= b && b + MIN_CHUNK_SIZE <= a
    ensures Aligned(p, b) && Aligned(p + b, a - b)
  {
    assert a == 16 * (a / 16) && b == 16 * (b / 16) && p == 16 * (p / 16) + 8;
    assert a - b == 16 * (a / 16 - b / 16) && p + b == 16 * (p / 16 + b / 16) + 8;
  }

  lemma SplitOthers(h: Heap, p: Ptr, nb: nat, q: Ptr)
    requires CanSplit(h, p, nb) && q in h.chunks && q != p
    ensures Placed(Split(h, p, nb), q)
  {
    Inside(h, p, p + nb);
    assert Placed(h, p) && Placed(h, q);
    hide Aligned; hide HeapOk;
  }

  lemma SplitClear(h: Heap, p: Ptr, nb: nat, q: Ptr, r: Ptr)
    requires CanSplit(h, p, nb) && q in Split(h, p, nb).chunks && r in Split(h, p, nb).chunks && q < r
    ensures Clear(Split(h, p, nb), q, r)
  {
    Inside(h, p, p + nb);
    assert q in h.chunks && r in h.chunks ==> Clear(h, q, r);
    assert r in h.chunks && p < r ==> Clear(h, p, r);
    assert q in h.chunks && q < p ==> Clear(h, q, p);
    assert q in h.chunks && p < q ==> Clear(h, p, q);
    hide HeapOk; hide Placed;
  }

  lemma SplitAreas(h: Heap, p: Ptr, nb: nat)
    requires CanSplit(h, p, nb)
    ensures AllAreas(Split(h, p, nb)) && TopOk(Split(h, p, nb))
  {
    hide Aligned; hide AlignedAt;
    var h' := Split(h, p, nb);
    forall i | i in h'.areas ensures AreaOk(h', i) { assert AreaOk(h, i); Inside(h, p, p + nb); }
    if h.cur in h.areas {
      TopApart(h, p); Inside(h, p, p + nb); assert Placed(h, p); assert AreaOk(h, h.chunks[p].seg);
    }
  }

  lemma SplitTags(h: Heap, p: Ptr, nb: nat)
    requires CanSplit(h, p, nb)
    ensures AllTagged(Split(h, p, nb))
  {
    var h' := Split(h, p, nb);
    forall q | q in h'.chunks ensures Tagged(h', q) {
      SplitTag(h, p, nb, q);
    }
  }

  lemma SplitTag(h: Heap, p: Ptr, nb: nat, q: Ptr)
    requires CanSplit(h, p, nb) && q in Split(h, p, nb).chunks
    ensures Tagged(Split(h, p, nb), q)
  {
    Inside(h, p, p + nb);
    assert Tagged(h, p) && Placed(h, p);
    if q in h.chunks { assert Tagged(h, q) && Placed(h, q); }
    assert q != p && q in h.chunks && !h.head[q].pinuse ==> q - h.foot[q] != p;
    hide HeapOk; hide Placed; hide Aligned;
  }

  /* A chunk in use between chunks in use is freed: set_free_with_pinuse. */
  function Release(h: Heap, p: Ptr): Heap
    requires p in h.chunks && h.End(p) in h.head
  {
    var c, n := h.chunks[p], h.End(p);
    h.(head := h.head[p := Head(c.size, false, true)][n := h.head[n].(pinuse := false)],
       foot := h.foot[n := c.size],
       chunks := h.chunks[p := c.(used := false)])
  }

  ghost predicate CanRelease(h: Heap, p: Ptr) {
    && HeapOk(h) && p in h.chunks && h.chunks[p].used && p in h.head && h.head[p].pinuse
    && h.End(p) in h.chunks && h.chunks[h.End(p)].used
  }

  lemma ReleaseOk(h: Heap, p: Ptr)
    requires CanRelease(h, p)
    ensures h.End(p) in h.head && HeapOk(Release(h, p))
  {
    assert Tagged(h, p);
    ReleasePlaced(h, p);
    ReleaseTags(h, p);
    ReleaseAreas(h, p);
  }

  lemma ReleasePlaced(h: Heap, p: Ptr)
    requires CanRelease(h, p) && h.End(p) in h.head
    ensures AllPlaced(Release(h, p)) && NoOverlap(Release(h, p)) && Separated(Release(h, p))
  {
    hide Aligned; hide AlignedAt;
    var h' := Release(h, p);
    forall q | q in h'.chunks ensures Placed(h', q) { assert Placed(h, q); }
    forall q, r | q in h'.chunks && r in h'.chunks && q < r ensures Clear(h', q, r) { assert Clear(h, q, r); }
  }

  lemma ReleaseAreas(h: Heap, p: Ptr)
    requires CanRelease(h, p) && h.End(p) in h.head
    ensures AllAreas(Release(h, p)) && TopOk(Release(h, p))
  {
    hide Aligned; hide AlignedAt;
    var h' := Release(h, p);
    forall i | i in h'.areas ensures AreaOk(h', i) { assert AreaOk(h, i); FollowsNoLo(h, p, i); }
    if h.cur in h.areas { TopApart(h, p); TopApart(h, h.End(p)); assert Placed(h, p); }
  }

  lemma ReleaseTags(h: Heap, p: Ptr)
    requires CanRelease(h, p) && h.End(p) in h.head
    ensures AllTagged(Release(h, p))
  {
    forall q | q in h.chunks ensures Tagged(Release(h, p), q) { ReleaseTag(h, p, q); }
  }

  lemma ReleaseTag(h: Heap, p: Ptr, q: Ptr)
    requires CanRelease(h, p) && h.End(p) in h.head && q in h.chunks
    ensures Tagged(Release(h, p), q)
  {
    assert Tagged(h, p) && Placed(h, p) && Tagged(h, q) && Placed(h, q);
    if q != p && h.End(q) == h.End(p) { SameEnd(h, p, q); }
    assert Tagged(h, h.End(p));
    hide HeapOk; hide Placed; hide Aligned;
  }

  /* A chunk in use takes in the next one, also in use: set_inuse(p, p's size + q's size). */
  function Merge(h: Heap, p: Ptr): Heap
    requires p in h.chunks && h.End(p) in h.chunks && p in h.head
  {
    var c, q := h.chunks[p], h.End(p);
    var size := c.size + h.chunks[q].size;
    h.(head := h.head[p := Head(size, true, h.head[p].pinuse)],
       chunks := (h.chunks - {q})[p := Chunk(size, true, c.seg)])
  }

  ghost predicate CanMerge(h: Heap, p: Ptr) {
    && HeapOk(h) && p in h.chunks && h.chunks[p].used && p in h.head
    && h.End(p) in h.chunks && h.chunks[h.End(p)].used
  }

  lemma MergeOk(h: Heap, p: Ptr)
    requires CanMerge(h, p)
    ensures HeapOk(Merge(h, p))
  {
    MergePlaced(h, p);
    MergeTags(h, p);
    MergeAreas(h, p);
  }

  lemma MergePlaced(h: Heap, p: Ptr)
    requires CanMerge(h, p)
    ensures AllPlaced(Merge(h, p)) && NoOverlap(Merge(h, p)) && Separated(Merge(h, p))
  {
    var h', q := Merge(h, p), h.End(p);
    forall r | r in h'.chunks ensures Placed(h', r) { MergePlace(h, p, r); }
    forall r, t | r in h'.chunks && t in h'.chunks && r < t ensures Clear(h', r, t) { MergeClear(h, p, r, t); }
  }

  lemma MergeClear(h: Heap, p: Ptr, r: Ptr, t: Ptr)
    requires CanMerge(h, p) && r in Merge(h, p).chunks && t in Merge(h, p).chunks && r < t
    ensures Clear(Merge(h, p), r, t)
  {
    assert Clear(h, r, t);
    assert h.End(p) < t ==> Clear(h, h.End(p), t);
    hide HeapOk;
  }

  lemma MergePlace(h: Heap, p: Ptr, r: Ptr)
    requires CanMerge(h, p) && r in Merge(h, p).chunks
    ensures Placed(Merge(h, p), r)
  {
    hide Aligned; hide AlignedAt;
    var q := h.End(p);
    assert Placed(h, p) && Placed(h, q) && Placed(h, r);
    if r != p && h.End(r) == q { SameEnd(h, p, r); }
    AlignedParts(h, p, q);
    AlignedParts(h, r, r);
    hide HeapOk;
  }

  lemma AlignedParts(h: Heap, p: Ptr, q: Ptr)
    requires p in h.chunks && q in h.chunks && Placed(h, p) && Placed(h, q)
    ensures Aligned(p, h.chunks[p].size + h.chunks[q].size) && h.chunks[p].size > 0 && h.chunks[q].size > 0
  {
    AlignedSum(p, h.chunks[p].size, h.chunks[q].size);
  }

  /* Multiples of 16 add up to one, and what follows an aligned chunk is aligned. */
  lemma AlignedSum(p: Ptr, a: nat, b: nat)
    requires Aligned(p, a) && b % 16 == 0
    ensures Aligned(p, a + b) && AlignedAt(p + a)
  {
    assert a == 16 * (a / 16) && b == 16 * (b / 16) && p == 16 * (p / 16) + 8;
    assert a + b == 16 * (a / 16 + b / 16) && p + a == 16 * (p / 16 + a / 16) + 8;
  }

  lemma MergeAreas(h: Heap, p: Ptr)
    requires CanMerge(h, p)
    ensures AllAreas(Merge(h, p)) && TopOk(Merge(h, p))
  {
    hide Aligned; hide AlignedAt;
    var h' := Merge(h, p);
    forall i | i in h'.areas ensures AreaOk(h', i) { assert AreaOk(h, i); FollowsNoLo(h, p, i); }
    if h.cur in h.areas { TopApart(h, p); }
  }

  lemma MergeTags(h: Heap, p: Ptr)
    requires CanMerge(h, p)
    ensures AllTagged(Merge(h, p))
  {
    forall q | q in Merge(h, p).chunks ensures Tagged(Merge(h, p), q) { MergeTag(h, p, q); }
  }

  lemma MergeTag(h: Heap, p: Ptr, r: Ptr)
    requires CanMerge(h, p) && r in Merge(h, p).chunks
    ensures Tagged(Merge(h, p), r)
  {
    var q := h.End(p);
    assert Tagged(h, p) && Placed(h, p) && Tagged(h, q) && Placed(h, q) && Tagged(h, r) && Placed(h, r);
    if r != p && h.End(r) == q { SameEnd(h, p, r); }
    hide HeapOk; hide Placed; hide Aligned;
  }

  /* The chunk before top, in use, joins top. */
  function ToTop(h: Heap, p: Ptr): Heap
    requires p in h.chunks && h.cur in h.areas
  {
    var size := h.topsize + h.chunks[p].size;
    h.(head := h.head[p := Head(size, false, true)], chunks := h.chunks - {p},
       areas := h.areas[h.cur := Area(h.areas[h.cur].lo, p)], topsize := size)
  }

  ghost predicate CanTop(h: Heap, p: Ptr) {
    && HeapOk(h) && p in h.chunks && h.chunks[p].used && p in h.head && h.head[p].pinuse
    && h.cur in h.areas && h.End(p) == h.Top()
  }

  lemma BeforeTop(h: Heap, p: Ptr)
    requires HeapOk(h) && p in h.chunks && h.cur in h.areas && h.End(p) == h.Top()
    ensures h.chunks[p].seg == h.cur && h.End(p) !in h.chunks && h.areas[h.cur].lo <= p
  {
    assert Placed(h, p);
    if h.End(p) in h.chunks { TopApart(h, h.End(p)); }
    assert AreaOk(h, h.chunks[p].seg) && AreaOk(h, h.cur);
  }

  lemma ToTopOk(h: Heap, p: Ptr)
    requires CanTop(h, p)
    ensures HeapOk(ToTop(h, p))
  {
    BeforeTop(h, p);
    ToTopPlaced(h, p);
    ToTopAreas(h, p);
    forall q | q in ToTop(h, p).chunks ensures Tagged(ToTop(h, p), q) { ToTopTag(h, p, q); }
  }

  lemma ToTopPlaced(h: Heap, p: Ptr)
    requires CanTop(h, p) && h.chunks[p].seg == h.cur
    ensures AllPlaced(ToTop(h, p)) && NoOverlap(ToTop(h, p))
  {
    hide Aligned; hide AlignedAt; hide TopOk;
    var h' := ToTop(h, p);
    forall q | q in h'.chunks ensures Placed(h', q) {
      assert Placed(h, q) && Tagged(h, q) && Placed(h, p);
      assert p < q ==> Clear(h, p, q);
      assert q < p ==> Clear(h, q, p);
      if h.End(q) == h.End(p) { SameEnd(h, p, q); }
    }
    forall q, r | q in h'.chunks && r in h'.chunks && q < r ensures Clear(h', q, r) { assert Clear(h, q, r); }
  }

  lemma ToTopAreas(h: Heap, p: Ptr)
    requires CanTop(h, p) && h.areas[h.cur].lo <= p
    ensures AllAreas(ToTop(h, p)) && Separated(ToTop(h, p)) && TopOk(ToTop(h, p))
  {
    var h' := ToTop(h, p);
    assert Placed(h, p);
    assert (h.topsize + h.chunks[p].size) % 16 == 0;
    hide Aligned; hide AlignedAt;
    assert AreaOk(h, h.cur);
    forall i | i in h'.areas ensures AreaOk(h', i) { assert AreaOk(h, i); }
    TopApart(h, p);
  }

  lemma ToTopTag(h: Heap, p: Ptr, q: Ptr)
    requires CanTop(h, p) && q in ToTop(h, p).chunks
    ensures Tagged(ToTop(h, p), q)
  {
    assert Tagged(h, p) && Placed(h, p) && Tagged(h, q) && Placed(h, q);
    hide HeapOk; hide Placed; hide Aligned;
  }

  /* A chunk in use is cut from the bottom of top. */
  function FromTop(h: Heap, nb: nat): Heap
    requires h.cur in h.areas && nb <= h.topsize
  {
    var p := h.Top();
    h.(head := h.head[p := Head(nb, true, true)][p + nb := Head(h.topsize - nb, false, true)],
       chunks := h.chunks[p := Chunk(nb, true, h.cur)],
       areas := h.areas[h.cur := Area(h.areas[h.cur].lo, p + nb)], topsize := h.topsize - nb)
  }

  ghost predicate CanCut(h: Heap, nb: nat) {
    HeapOk(h) && h.cur in h.areas && nb % 16 == 0 && MIN_CHUNK_SIZE <= nb < h.topsize
  }

  /* Every chunk lies below top or beyond it. */
  lemma AroundTop(h: Heap, q: Ptr)
    requires HeapOk(h) && h.cur in h.areas && q in h.chunks
    ensures h.End(q) <= h.Top() || h.Top() + h.topsize + TOP_FOOT_SIZE <= q
    ensures h.End(q) == h.Top() ==> h.chunks[q].used
  {
    assert Placed(h, q) && AreaOk(h, h.cur) && AreaOk(h, h.chunks[q].seg);
    if h.End(q) == h.Top() { BeforeTop(h, q); }
  }

  lemma FromTopOk(h: Heap, nb: nat)
    requires CanCut(h, nb)
    ensures h.Top() !in h.chunks && HeapOk(FromTop(h, nb))
  {
    if h.Top() in h.chunks { TopApart(h, h.Top()); }
    FromTopPlaced(h, nb);
    FromTopAreas(h, nb);
    forall q | q in FromTop(h, nb).chunks ensures Tagged(FromTop(h, nb), q) { FromTopTag(h, nb, q); }
  }

  lemma FromTopPlaced(h: Heap, nb: nat)
    requires CanCut(h, nb) && h.Top() !in h.chunks
    ensures AllPlaced(FromTop(h, nb)) && NoOverlap(FromTop(h, nb))
  {
    var h', p := FromTop(h, nb), h.Top();
    assert AreaOk(h, h.cur);
    assert Aligned(p, nb);
    hide Aligned; hide AlignedAt; hide TopOk;
    forall q | q in h'.chunks ensures Placed(h', q) {
      if q in h.chunks {
        assert Placed(h, q);
        AroundTop(h, q);
        if h.End(q) == p { BeforeTop(h, q); }
      } else {
        assert AreaOk(h, h.cur);
        if p + nb in h.chunks { AroundTop(h, p + nb); }
      }
    }
    forall q, r | q in h'.chunks && r in h'.chunks && q < r ensures Clear(h', q, r) {
      assert q in h.chunks && r in h.chunks ==> Clear(h, q, r);
      if q in h.chunks { AroundTop(h, q); assert Placed(h, q); }
      if r in h.chunks { AroundTop(h, r); }
    }
  }

  lemma FromTopAreas(h: Heap, nb: nat)
    requires CanCut(h, nb) && h.Top() !in h.chunks
    ensures AllAreas(FromTop(h, nb)) && Separated(FromTop(h, nb)) && TopOk(FromTop(h, nb))
  {
    var h' := FromTop(h, nb);
    assert AreaOk(h, h.cur);
    CutAligned(h.Top(), h.topsize, nb);
    hide Aligned; hide AlignedAt;
    forall i | i in h'.areas ensures AreaOk(h', i) { assert AreaOk(h, i); }
  }

  lemma CutAligned(p: Ptr, s: nat, nb: nat)
    requires AlignedAt(p) && s % 16 == 0 && nb % 16 == 0 && nb <= s
    ensures AlignedAt(p + nb) && (s - nb) % 16 == 0
  {}

  lemma FromTopTag(h: Heap, nb: nat, q: Ptr)
    requires CanCut(h, nb) && h.Top() !in h.chunks && q in FromTop(h, nb).chunks
    ensures Tagged(FromTop(h, nb), q)
  {
    if q in h.chunks {
      assert Tagged(h, q) && Placed(h, q);
      AroundTop(h, q);
      assert FreeBefore(h, q, if q in h.foot then h.foot[q] else 0) ==>
        FreeBefore(FromTop(h, nb), q, if q in h.foot then h.foot[q] else 0);
    }
    hide HeapOk; hide Placed; hide Aligned;
  }

  /* ---- getting memory from the system ---- */

  /* The words of init_top for a top chunk of the given size at p. */
  function TopWords(head: map<Ptr, Head>, p: Ptr, size: nat): map<Ptr, Head> {
    head[p := Head(size, false, true)][p + size := Head(TOP_FOOT_SIZE, false, false)]
  }

  /* Memory directly after top makes it larger. */
  function GrowTop(h: Heap, k: nat): Heap
    requires h.cur in h.areas
  {
    h.(head := TopWords(h.head, h.Top(), h.topsize + k), topsize := h.topsize + k)
  }

  /* The first segment. */
  function FirstArea(h: Heap, lo: Ptr, size: nat): Heap {
    h.(head := TopWords(h.head, lo, size), areas := map[0 := Area(lo, lo)], cur := 0, topsize := size)
  }

  /* add_segment: the old top becomes a chunk (still in use here), followed by the segment record
     and a fencepost; top starts over in the new segment. */
  function NewArea(h: Heap, id: nat, lo: Ptr, size: nat): Heap
    requires h.cur in h.areas
  {
    var p, r := h.Top(), h.Top() + h.topsize;
    var head := h.head[p := Head(h.topsize, true, true)][r := Head(SEGMENT_RECORD, true, true)][r
      + SEGMENT_RECORD := FENCEPOST_HEAD];
    h.(head := TopWords(head, lo, size),
       chunks := h.chunks[p := Chunk(h.topsize, true, h.cur)][r := Chunk(SEGMENT_RECORD, true, h.cur)],
       areas := h.areas[h.cur := Area(h.areas[h.cur].lo, r + SEGMENT_RECORD)][id := Area(lo, lo)], cur := id,
         topsize := size)
  }

  lemma GrowTopOk(h: Heap, k: nat)
    requires HeapOk(h) && h.cur in h.areas && k % 16 == 0 && h.Top() + h.topsize + k + TOP_FOOT_SIZE <= W32
    requires forall i | i in h.areas :: h.areas[i].hi <= h.Top()
    ensures HeapOk(GrowTop(h, k))
  {
    GrowTopAreas(h, k);
    GrowTopPlaced(h, k);
    hide GrowTop; hide AllPlaced; hide AllTagged; hide AllAreas; hide NoOverlap; hide Separated; hide TopOk;
  }

  lemma GrowTopPlaced(h: Heap, k: nat)
    requires HeapOk(h) && h.cur in h.areas && forall i | i in h.areas :: h.areas[i].hi <= h.Top()
    ensures AllPlaced(GrowTop(h, k)) && AllTagged(GrowTop(h, k)) && NoOverlap(GrowTop(h, k))
  {
    var h' := GrowTop(h, k);
    hide Placed; hide Tagged;
    forall q | q in h'.chunks ensures Placed(h', q) && Tagged(h', q) { GrowTopTag(h, k, q); }
    forall q, r | q in h'.chunks && r in h'.chunks && q < r ensures Clear(h', q, r) { assert Clear(h, q, r); }
  }

  lemma GrowTopAreas(h: Heap, k: nat)
    requires HeapOk(h) && h.cur in h.areas && k % 16 == 0 && h.Top() + h.topsize + k + TOP_FOOT_SIZE <= W32
    requires forall i | i in h.areas :: h.areas[i].hi <= h.Top()
    ensures AllAreas(GrowTop(h, k)) && Separated(GrowTop(h, k)) && TopOk(GrowTop(h, k))
  {
    var h' := GrowTop(h, k);
    Add16(h.topsize, k);
    hide AllPlaced; hide AllTagged; hide NoOverlap; hide AlignedAt;
    forall i | i in h'.areas ensures AreaOk(h', i) { assert AreaOk(h, i); }
  }

  lemma Add16(a: nat, b: nat)
    requires a % 16 == 0 && b % 16 == 0
    ensures (a + b) % 16 == 0
  {}

  lemma GrowTopTag(h: Heap, k: nat, q: Ptr)
    requires HeapOk(h) && h.cur in h.areas && q in h.chunks
    requires forall i | i in h.areas :: h.areas[i].hi <= h.Top()
    ensures Placed(GrowTop(h, k), q) && Tagged(GrowTop(h, k), q)
  {
    assert Placed(h, q) && Tagged(h, q) && AreaOk(h, h.chunks[q].seg);
    AroundTop(h, q);
    hide HeapOk; hide Aligned;
  }

  lemma FirstAreaOk(h: Heap, lo: Ptr, size: nat)
    requires HeapOk(h) && h.areas == map[] && AlignedAt(lo)
    requires size % 16 == 0 && size > 0 && lo + size + TOP_FOOT_SIZE <= W32
    ensures HeapOk(FirstArea(h, lo, size))
  {
    var h' := FirstArea(h, lo, size);
    assert forall q :: q in h.chunks ==> Placed(h, q);
    assert forall q :: q !in h.chunks;
    assert AreaOk(h', 0);
  }

  /* Memory beyond everything known so far. */
  ghost predicate CanExtend(h: Heap, id: nat, lo: Ptr, size: nat) {
    && HeapOk(h) && h.cur in h.areas && id !in h.areas && AlignedAt(lo)
    && size % 16 == 0 && size > 0 && lo + size + TOP_FOOT_SIZE <= W32
    && h.Top() + h.topsize + TOP_FOOT_SIZE <= lo
    && forall i | i in h.areas :: h.areas[i].hi < lo
  }

  lemma NewAreaOk(h: Heap, id: nat, lo: Ptr, size: nat)
    requires CanExtend(h, id, lo, size)
    ensures HeapOk(NewArea(h, id, lo, size)) && CanRelease(NewArea(h, id, lo, size), h.Top())
  {
    NewAreaPlaced(h, id, lo, size);
    NewAreaAreas(h, id, lo, size);
    var h' := NewArea(h, id, lo, size);
    forall q | q in h'.chunks ensures Tagged(h', q) { NewAreaTag(h, id, lo, size, q); }
    assert Tagged(h', h.Top());
  }

  lemma NewAreaPlaced(h: Heap, id: nat, lo: Ptr, size: nat)
    requires CanExtend(h, id, lo, size)
    ensures AllPlaced(NewArea(h, id, lo, size)) && NoOverlap(NewArea(h, id, lo, size))
  {
    hide HeapOk; hide Placed;
    var h' := NewArea(h, id, lo, size);
    forall q | q in h'.chunks ensures Placed(h', q) { NewAreaPlace(h, id, lo, size, q); }
    forall q, r | q in h'.chunks && r in h'.chunks && q < r ensures Clear(h', q, r) {
      NewAreaClear(h, id, lo, size, q, r);
    }
  }

  lemma NewAreaPlace(h: Heap, id: nat, lo: Ptr, size: nat, q: Ptr)
    requires CanExtend(h, id, lo, size) && q in NewArea(h, id, lo, size).chunks
    ensures Placed(NewArea(h, id, lo, size), q)
  {
    TopFresh(h);
    hide HeapOk;
    if q in h.chunks { NewAreaOld(h, id, lo, size, q); } else { NewAreaFresh(h, id, lo, size, q); }
  }

  lemma TopFresh(h: Heap)
    requires HeapOk(h) && h.cur in h.areas
    ensures h.Top() !in h.chunks && h.Top() + h.topsize !in h.chunks
  {
    var p, r := h.Top(), h.Top() + h.topsize;
    if p in h.chunks { TopApart(h, p); }
    if r in h.chunks { TopApart(h, r); }
  }

  lemma NewAreaFresh(h: Heap, id: nat, lo: Ptr, size: nat, q: Ptr)
    requires CanExtend(h, id, lo, size) && q in NewArea(h, id, lo, size).chunks && q !in h.chunks
    ensures Placed(NewArea(h, id, lo, size), q)
  {
    var p, r := h.Top(), h.Top() + h.topsize;
    assert AreaOk(h, h.cur);
    assert Aligned(p, h.topsize) && Aligned(r, SEGMENT_RECORD);
    if r + SEGMENT_RECORD in h.chunks { AroundTop(h, r + SEGMENT_RECORD); }
    if r in h.chunks { TopApart(h, r); }
    hide HeapOk; hide Aligned; hide AlignedAt;
  }

  lemma NewAreaOld(h: Heap, id: nat, lo: Ptr, size: nat, q: Ptr)
    requires CanExtend(h, id, lo, size) && q in h.chunks && h.Top() !in h.chunks && h.Top() + h.topsize !in h.chunks
    ensures Placed(NewArea(h, id, lo, size), q)
  {
    hide Aligned; hide AlignedAt;
    assert Placed(h, q) && AreaOk(h, h.chunks[q].seg) && AreaOk(h, h.cur);
    AroundTop(h, q);
    if h.End(q) == h.Top() { BeforeTop(h, q); }
    hide HeapOk;
  }

  lemma NewAreaClear(h: Heap, id: nat, lo: Ptr, size: nat, q: Ptr, r: Ptr)
    requires CanExtend(h, id, lo, size) && q in NewArea(h, id, lo, size).chunks && r in NewArea(h, id, lo, size).chunks
        && q < r
    ensures Clear(NewArea(h, id, lo, size), q, r)
  {
    assert q in h.chunks && r in h.chunks ==> Clear(h, q, r);
    if q in h.chunks { AroundTop(h, q); assert Placed(h, q); }
    if r in h.chunks { AroundTop(h, r); }
    hide HeapOk; hide Placed;
  }

  lemma NewAreaAreas(h: Heap, id: nat, lo: Ptr, size: nat)
    requires CanExtend(h, id, lo, size)
    ensures AllAreas(NewArea(h, id, lo, size)) && Separated(NewArea(h, id, lo, size)) && TopOk(NewArea(h, id, lo, size))
  {
    NewAreaSeparated(h, id, lo, size);
    NewAreaTop(h, id, lo, size);
    hide HeapOk; hide Separated; hide TopOk; hide AreaOk;
    var h' := NewArea(h, id, lo, size);
    forall i | i in h'.areas ensures AreaOk(h', i) { NewAreaArea(h, id, lo, size, i); }
  }

  lemma NewAreaArea(h: Heap, id: nat, lo: Ptr, size: nat, i: nat)
    requires CanExtend(h, id, lo, size) && i in NewArea(h, id, lo, size).areas
    ensures AreaOk(NewArea(h, id, lo, size), i)
  {
    assert AreaOk(h, h.cur);
    if i in h.areas { assert AreaOk(h, i); }
    assert AlignedAt(h.Top() + h.topsize + SEGMENT_RECORD);
    hide HeapOk; hide AlignedAt;
  }

  lemma NewAreaTop(h: Heap, id: nat, lo: Ptr, size: nat)
    requires CanExtend(h, id, lo, size)
    ensures TopOk(NewArea(h, id, lo, size))
  {
    assert AreaOk(h, h.cur);
    hide HeapOk; hide Separated; hide Aligned; hide AlignedAt;
  }

  lemma NewAreaSeparated(h: Heap, id: nat, lo: Ptr, size: nat)
    requires CanExtend(h, id, lo, size)
    ensures Separated(NewArea(h, id, lo, size))
  {
    var h' := NewArea(h, id, lo, size);
    forall i, j | i in h'.areas && j in h'.areas && i != j
      ensures h'.areas[i].hi < h'.areas[j].lo || h'.areas[j].hi < h'.areas[i].lo
    {
      assert AreaOk(h, h.cur);
      if i in h.areas { assert AreaOk(h, i); }
      if j in h.areas { assert AreaOk(h, j); }
    }
  }

  lemma NewAreaTag(h: Heap, id: nat, lo: Ptr, size: nat, q: Ptr)
    requires CanExtend(h, id, lo, size) && q in NewArea(h, id, lo, size).chunks
    ensures Tagged(NewArea(h, id, lo, size), q)
  {
    var p := h.Top();
    if q in h.chunks {
      assert Tagged(h, q) && Placed(h, q) && AreaOk(h, h.chunks[q].seg);
      AroundTop(h, q);
      assert FreeBefore(h, q, if q in h.foot then h.foot[q] else 0) ==>
        q - h.foot[q] != p && q - h.foot[q] != p + h.topsize by {
        if p in h.chunks { TopApart(h, p); }
        if p + h.topsize in h.chunks { TopApart(h, p + h.topsize); }
      }
    }
    hide HeapOk; hide Placed; hide Aligned;
  }

  /* ---- what the words of a heap are ---- */

  /* The words that `HeapOk` speaks of agree. */
  ghost predicate SameWords(h: Heap, h': Heap) {
    && h'.chunks == h.chunks && h'.areas == h.areas && h'.cur == h.cur && h'.topsize == h.topsize
    && (forall p | p in h.chunks && p in h.head :: p in h'.head && h'.head[p] == h.head[p])
    && (forall p | p in h.chunks && p in h.foot && p in h.head && !h.head[p].pinuse ::
         p in h'.foot && h'.foot[p] == h.foot[p])
    && (forall i | i in h.areas ::
          && (h.areas[i].lo in h.head ==> h.areas[i].lo in h'.head && h'.head[h.areas[i].lo] == h.head[h.areas[i].lo])
          && (h.areas[i].hi in h.head ==> h.areas[i].hi in h'.head && h'.head[h.areas[i].hi] == h.head[h.areas[i].hi]))
    && (var t := h.Top() + h.topsize; t in h.head ==> t in h'.head && h'.head[t] == h.head[t])
  }

  lemma SameWordsOk(h: Heap, h': Heap)
    requires HeapOk(h) && SameWords(h, h')
    ensures HeapOk(h')
  {
    forall q | q in h'.chunks ensures Placed(h', q) && Tagged(h', q) { SameWordsTag(h, h', q); }
    forall q, r | q in h'.chunks && r in h'.chunks && q < r ensures Clear(h', q, r) { assert Clear(h, q, r); }
    forall i | i in h'.areas ensures AreaOk(h', i) { assert AreaOk(h, i); }
  }

  lemma SameWordsTag(h: Heap, h': Heap, q: Ptr)
    requires HeapOk(h) && SameWords(h, h') && q in h.chunks
    ensures Placed(h', q) && Tagged(h', q)
  {
    hide Aligned;
    assert Placed(h, q) && Tagged(h, q);
    if h.End(q) in h.chunks { assert Tagged(h, h.End(q)); }
  }

  /* Head words strictly inside a chunk, or inside top, are nobody's. */
  lemma DeadInChunk(h: Heap, h': Heap, p: Ptr, d: Ptr, e: Ptr)
    requires HeapOk(h) && h.cur in h.areas && p in h.chunks && p < d < h.End(p) && p < e < h.End(p)
    requires h'.chunks == h.chunks && h'.areas == h.areas && h'.cur == h.cur && h'.topsize == h.topsize
        && h'.foot == h.foot
    requires forall k | k in h.head && k != d && k != e :: k in h'.head && h'.head[k] == h.head[k]
    ensures HeapOk(h')
  {
    Inside(h, p, d);
    Inside(h, p, e);
    AroundTop(h, p);
    assert SameWords(h, h') by { hide HeapOk; }
    SameWordsOk(h, h');
  }

  /* Head words agree except at d. */
  ghost predicate HeadsBut(m: map<Ptr, Head>, m': map<Ptr, Head>, d: Ptr) {
    forall k | k in m && k != d :: k in m' && m'[k] == m[k]
  }

  lemma DeadInTop(h: Heap, h': Heap, d: Ptr)
    requires HeapOk(h) && h.cur in h.areas && h.Top() < d < h.Top() + h.topsize
    requires h'.chunks == h.chunks && h'.areas == h.areas && h'.cur == h.cur && h'.topsize == h.topsize
        && h'.foot == h.foot
    requires HeadsBut(h.head, h'.head, d)
    ensures HeapOk(h')
  {
    assert d in h.chunks ==> Placed(h, d);
    if d in h.chunks { AroundTop(h, d); }
    forall i | i in h.areas ensures h.areas[i].lo != d && h.areas[i].hi != d {
      assert AreaOk(h, i) && AreaOk(h, h.cur);
    }
    assert SameWords(h, h') by { hide HeapOk; }
    SameWordsOk(h, h');
  }

  /* ---- cutting a request out of a free chunk ---- */

  /* set_size_and_pinuse_of_inuse_chunk(p, nb) and set_size_and_pinuse_of_free_chunk(r, rest) */
  function Carve(h: Heap, p: Ptr, nb: nat): Heap
    requires p in h.chunks && nb <= h.chunks[p].size
  {
    var c := h.chunks[p];
    var r, rest := p + nb, c.size - nb;
    h.(head := h.head[p := Head(nb, true, true)][r := Head(rest, false, true)], foot := h.foot[r + rest := rest],
       chunks := h.chunks[p := Chunk(nb, true, c.seg)][r := Chunk(rest, false, c.seg)])
  }

  lemma CarveOk(h: Heap, p: Ptr, nb: nat)
    requires HeapOk(h) && p in h.chunks && !h.chunks[p].used
    requires nb % 16 == 0 && MIN_CHUNK_SIZE <= nb && nb + MIN_CHUNK_SIZE <= h.chunks[p].size
    ensures HeapOk(Carve(h, p, nb)) && p + nb !in h.chunks
  {
    assert Tagged(h, p) && Placed(h, p);
    Inside(h, p, p + nb);
    UseOk(h, p);
    var h1 := Use(h, p);
    SplitOk(h1, p, nb);
    var h2, r := Split(h1, p, nb), p + nb;
    assert h2.End(r) == h.End(p) && Tagged(h1, p);
    ReleaseOk(h2, r);
    var h3 := Release(h2, r);
    assert h3.head == Carve(h, p, nb).head;
    assert h3.chunks == Carve(h, p, nb).chunks;
  }

  /* ---- the coalescing steps of dlfree and dispose_chunk ---- */

  /* The free chunk before p, found through prev_foot, and p become one chunk in use. */
  function WithPrev(h: Heap, p: Ptr, s: nat): Heap
    requires CanPrev(h, p, s)
  {
    PrevFree(h, p, s);
    Merge(Use(h, p - s), p - s)
  }

  ghost predicate CanPrev(h: Heap, p: Ptr, s: nat) {
    HeapOk(h) && p in h.chunks && h.chunks[p].used && p in h.head && !h.head[p].pinuse && p in h.foot && h.foot[p] == s
  }

  lemma PrevFree(h: Heap, p: Ptr, s: nat)
    requires CanPrev(h, p, s)
    ensures FreeBefore(h, p, s) && p - s in h.head && h.End(p - s) == p && p in h.head
    ensures s >= MIN_CHUNK_SIZE && CanMerge(Use(h, p - s), p - s)
  {
    assert Tagged(h, p) && Tagged(h, p - s) && Placed(h, p - s);
    UseOk(h, p - s);
  }

  lemma WithPrevOk(h: Heap, p: Ptr, s: nat)
    requires CanPrev(h, p, s)
    ensures FreeBefore(h, p, s) && s > 0
    ensures var h', q := WithPrev(h, p, s), p - s;
      && HeapOk(h') && h'.chunks == (h.chunks - {p})[q := Chunk(s + h.chunks[p].size, true, h.chunks[q].seg)]
      && h'.areas == h.areas && h'.cur == h.cur && h'.topsize == h.topsize && h'.foot == h.foot
      && h'.End(q) == h.End(p) && q in h'.head && h'.head[q].pinuse
      && h'.head.Keys == h.head.Keys
      && forall k | k in h.head && k != p && k != q :: h'.head[k] == h.head[k]
  {
    PrevFree(h, p, s);
    UseOk(h, p - s);
    MergeOk(Use(h, p - s), p - s);
  }

  /* p takes in the free chunk after it. */
  function WithNext(h: Heap, p: Ptr): Heap
    requires CanNext(h, p)
  {
    NextFree(h, p);
    Merge(Use(h, h.End(p)), p)
  }

  ghost predicate CanNext(h: Heap, p: Ptr) {
    HeapOk(h) && p in h.chunks && h.chunks[p].used && h.End(p) in h.chunks && !h.chunks[h.End(p)].used
  }

  lemma NextFree(h: Heap, p: Ptr)
    requires CanNext(h, p)
    ensures var n := h.End(p); n in h.head && h.End(n) in h.head && p in h.head && CanMerge(Use(h, n), p)
  {
    assert Tagged(h, p) && Tagged(h, h.End(p)) && Placed(h, p) && Placed(h, h.End(p));
    UseOk(h, h.End(p));
  }

  lemma WithNextOk(h: Heap, p: Ptr)
    requires CanNext(h, p)
    ensures var h', n := WithNext(h, p), h.End(p);
      && HeapOk(h') && h'.chunks == (h.chunks - {n})[p := Chunk(h.chunks[p].size
           + h.chunks[n].size, true, h.chunks[p].seg)]
      && h'.areas == h.areas && h'.cur == h.cur && h'.topsize == h.topsize && h'.foot == h.foot
      && p < n < h.End(n) && h'.End(p) == h.End(n) && h.End(n) in h.chunks && h.chunks[h.End(n)].used
      && p in h.head && p in h'.head && h'.head[p].pinuse == h.head[p].pinuse
      && h.End(n) in h.head && !h.head[h.End(n)].pinuse
      && h.End(n) in h'.head && h'.head[h.End(n)] == h.head[h.End(n)].(pinuse := true)
      && h'.head.Keys == h.head.Keys
      && forall k | k in h.head && k != p && k != n && k != h.End(n) :: h'.head[k] == h.head[k]
  {
    NextFree(h, p);
    var n := h.End(p);
    assert Tagged(h, n) && Placed(h, p) && Placed(h, n);
    UseOk(h, n);
    MergeOk(Use(h, n), p);
  }

  /* ---- tiling ---- */

  /* Every address of an area belongs to one chunk. */
  lemma {:induction false} Tiled(h: Heap, i: nat, x: Ptr) returns (p: Ptr)
    requires HeapOk(h) && i in h.areas && h.areas[i].lo <= x < h.areas[i].hi
    ensures p in h.chunks && h.chunks[p].seg == i && p <= x < h.End(p)
    ensures forall q | q in h.chunks && q <= x < h.End(q) :: q == p
  {
    assert AreaOk(h, i);
    var lo := h.areas[i].lo;
    assert h.chunks[lo].seg == i by { assert Placed(h, lo) && AreaOk(h, h.chunks[lo].seg); }
    p := TiledFrom(h, i, lo, x);
    forall q | q in h.chunks && q <= x < h.End(q) ensures q == p {
      assert p < q ==> Clear(h, p, q);
      assert q < p ==> Clear(h, q, p);
    }
  }

  lemma {:induction false} TiledFrom(h: Heap, i: nat, q: Ptr, x: Ptr) returns (p: Ptr)
    requires HeapOk(h) && i in h.areas && q in h.chunks && h.chunks[q].seg == i && q <= x < h.areas[i].hi
    ensures p in h.chunks && h.chunks[p].seg == i && p <= x < h.End(p)
    decreases h.areas[i].hi - q
  {
    assert Placed(h, q);
    if x < h.End(q) { p := q; } else { p := TiledFrom(h, i, h.End(q), x); }
  }

  /* The words of the top chunk are no chunk's. */
  lemma TopApart(h: Heap, p: Ptr)
    requires HeapOk(h) && h.cur in h.areas && p in h.chunks
    ensures p != h.Top() && p != h.Top() + h.topsize && h.End(p) != h.Top() + h.topsize
  {
    assert Placed(h, p) && AreaOk(h, h.cur) && AreaOk(h, h.chunks[p].seg);
  }
}
