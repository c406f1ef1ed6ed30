/** emmalloc's whole state on values: flat memory, the regions that its words describe, and the free lists. */
module EmHeap {
  import opened Words
  import opened Rings
  import opened EmBuckets
  import opened EmLists
  import opened EmFreeLists
  import opened EmShape

  const W64: nat := 0x1_0000_0000_0000_0000

  /** A stretch of memory between its root region and its end. */
  datatype Block = Block(start: nat, end: nat)

  /** Where the sentinels of the free lists are, and the stretch of memory that regions may use. */
  datatype Bounds = Bounds(heads: nat, base: nat, limit: nat)

  /** `loose` are the free regions that are on no list for the moment. */
  datatype Heap = Heap(mem: Mem, shape: Shape, rings: RingMap, loose: set<nat>, mask: nat, blocks: seq<Block>)

  function ListedOf(s: Shape, loose: set<nat>): map<nat, nat> {
    map p | p in s && s[p].kind == Free && p !in loose :: s[p].size
  }

  /* A zero bit means an empty list; a set bit may be stale. */
  ghost predicate MaskOk(mask: nat, rings: RingMap) {
    mask < W64 && forall b: nat {:trigger Bit(mask, b)} | b in rings && !Bit(mask, b) :: |rings[b]| == 1
  }

  ghost predicate ListPart(h: Heap, w: Bounds) {
    && ShapeOk(h.shape) && InRange(h.shape, w.base, w.limit) && w.heads + HEADS_SIZE <= w.base && w.limit <= W32
    && (forall p | p in h.loose :: p in h.shape && h.shape[p].kind == Free)
    && ListsOk(h.rings, ListedOf(h.shape, h.loose), w.heads) && LinksOk(h.mem, h.rings) && MaskOk(h.mask, h.rings)
  }

  /* The size at the bottom and the size with the free flag at the ceiling. */
  predicate MarkOk(m: Mem, s: Shape, p: nat)
    requires p in s && s[p].size >= 4
  {
    Word(m, p) == s[p].size && Word(m, End(s, p) - 4) == s[p].size + if s[p].kind == Free then 1 else 0
  }

  ghost predicate Marked(m: Mem, s: Shape, p: nat)
    requires p in s
  {
    s[p].size >= 4 && MarkOk(m, s, p)
  }

  ghost predicate MarksPart(m: Mem, s: Shape) {
    forall p {:trigger Marked(m, s, p)} | p in s :: Marked(m, s, p)
  }

  /* An address that may be the end of the address space, in a word. */
  function Address(a: nat): nat { a % W32 }

  ghost predicate BlockOk(m: Mem, s: Shape, blocks: seq<Block>, i: nat)
    requires i < |blocks|
  {
    var b := blocks[i];
    && b.start in s && s[b.start].kind == Root && b.start + REGION_SIZE < b.end
    && b.end >= REGION_SIZE && b.end - REGION_SIZE in s && s[b.end - REGION_SIZE].kind == Sentinel
    && Word(m, b.start + 8) == Address(b.end)
    && Word(m, b.start + 4) == if i + 1 < |blocks| then blocks[i + 1].start else 0
  }

  ghost predicate RootListed(blocks: seq<Block>, p: nat) { exists i: nat :: i < |blocks| && blocks[i].start == p }

  /* listOfAllRegions: the list of all blocks, the newest first. */
  ghost predicate BlocksPart(m: Mem, s: Shape, blocks: seq<Block>) {
    && (forall i: nat {:trigger BlockOk(m, s, blocks, i)} | i < |blocks| :: BlockOk(m, s, blocks, i))
    && (forall p {:trigger RootListed(blocks, p)} | p in s && s[p].kind == Root :: RootListed(blocks, p))
    && Descending(blocks)
  }

  ghost predicate Descending(blocks: seq<Block>) {
    forall i: nat, j: nat {:trigger blocks[i], blocks[j]} | i < j < |blocks| :: blocks[j].end <= blocks[i].start
  }

  ghost predicate HeapOk(h: Heap, w: Bounds) {
    ListPart(h, w) && MarksPart(h.mem, h.shape) && BlocksPart(h.mem, h.shape, h.blocks)
  }

  /* ---- payloads ---- */

  /* The words between bottom and ceiling of region q are the same. */
  ghost predicate Kept(s: Shape, m: Mem, m': Mem, q: nat) {
    forall a: nat {:trigger Word(m', a)} | q + 4 <= a && a + 4 < End(s, q) :: Word(m', a) == Word(m, a)
  }

  predicate InUse(s: Shape, q: nat) { q in s && (s[q].kind == Used || s[q].kind == Root) }

  ghost predicate AllKept(s: Shape, m: Mem, m': Mem) {
    forall q: nat {:trigger Kept(s, m, m', q)} | InUse(s, q) :: Kept(s, m, m', q)
  }

  /* ---- what list operations leave alone ---- */

  lemma ListedFar(h: Heap, w: Bounds)
    requires ListPart(h, w)
    ensures AllFar(ListedOf(h.shape, h.loose))
  {
    var l := ListedOf(h.shape, h.loose);
    forall x, y | x in l && y in l && x != y ensures Far(x, y) { Disjoint(h.shape, x, y); }
  }

  lemma LooseNew(h: Heap, w: Bounds, p: nat)
    requires ListPart(h, w) && p in h.loose
    ensures Newcomer(ListedOf(h.shape, h.loose), w.heads, p) && SizeOk(h.shape[p].size)
  {
    var l := ListedOf(h.shape, h.loose);
    forall x | x in l ensures Far(p, x) { Disjoint(h.shape, p, x); }
    assert RegOk(h.shape, p) && End(h.shape, p) <= w.limit;
  }

  /* Words of other regions, and of this one beyond its links. */
  lemma BeyondLinks(h: Heap, w: Bounds, listed: map<nat, nat>, q: nat, a: nat)
    requires ListPart(h, w) && q in h.shape && q <= a < End(h.shape, q)
    requires forall x | x in listed :: x in h.shape
    requires q in listed ==> a >= q + 16
    ensures Outside(listed, w.heads, a)
  {
    assert End(h.shape, q) <= w.limit;
    forall x | x in listed ensures a < x || x + 16 <= a {
      if x != q { Disjoint(h.shape, q, x); }
    }
  }

  lemma LinksKeepMarks(h: Heap, w: Bounds, listed: map<nat, nat>, m': Mem, q: nat)
    requires ListPart(h, w) && OnlyLinks(h.mem, m', listed, w.heads) && (forall x | x in listed :: x in h.shape)
        && q in h.shape
    ensures Marked(h.mem, h.shape, q) ==> Marked(m', h.shape, q)
  {
    assert RegOk(h.shape, q);
    if q in listed {
      if h.shape[q].size > 16 {
        if h.shape[q].size >= 20 {
          BeyondLinks(h, w, listed, q, End(h.shape, q) - 4); } else { QuadGap(h.shape[q].size);
        }
      }
    } else {
      BeyondLinks(h, w, listed, q, q);
      BeyondLinks(h, w, listed, q, End(h.shape, q) - 4);
    }
  }

  lemma QuadGap(x: nat)
    requires Quad(x)
    ensures x <= 16 || x >= 20
  {}

  lemma LinksKeepPayloads(h: Heap, w: Bounds, listed: map<nat, nat>, m': Mem)
    requires ListPart(h, w) && OnlyLinks(h.mem, m', listed, w.heads) && forall x | x in listed ::
        x in h.shape && h.shape[x].kind == Free
    ensures AllKept(h.shape, h.mem, m')
  {
    forall q: nat | InUse(h.shape, q) ensures Kept(h.shape, h.mem, m', q) {
      forall a: nat | q + 4 <= a && a + 4 < End(h.shape, q) ensures Word(m', a) == Word(h.mem, a) {
        BeyondLinks(h, w, listed, q, a);
      }
    }
  }

  /* A list operation on h: only memory, lists, mask and the set of loose regions change. */
  ghost predicate ListStep(h: Heap, h': Heap) {
    && h'.shape == h.shape && h'.blocks == h.blocks && AllKept(h.shape, h.mem, h'.mem)
    && forall q {:trigger Marked(h'.mem, h.shape, q)} | q in h.shape && Marked(h.mem, h.shape, q) ::
         Marked(h'.mem, h.shape, q)
  }

  lemma ListStepFrom(h: Heap, h': Heap, w: Bounds, listed: map<nat, nat>)
    requires ListPart(h, w) && h'.shape == h.shape && h'.blocks == h.blocks && OnlyLinks(h.mem, h'.mem, listed, w.heads)
    requires forall x | x in listed :: x in h.shape && h.shape[x].kind == Free
    ensures ListStep(h, h')
  {
    LinksKeepPayloads(h, w, listed, h'.mem);
    forall q | q in h.shape && Marked(h.mem, h.shape, q) ensures Marked(h'.mem, h.shape, q) {
      LinksKeepMarks(h, w, listed, h'.mem, q);
    }
  }

  /* The blocks do not depend on list operations. */
  lemma StepKeepsBlocks(h: Heap, h': Heap)
    requires ShapeOk(h.shape) && BlocksPart(h.mem, h.shape, h.blocks) && ListStep(h, h')
    ensures BlocksPart(h'.mem, h'.shape, h'.blocks)
  {
    forall i: nat | i < |h.blocks| ensures BlockOk(h'.mem, h'.shape, h'.blocks, i) {
      assert BlockOk(h.mem, h.shape, h.blocks, i);
      var r := h.blocks[i].start;
      assert RegOk(h.shape, r) && InUse(h.shape, r);
      assert Kept(h.shape, h.mem, h'.mem, r);
    }
  }

  /* ---- the mask ---- */

  lemma MaskSet(mask: nat, rings: RingMap, rings': RingMap, b: nat)
    requires MaskOk(mask, rings) && b < 64 && b in rings && b in rings' && rings' == rings[b := rings'[b]]
    ensures MaskOk(Or(mask, Pow2(b)), rings')
  {
    var mask' := Or(mask, Pow2(b));
    Pow2Monotone(b + 1, 64);
    SixtyFour();
    OrBound(mask, Pow2(b), 64);
    forall c: nat | c in rings' && !Bit(mask', c) ensures |rings'[c]| == 1 {
      BitOr(mask, Pow2(b), c);
      BitPow2(b, c);
    }
  }

  lemma SixtyFour()
    ensures Pow2(64) == W64
  {
    Pow2Values();
    Pow2Add(32, 32);
  }

  /* ---- linking and unlinking ---- */

  function LinkIn(h: Heap, w: Bounds, p: nat, b: nat): Heap
    requires b in h.rings && h.rings[b] != []
  {
    h.(mem := PutFirst(h.mem, Head(w.heads, b), p), rings := AddFirst(h.rings, b, p), loose := h.loose - {p},
      mask := Or(h.mask, Pow2(b)))
  }

  lemma LinkInOk(h: Heap, w: Bounds, p: nat) returns (b: nat)
    requires ListPart(h, w) && p in h.loose
    ensures 8 <= h.shape[p].size < W32 && b == BucketOf(h.shape[p].size) && b < 64 && b in h.rings && h.rings[b] != []
    ensures ListPart(LinkIn(h, w, p, b), w) && ListStep(h, LinkIn(h, w, p, b))
  {
    LooseNew(h, w, p);
    ListedFar(h, w);
    var l, size := ListedOf(h.shape, h.loose), h.shape[p].size;
    AddFirstOk(h.rings, l, w.heads, p, size);
    b := BucketOf(size);
    AddFirstLinks(h.mem, h.rings, l, w.heads, p, b);
    AddFirstWrites(h.mem, h.rings, l, w.heads, p, size, b);
    var h' := LinkIn(h, w, p, b);
    assert ListedOf(h'.shape, h'.loose) == l[p := size];
    MaskSet(h.mask, h.rings, h'.rings, b);
    ListStepFrom(h, h', w, l[p := size]);
  }

  function TakeOut(h: Heap, p: nat, b: nat, k: nat): Heap
    requires b in h.rings && k < |h.rings[b]|
  {
    h.(mem := Unlinked(h.mem, p), rings := Drop(h.rings, b, k), loose := h.loose + {p})
  }

  lemma TakeOutOk(h: Heap, w: Bounds, p: nat) returns (b: nat, k: nat)
    requires ListPart(h, w) && p in ListedOf(h.shape, h.loose)
    ensures b in h.rings && 0 < k < |h.rings[b]| && h.rings[b][k] == p && 16 <= h.shape[p].size < W32
        && b == BucketOf(h.shape[p].size)
    ensures ListPart(TakeOut(h, p, b, k), w) && ListStep(h, TakeOut(h, p, b, k))
    ensures OnlyLinks(h.mem, Unlinked(h.mem, p), ListedOf(h.shape, h.loose), w.heads)
  {
    ListedFar(h, w);
    var l := ListedOf(h.shape, h.loose);
    b, k := Position(h.rings, l, w.heads, p);
    DropOk(h.rings, l, w.heads, b, k);
    DropLinks(h.mem, h.rings, l, w.heads, b, k);
    DropWrites(h.mem, h.rings, l, w.heads, b, k);
    var h' := TakeOut(h, p, b, k);
    assert ListedOf(h'.shape, h'.loose) == l - {p};
    assert MaskOk(h'.mask, h'.rings) by {
      forall c: nat | c in h'.rings && !Bit(h'.mask, c) ensures |h'.rings[c]| == 1 { assert |h.rings[c]| == 1; }
    }
    ListStepFrom(h, h', w, l);
  }

  function PutBack(h: Heap, w: Bounds, p: nat, b: nat): Heap
    requires b in h.rings
  {
    h.(mem := PutLast(h.mem, Head(w.heads, b), p), rings := AddLast(h.rings, b, p), loose := h.loose - {p})
  }

  lemma PutBackOk(h: Heap, w: Bounds, p: nat, b: nat)
    requires ListPart(h, w) && p in h.loose && b in h.rings && b < 64 && Bit(h.mask, b)
    requires 8 <= h.shape[p].size < W32 && BucketOf(h.shape[p].size) == b
    ensures ListPart(PutBack(h, w, p, b), w) && ListStep(h, PutBack(h, w, p, b))
  {
    LooseNew(h, w, p);
    ListedFar(h, w);
    var l, size := ListedOf(h.shape, h.loose), h.shape[p].size;
    assert BucketOk(h.rings, l, w.heads, b);
    AddLastOk(h.rings, l, w.heads, p, size, b);
    AddLastLinks(h.mem, h.rings, l, w.heads, p, b);
    AddLastWrites(h.mem, h.rings, l, w.heads, p, size, b);
    var h' := PutBack(h, w, p, b);
    assert ListedOf(h'.shape, h'.loose) == l[p := size];
    ListStepFrom(h, h', w, l[p := size]);
  }

  /* ---- rewriting a span of memory ---- */

  /* Memory outside [lo, hi) is the same. */
  ghost predicate SameBeyond(m: Mem, m': Mem, lo: nat, hi: nat) {
    forall a: nat {:trigger Word(m', a)} | a < lo || hi <= a :: Word(m', a) == Word(m, a)
  }

  /* No region of s lies across lo or hi. */
  ghost predicate Framed(s: Shape, lo: nat, hi: nat) {
    forall q: nat {:trigger End(s, q)} | q in s :: (q < lo ==> End(s, q) <= lo) && (q < hi ==> End(s, q) <= hi)
  }

  predicate Within(q: nat, lo: nat, hi: nat) { lo <= q < hi }

  /* Outside the span the same regions lie in the same state. */
  ghost predicate Agree(s: Shape, s': Shape, lo: nat, hi: nat) {
    forall q: nat {:trigger Within(q, lo, hi)} | !Within(q, lo, hi) ::
      (q in s <==> q in s') && (q in s ==> s'[q].size == s[q].size && s'[q].kind == s[q].kind)
  }

  /* What changes within the span: nothing listed before or after, loose regions only there. */
  ghost predicate SpanOf(h: Heap, h': Heap, lo: nat, hi: nat) {
    && Framed(h.shape, lo, hi) && Agree(h.shape, h'.shape, lo, hi) && SameBeyond(h.mem, h'.mem, lo, hi)
    && h'.rings == h.rings && h'.mask == h.mask
    && (forall q: nat {:trigger Within(q, lo, hi)} | Within(q, lo, hi) && q in h.shape && h.shape[q].kind == Free ::
         q in h.loose)
    && (forall q: nat {:trigger Within(q, lo, hi)} | Within(q, lo, hi) && q in h'.shape && h'.shape[q].kind == Free ::
         q in h'.loose)
    && (forall q: nat {:trigger Within(q, lo, hi)} | q in h.loose :: Within(q, lo, hi))
    && (forall q: nat {:trigger Within(q, lo, hi)} | q in h'.loose ::
         Within(q, lo, hi) && q in h'.shape && h'.shape[q].kind == Free)
  }

  /* The lists are not disturbed. */
  lemma SpanLists(h: Heap, h': Heap, w: Bounds, w': Bounds, lo: nat, hi: nat)
    requires ListPart(h, w) && SpanOf(h, h', lo, hi) && w.base <= lo
    requires w'.heads == w.heads && w'.base == w.base && w'.limit <= W32 && ShapeOk(h'.shape)
        && InRange(h'.shape, w'.base, w'.limit)
    ensures ListPart(h', w')
  {
    var l := ListedOf(h.shape, h.loose);
    forall q ensures q in l <==> q in ListedOf(h'.shape, h'.loose) {
      assert q in l || q in ListedOf(h'.shape, h'.loose) ==> Within(q, lo, hi) || !Within(q, lo, hi);
    }
    forall q | q in l ensures !Within(q, lo, hi) && h'.shape[q].size == h.shape[q].size {
      assert Within(q, lo, hi) ==> q in h.loose;
    }
    assert ListedOf(h'.shape, h'.loose) == l;
    forall x | x in l ensures Word(h'.mem, x + 4) == Word(h.mem, x + 4) && Word(h'.mem, x + 8) == Word(h.mem, x + 8) {
      assert RegOk(h.shape, x) && !Within(x, lo, hi);
      assert x < lo ==> End(h.shape, x) <= lo;
    }
    LinksKept(h.mem, h'.mem, h.rings, l, w.heads);
    forall p | p in h'.loose ensures p in h'.shape && h'.shape[p].kind == Free {
      assert Within(p, lo, hi) || !Within(p, lo, hi);
    }
  }

  /* Regions beyond the span keep their marks and payloads. */
  lemma SpanMark(h: Heap, h': Heap, q: nat, lo: nat, hi: nat)
    requires SpanOf(h, h', lo, hi) && q in h.shape && !Within(q, lo, hi)
    ensures q in h'.shape && (Marked(h.mem, h.shape, q) ==> Marked(h'.mem, h'.shape, q))
        && Kept(h.shape, h.mem, h'.mem, q)
  {
    assert q < lo ==> End(h.shape, q) <= lo;
  }

  lemma SpanMarks(h: Heap, h': Heap, lo: nat, hi: nat)
    requires SpanOf(h, h', lo, hi) && MarksPart(h.mem, h.shape)
    requires forall q: nat {:trigger Within(q, lo, hi)} | Within(q, lo, hi) && q in h'.shape ::
        Marked(h'.mem, h'.shape, q)
    ensures MarksPart(h'.mem, h'.shape)
  {
    forall q | q in h'.shape ensures Marked(h'.mem, h'.shape, q) {
      if !Within(q, lo, hi) {
        assert Marked(h.mem, h.shape, q);
        SpanMark(h, h', q, lo, hi);
      }
    }
  }

  /* So do the records of the blocks, if roots and sentinels in the span stay what they are. */
  lemma SpanBlocks(h: Heap, h': Heap, lo: nat, hi: nat)
    requires SpanOf(h, h', lo, hi) && ShapeOk(h.shape) && BlocksPart(h.mem, h.shape, h.blocks) && h'.blocks == h.blocks
    requires forall q: nat {:trigger Within(q, lo, hi)} | Within(q, lo, hi) ::
               && (q in h.shape && h.shape[q].kind == Root <==> q in h'.shape && h'.shape[q].kind == Root)
               && (q in h.shape && h.shape[q].kind == Sentinel ==> q in h'.shape && h'.shape[q].kind == Sentinel)
               && (q in h.shape && h.shape[q].kind == Root ==> Kept(h.shape, h.mem, h'.mem, q))
    ensures BlocksPart(h'.mem, h'.shape, h'.blocks)
  {
    forall i: nat | i < |h.blocks| ensures BlockOk(h'.mem, h'.shape, h'.blocks, i) {
      assert BlockOk(h.mem, h.shape, h.blocks, i);
      var r, t := h.blocks[i].start, h.blocks[i].end - REGION_SIZE;
      assert RegOk(h.shape, r);
      assert Within(r, lo, hi) || !Within(r, lo, hi);
      assert Within(t, lo, hi) || !Within(t, lo, hi);
      if !Within(r, lo, hi) { SpanMark(h, h', r, lo, hi); }
      assert Kept(h.shape, h.mem, h'.mem, r);
    }
    forall p | p in h'.shape && h'.shape[p].kind == Root ensures RootListed(h.blocks, p) {
      assert Within(p, lo, hi) || !Within(p, lo, hi);
    }
  }

  /* A span that begins and ends with regions is framed. */
  lemma FramedBy(s: Shape, p: nat, q: nat)
    requires ShapeOk(s) && p in s && q in s && p <= q
    ensures Framed(s, p, End(s, q))
  {
    forall x: nat | x in s ensures (x < p ==> End(s, x) <= p) && (x < End(s, q) ==> End(s, x) <= End(s, q)) {
      if x != p { Disjoint(s, x, p); }
      if x != q { Disjoint(s, x, q); }
      assert RegOk(s, x);
    }
  }
}
