/** What claiming memory does to emmalloc's heap: a new block, or a longer one that has swallowed its
    old end sentinel. */
module EmGrowth {
  import opened Words
  import opened EmLists
  import opened EmFreeLists
  import opened EmShape
  import opened EmHeap
  import opened EmSpans

  /* Where the newest block is. */
  function NewestStart(blocks: seq<Block>): nat { if blocks == [] then 0 else blocks[0].start }

  /* ---- a new block ---- */

  ghost predicate IsAdded(s: Shape, s': Shape, start: nat, end: nat) {
    var p, e := start + REGION_SIZE, end - REGION_SIZE;
    && end >= start + 3 * REGION_SIZE && Rewrites(s, s', start, end)
    && start in s' && s'[start].kind == Root && s'[start].size == REGION_SIZE
    && p in s' && s'[p].kind == Free && End(s', p) == e
    && e in s' && s'[e].kind == Sentinel && s'[e].size == REGION_SIZE && s'[e].prev == p
    && (forall q: nat {:trigger Within(q, start, end)} | Within(q, start, end) && q in s' :: q == start || q == p
         || q == e)
    && (forall q: nat {:trigger Within(q, start, end)} | Within(q, start, end) :: q !in s)
    && (forall q: nat {:trigger End(s, q)} | q in s :: End(s, q) <= start)
  }

  lemma AddShape(s: Shape, start: nat, end: nat) returns (s': Shape)
    requires CanAdd(s, start, end)
    ensures IsAdded(s, s', start, end)
  {
    var p := start + REGION_SIZE;
    NewBlockOk(s, start, end);
    var t := NewBlock(s, start, end);
    assert CanRelease(t, p) by { assert RegOk(t, p); }
    ReleaseOk(t, p);
    s' := Release(t, p);
    AddFramed(s, s', start, end);
  }

  lemma AddFramed(s: Shape, s': Shape, start: nat, end: nat)
    requires CanAdd(s, start, end) && ShapeOk(s') && s' == Release(NewBlock(s, start, end), start + REGION_SIZE)
    ensures Framed(s, start, end) && Framed(s', start, end) && Agree(s, s', start, end)
        && forall q: nat | Within(q, start, end) :: q !in s
  {
    FramedBy(s', start, end - REGION_SIZE);
    forall q: nat | q in s ensures q < start && End(s, q) <= start { assert RegOk(s, q) && End(s, q) <= start; }
  }

  ghost predicate AddWords(h: Heap, h': Heap, start: nat, end: nat) {
    var p, e := start + REGION_SIZE, end - REGION_SIZE;
    && SameBeyond(h.mem, h'.mem, start, end) && e >= p + 16
    && Word(h'.mem, start) == 16 && Word(h'.mem, start + 12) == 16 && Word(h'.mem, e) == 16
    && Word(h'.mem, e + 12) == 16
    && Word(h'.mem, p) == e - p && Word(h'.mem, e - 4) == e - p + 1
    && Word(h'.mem, start + 4) == NewestStart(h.blocks) && Word(h'.mem, start + 8) == Address(end)
    && h'.rings == h.rings && h'.mask == h.mask && h'.loose == {p} && h'.blocks == [Block(start, end)] + h.blocks
  }

  /* Memory with the words of a new block. */
  function BlockMem(m: Mem, start: nat, end: nat, root: nat): Mem
    requires end >= start + 3 * REGION_SIZE
  {
    var p, e := start + REGION_SIZE, end - REGION_SIZE;
    m[e := REGION_SIZE][e + REGION_SIZE - 4 := REGION_SIZE][start := REGION_SIZE][start
      + REGION_SIZE - 4 := REGION_SIZE]
     [start + 4 := root][start + 8 := Address(end)][p := e - p][p + (e - p) - 4 := e - p + 1]
  }

  lemma BlockWords(h: Heap, start: nat, end: nat, s': Shape)
    requires end >= start + 3 * REGION_SIZE
    ensures AddWords(h, h.(mem := BlockMem(h.mem, start, end, NewestStart(h.blocks)), shape := s',
        loose := {start + REGION_SIZE}, blocks := [Block(start, end)] + h.blocks), start, end)
  {}

  lemma AddedHeap(h: Heap, h': Heap, w: Bounds, w': Bounds, start: nat, end: nat)
    requires HeapOk(h, w) && h.loose == {} && IsAdded(h.shape, h'.shape, start, end) && AddWords(h, h', start, end)
    requires w.base <= start && w'.heads == w.heads && w'.base == w.base
        && w.limit <= w'.limit <= W32 && end <= w'.limit
    ensures HeapOk(h', w') && OthersKept(h.shape, h'.shape, h.mem, h'.mem, 0) && LiveOf(h'.shape) == LiveOf(h.shape)
  {
    assert SpanOf(h, h', start, end);
    GrowRange(h.shape, w.base, w.limit, w'.limit);
    RangeKept(h.shape, h'.shape, start, end, w.base, w'.limit);
    SpanLists(h, h', w, w', start, end);
    SpanMarks(h, h', start, end);
    AddedBlocks(h, h', start, end);
    SpanOthers(h, h', start, end);
    forall q ensures q in LiveOf(h'.shape) <==> q in LiveOf(h.shape) {
      assert Within(q, start, end) || !Within(q, start, end);
    }
    forall q | q in LiveOf(h'.shape) ensures LiveOf(h'.shape)[q] == LiveOf(h.shape)[q] {
      assert Within(q, start, end) || !Within(q, start, end);
    }
  }

  lemma GrowRange(s: Shape, base: nat, limit: nat, limit': nat)
    requires InRange(s, base, limit) && limit <= limit'
    ensures InRange(s, base, limit')
  {
    forall p | p in s ensures base <= p && End(s, p) <= limit' { assert End(s, p) <= limit; }
  }

  /* Regions in use beyond the span stay as they are. */
  lemma SpanOthers(h: Heap, h': Heap, lo: nat, hi: nat)
    requires SpanOf(h, h', lo, hi) && forall q: nat {:trigger Within(q, lo, hi)} | Within(q, lo, hi) ::
        !InUse(h.shape, q)
    ensures OthersKept(h.shape, h'.shape, h.mem, h'.mem, 0)
  {
    forall q: nat | InUse(h.shape, q) && q != 0
      ensures Kept(h.shape, h.mem, h'.mem, q) && InUse(h'.shape, q) && h'.shape[q].kind == h.shape[q].kind
      && End(h.shape, q) <= End(h'.shape, q) {
      assert !Within(q, lo, hi);
      SpanMark(h, h', q, lo, hi);
    }
  }

  lemma AddedBlocks(h: Heap, h': Heap, start: nat, end: nat)
    requires ShapeOk(h.shape) && BlocksPart(h.mem, h.shape, h.blocks) && IsAdded(h.shape, h'.shape, start, end)
        && AddWords(h, h', start, end) && SpanOf(h, h', start, end)
    ensures BlocksPart(h'.mem, h'.shape, h'.blocks)
  {
    forall i: nat | i < |h'.blocks| ensures BlockOk(h'.mem, h'.shape, h'.blocks, i) {
      if i > 0 {
        assert BlockOk(h.mem, h.shape, h.blocks, i - 1);
        var r, t := h.blocks[i - 1].start, h.blocks[i - 1].end - REGION_SIZE;
        assert RegOk(h.shape, r);
        assert !Within(r, start, end) && !Within(t, start, end);
        SpanMark(h, h', r, start, end);
        assert h'.blocks[i] == h.blocks[i - 1];
      }
    }
    forall p | p in h'.shape && h'.shape[p].kind == Root ensures RootListed(h'.blocks, p) {
      assert Within(p, start, end) || !Within(p, start, end);
      if p == start {
        assert h'.blocks[0].start == p;
      } else {
        assert RootListed(h.blocks, p);
        var i: nat :| i < |h.blocks| && h.blocks[i].start == p;
        assert h'.blocks[i + 1].start == p;
      }
    }
    forall i: nat, j: nat | i < j < |h'.blocks| ensures h'.blocks[j].end <= h'.blocks[i].start {
      assert BlockOk(h.mem, h.shape, h.blocks, j - 1);
      assert RegOk(h.shape, h.blocks[j - 1].end - REGION_SIZE)
        && End(h.shape, h.blocks[j - 1].end - REGION_SIZE) <= start;
      assert h'.blocks[j] == h.blocks[j - 1];
      if i > 0 { assert h'.blocks[i] == h.blocks[i - 1]; }
    }
  }

  /* ---- a longer block ---- */

  /* Where the free region that takes up the new memory starts: at the old sentinel, or before it. */
  function ExtendStart(s: Shape, t: nat): nat
    requires t in s
  {
    if FreeAt(s, s[t].prev) then s[t].prev else t
  }

  ghost predicate IsExtended(s: Shape, s': Shape, t: nat, end: nat)
    requires t in s
  {
    var lo, e := ExtendStart(s, t), end - REGION_SIZE;
    && lo <= t && end >= t + 2 * REGION_SIZE && Rewrites(s, s', lo, end)
    && lo in s' && s'[lo].kind == Free && End(s', lo) == e
    && e in s' && s'[e].kind == Sentinel && s'[e].size == REGION_SIZE && s'[e].prev == lo
    && (forall q: nat {:trigger Within(q, lo, end)} | Within(q, lo, end) && q in s' :: q == lo || q == e)
    && (forall q: nat {:trigger Within(q, lo, end)} | Within(q, lo, end) && q in s :: q == lo || q == t)
  }

  lemma ExtendShape(s: Shape, t: nat, end: nat) returns (s': Shape)
    requires CanExtend(s, t, end)
    ensures IsExtended(s, s', t, end)
  {
    ExtendOk(s, t, end);
    assert RegOk(s, t);
    var s1 := Extend(s, t, end);
    assert RegOk(s1, t);
    var u := TakeBefore(s1, t);
    var lo := ExtendStart(s, t);
    assert lo == FreeStart(s1, t);
    ReleaseOk(u, lo);
    s' := Release(u, lo);
    ExtendFacts(s, s1, s', t, end);
  }

  lemma ExtendFacts(s: Shape, s1: Shape, s': Shape, t: nat, end: nat)
    requires CanExtend(s, t, end) && s1 == Extend(s, t, end) && ShapeOk(s1) && ShapeOk(s') && end - REGION_SIZE !in s
    requires var lo, e := ExtendStart(s, t), end - REGION_SIZE;
      && lo <= t && lo in s' && s'[lo].kind == Free && End(s', lo) == e
      && (forall q: nat | q in s1 && q != t && q != lo ::
           q in s' && s'[q].size == s1[q].size && s'[q].kind == s1[q].kind)
      && (forall q: nat | q in s' && q != lo :: q in s1)
    ensures IsExtended(s, s', t, end)
  {
    var lo, e: nat := ExtendStart(s, t), end - REGION_SIZE;
    assert RegOk(s, t);
    assert e in s1 && s1[e].kind == Sentinel;
    assert RegOk(s', lo) && RegOk(s', e);
    FramedBy(s', lo, e);
    FramedBy(s, lo, t);
    forall q: nat | q in s ensures End(s, q) <= end { assert End(s, q) <= End(s, t); }
    forall q: nat | Within(q, lo, end) && q in s' ensures q == lo || q == e {
      if q != lo && q != e { Disjoint(s', q, lo); Disjoint(s', q, e); }
    }
    forall q: nat | Within(q, lo, end) && q in s ensures q == lo || q == t {
      if q != lo && q != t {
        assert RegOk(s, q) && End(s, q) <= End(s, t);
        Disjoint(s, q, lo);
        Disjoint(s, q, t);
      }
    }
    forall q: nat | !Within(q, lo, end)
      ensures (q in s <==> q in s') && (q in s ==> s'[q].size == s[q].size && s'[q].kind == s[q].kind) {}
  }

  /* The new sentinel's words, and the new end in the root region r, are written first. */
  lemma ClaimWords(h: Heap, w: Bounds, r: nat, e: nat, end: nat)
    requires HeapOk(h, w) && r in h.shape && h.shape[r].kind == Root && w.limit <= e
    ensures var h' := h.(mem := h.mem[e := 16][e + 12 := 16][r + 8 := end]);
      && ListPart(h', w) && MarksPart(h'.mem, h'.shape) && OthersKept(h.shape, h'.shape, h.mem, h'.mem, r)
      && Word(h'.mem, r + 4) == Word(h.mem, r + 4) && Word(h'.mem, r + 8) == end && Word(h'.mem, e) == 16
      && Word(h'.mem, e + 12) == 16
  {
    var h' := h.(mem := h.mem[e := 16][e + 12 := 16][r + 8 := end]);
    assert RegOk(h.shape, r) && End(h.shape, r) <= w.limit;
    ClaimLists(h, h', w, r, e, end);
    hide ListPart; hide BlocksPart;
    forall q | q in h.shape ensures Marked(h'.mem, h'.shape, q) {
      assert Marked(h.mem, h.shape, q);
      ClaimMark(h, h', w, r, e, end, q);
    }
    hide MarksPart; hide Marked;
    forall q: nat | InUse(h.shape, q) && q != r ensures Kept(h.shape, h.mem, h'.mem, q) {
      ClaimAway(h, h', w, r, e, end, q);
    }
  }

  /* The words written are beyond all regions, or in the payload of the root region r. */
  lemma ClaimAway(h: Heap, h': Heap, w: Bounds, r: nat, e: nat, end: nat, q: nat)
    requires ShapeOk(h.shape) && InRange(h.shape, w.base, w.limit) && r in h.shape && w.limit <= e && q in h.shape
        && q != r
    requires h' == h.(mem := h.mem[e := 16][e + 12 := 16][r + 8 := end])
    ensures Kept(h.shape, h.mem, h'.mem, q)
    ensures Word(h'.mem, q + 4) == Word(h.mem, q + 4) && Word(h'.mem, q + 8) == Word(h.mem, q + 8)
  {
    Disjoint(h.shape, q, r);
    assert End(h.shape, q) <= w.limit;
    hide ShapeOk; hide InRange;
  }

  lemma ClaimMark(h: Heap, h': Heap, w: Bounds, r: nat, e: nat, end: nat, q: nat)
    requires ShapeOk(h.shape) && InRange(h.shape, w.base, w.limit) && r in h.shape && w.limit <= e && q in h.shape
        && Marked(h.mem, h.shape, q)
    requires h' == h.(mem := h.mem[e := 16][e + 12 := 16][r + 8 := end]) && h.shape[r].kind == Root
    ensures Marked(h'.mem, h'.shape, q)
  {
    assert RegOk(h.shape, q) && End(h.shape, q) <= w.limit;
    if q != r { Disjoint(h.shape, q, r); } else { QuadGap(h.shape[r].size); }
    hide ShapeOk; hide InRange; hide RegOk;
  }

  lemma ClaimLists(h: Heap, h': Heap, w: Bounds, r: nat, e: nat, end: nat)
    requires ListPart(h, w) && r in h.shape && h.shape[r].kind == Root && w.limit <= e
    requires h' == h.(mem := h.mem[e := 16][e + 12 := 16][r + 8 := end])
    ensures ListPart(h', w)
  {
    var l := ListedOf(h.shape, h.loose);
    forall x | x in l ensures Word(h'.mem, x + 4) == Word(h.mem, x + 4) && Word(h'.mem, x + 8) == Word(h.mem, x + 8) {
      ClaimAway(h, h', w, r, e, end, x);
    }
    assert RegOk(h.shape, r) && End(h.shape, r) <= w.limit;
    hide ShapeOk; hide RegOk; hide MaskOk;
    LinksKept(h.mem, h'.mem, h.rings, l, w.heads);
  }

  ghost predicate ExtendWords(h: Heap, h': Heap, t: nat, end: nat)
    requires t in h.shape
  {
    var lo, e := ExtendStart(h.shape, t), end - REGION_SIZE;
    && SameBeyond(h.mem, h'.mem, lo, end) && e >= lo + 16
    && Word(h'.mem, lo) == e - lo && Word(h'.mem, e - 4) == e - lo + 1 && Word(h'.mem, e) == 16
    && Word(h'.mem, e + 12) == 16
    && h'.rings == h.rings && h'.mask == h.mask && h'.loose == {lo}
  }

  lemma ExtendedHeap(h: Heap, h': Heap, w: Bounds, w': Bounds, t: nat, end: nat)
    requires ListPart(h, w) && MarksPart(h.mem, h.shape) && t in h.shape && h.shape[t].kind == Sentinel
    requires h.loose == (if FreeAt(h.shape, h.shape[t].prev) then {h.shape[t].prev} else {})
    requires IsExtended(h.shape, h'.shape, t, end) && ExtendWords(h, h', t, end)
    requires w'.heads == w.heads && w'.base == w.base
        && w.limit <= w'.limit <= W32 && end <= w'.limit
    ensures ListPart(h', w') && MarksPart(h'.mem, h'.shape) && OthersKept(h.shape, h'.shape, h.mem, h'.mem, 0)
        && LiveOf(h'.shape) == LiveOf(h.shape)
  {
    var lo := ExtendStart(h.shape, t);
    assert RegOk(h.shape, t);
    assert End(h.shape, lo) <= w.limit;
    ExtendSpan(h, h', t, end);
    GrowRange(h.shape, w.base, w.limit, w'.limit);
    RangeKept(h.shape, h'.shape, lo, end, w.base, w'.limit);
    SpanLists(h, h', w, w', lo, end);
    SpanMarks(h, h', lo, end);
    SpanOthers(h, h', lo, end);
    ExtendLive(h.shape, h'.shape, t, end);
  }

  lemma ExtendSpan(h: Heap, h': Heap, t: nat, end: nat)
    requires ShapeOk(h.shape) && t in h.shape && h.shape[t].kind == Sentinel
    requires h.loose == (if FreeAt(h.shape, h.shape[t].prev) then {h.shape[t].prev} else {})
    requires IsExtended(h.shape, h'.shape, t, end) && ExtendWords(h, h', t, end)
    ensures var lo := ExtendStart(h.shape, t);
            && SpanOf(h, h', lo, end)
            && (forall q: nat {:trigger Within(q, lo, end)} | Within(q, lo, end) :: !InUse(h.shape, q))
            && (forall q: nat {:trigger Within(q, lo, end)} | Within(q, lo, end) && q in h'.shape ::
                 Marked(h'.mem, h'.shape, q))
  {
    assert RegOk(h.shape, t);
    hide ShapeOk;
  }

  lemma ExtendLive(s: Shape, s': Shape, t: nat, end: nat)
    requires t in s && s[t].kind == Sentinel && IsExtended(s, s', t, end)
    ensures LiveOf(s') == LiveOf(s)
  {
    var lo := ExtendStart(s, t);
    assert Agree(s, s', lo, end) by { assert Rewrites(s, s', lo, end); }
    hide Rewrites;
    forall q ensures q in LiveOf(s') <==> q in LiveOf(s) { assert Within(q, lo, end) || !Within(q, lo, end); }
    forall q | q in LiveOf(s') ensures LiveOf(s')[q] == LiveOf(s)[q] {
      assert Within(q, lo, end) || !Within(q, lo, end);
    }
  }

  /* The records of the blocks, the first of which is longer now. */
  lemma ExtendedBlocks(h: Heap, h': Heap, w: Bounds, t: nat, end: nat)
    requires HeapOk(h, w) && h.blocks != [] && t + REGION_SIZE == h.blocks[0].end && t in h.shape
        && h.shape[t].kind == Sentinel && IsExtended(h.shape, h'.shape, t, end)
    requires h'.blocks == h.blocks[0 := Block(h.blocks[0].start, end)] && w.limit < end
    requires OthersKept(h.shape, h'.shape, h.mem, h'.mem, h.blocks[0].start)
    requires var r := h.blocks[0].start;
             Word(h'.mem, r + 8) == Address(end) && Word(h'.mem, r + 4) == Word(h.mem, r + 4)
    ensures BlocksPart(h'.mem, h'.shape, h'.blocks)
  {
    var lo, r := ExtendStart(h.shape, t), h.blocks[0].start;
    assert BlockOk(h.mem, h.shape, h.blocks, 0);
    assert Agree(h.shape, h'.shape, lo, end) by { assert Rewrites(h.shape, h'.shape, lo, end); }
    forall i: nat | i < |h'.blocks| ensures BlockOk(h'.mem, h'.shape, h'.blocks, i) { ExtendedBlock(h, h', t, end, i); }
    forall p | p in h'.shape && h'.shape[p].kind == Root ensures RootListed(h'.blocks, p) {
      assert Within(p, lo, end) || !Within(p, lo, end);
      assert RootListed(h.blocks, p);
      var i: nat :| i < |h.blocks| && h.blocks[i].start == p;
      assert h'.blocks[i].start == p;
    }
    forall i: nat, j: nat | i < j < |h'.blocks| ensures h'.blocks[j].end <= h'.blocks[i].start {
      assert h.blocks[j].end <= h.blocks[i].start;
    }
  }

  lemma ExtendedBlock(h: Heap, h': Heap, t: nat, end: nat, i: nat)
    requires ShapeOk(h.shape) && BlocksPart(h.mem, h.shape, h.blocks) && i < |h.blocks|
    requires h.blocks != [] && t + REGION_SIZE == h.blocks[0].end && t in h.shape && h.shape[t].kind == Sentinel
        && IsExtended(h.shape, h'.shape, t, end)
    requires Agree(h.shape, h'.shape, ExtendStart(h.shape, t), end)
    requires h'.blocks == h.blocks[0 := Block(h.blocks[0].start, end)]
    requires OthersKept(h.shape, h'.shape, h.mem, h'.mem, h.blocks[0].start)
    requires var r := h.blocks[0].start;
             Word(h'.mem, r + 8) == Address(end) && Word(h'.mem, r + 4) == Word(h.mem, r + 4)
    ensures BlockOk(h'.mem, h'.shape, h'.blocks, i)
  {
    var lo := ExtendStart(h.shape, t);
    assert BlockOk(h.mem, h.shape, h.blocks, i) && BlockOk(h.mem, h.shape, h.blocks, 0);
    var b := h.blocks[i];
    assert RegOk(h.shape, b.start);
    assert Within(b.start, lo, end) || !Within(b.start, lo, end);
    var t' := b.end - REGION_SIZE;
    assert Within(t', lo, end) || !Within(t', lo, end);
    if i > 0 {
      assert h.blocks[i].end <= h.blocks[0].start;
      assert InUse(h.shape, b.start) && Kept(h.shape, h.mem, h'.mem, b.start);
    }
  }

  lemma AddedSize(s: Shape, s': Shape, start: nat, end: nat)
    requires IsAdded(s, s', start, end)
    ensures end - REGION_SIZE - (start + REGION_SIZE) >= REGION_SIZE && Quad(end - REGION_SIZE - (start + REGION_SIZE))
        && s' != map[]
  {
    assert RegOk(s', start + REGION_SIZE);
  }

  /* The only free region that is new or has changed is lo. */
  ghost predicate OnlyNewFree(s: Shape, s': Shape, lo: nat) {
    forall f: nat {:trigger FreeAt(s', f)} | FreeAt(s', f) && f != lo :: FreeAt(s, f) && End(s', f) == End(s, f)
  }

  /* Region lo is the last of the newest block, and free. */
  ghost predicate TopIs(s: Shape, blocks: seq<Block>, limit: nat, lo: nat) {
    && blocks != [] && blocks[0].end == limit >= REGION_SIZE && FreeAt(s, lo) && End(s, lo) == limit - REGION_SIZE
    && limit - REGION_SIZE in s && s[limit - REGION_SIZE].prev == lo
  }

  /* Region f comes first in the list of its bucket. */
  ghost predicate Foremost(h: Heap, f: nat) {
    && f in h.shape && 16 <= h.shape[f].size < W32 && var b := BucketOf(h.shape[f].size);
    && b in h.rings && |h.rings[b]| > 1 && h.rings[b][1] == f
  }

  /* Address a lies in a block. */
  ghost predicate InBlocks(blocks: seq<Block>, a: nat) {
    exists i: nat {:trigger blocks[i]} :: i < |blocks| && blocks[i].start <= a < blocks[i].end
  }

  lemma InAdded(blocks: seq<Block>, start: nat, end: nat)
    ensures forall a: nat {:trigger InBlocks([Block(start, end)] + blocks, a)} ::
        InBlocks([Block(start, end)] + blocks, a) <==> InBlocks(blocks, a) || start <= a < end
  {
    var blocks' := [Block(start, end)] + blocks;
    forall a: nat ensures InBlocks(blocks', a) <==> InBlocks(blocks, a) || start <= a < end {
      if InBlocks(blocks, a) {
        var i: nat :| i < |blocks| && blocks[i].start <= a < blocks[i].end;
        assert blocks'[i + 1] == blocks[i];
      }
      if start <= a < end { assert blocks'[0] == Block(start, end); }
    }
  }

  lemma InExtended(blocks: seq<Block>, start: nat, end: nat)
    requires blocks != [] && blocks[0].start <= blocks[0].end == start <= end
    ensures var blocks' := blocks[0 := Block(blocks[0].start, end)];
      forall a: nat {:trigger InBlocks(blocks', a)} :: InBlocks(blocks', a) <==> InBlocks(blocks, a) || start <= a < end
  {
    var blocks' := blocks[0 := Block(blocks[0].start, end)];
    forall a: nat ensures InBlocks(blocks', a) <==> InBlocks(blocks, a) || start <= a < end {
      if InBlocks(blocks, a) {
        var i: nat :| i < |blocks| && blocks[i].start <= a < blocks[i].end;
        assert blocks'[i].start <= a < blocks'[i].end;
      }
      if InBlocks(blocks', a) {
        var i: nat :| i < |blocks'| && blocks'[i].start <= a < blocks'[i].end;
        assert blocks[i].start <= a && (a < blocks[i].end || start <= a < end);
      }
      if start <= a < end { assert blocks'[0].start <= a < blocks'[0].end; }
    }
  }

  lemma AddedFree(s: Shape, s': Shape, start: nat, end: nat)
    requires IsAdded(s, s', start, end)
    ensures OnlyNewFree(s, s', start + REGION_SIZE)
    ensures FreeAt(s', start + REGION_SIZE) && End(s', start + REGION_SIZE) == end - REGION_SIZE
        && end - REGION_SIZE in s' && s'[end - REGION_SIZE].prev == start + REGION_SIZE
  {
    forall f: nat | FreeAt(s', f) && f != start + REGION_SIZE ensures FreeAt(s, f) && End(s', f) == End(s, f) {
      assert Within(f, start, end) || !Within(f, start, end);
    }
  }

  lemma ExtendedSize(s: Shape, s': Shape, t: nat, end: nat)
    requires t in s && IsExtended(s, s', t, end)
    ensures var lo := ExtendStart(s, t);
        end - REGION_SIZE - lo >= REGION_SIZE && Quad(end - REGION_SIZE - lo) && s' != map[]
  {
    assert RegOk(s', ExtendStart(s, t));
  }

  lemma ExtendedFree(s: Shape, s': Shape, t: nat, end: nat)
    requires t in s && IsExtended(s, s', t, end)
    ensures var lo, e := ExtendStart(s, t), end - REGION_SIZE;
      OnlyNewFree(s, s', lo) && FreeAt(s', lo) && End(s', lo) == e && e in s' && s'[e].prev == lo
  {
    var lo := ExtendStart(s, t);
    assert Agree(s, s', lo, end) by { assert Rewrites(s, s', lo, end); }
    forall f: nat | FreeAt(s', f) && f != lo ensures FreeAt(s, f) && End(s', f) == End(s, f) {
      assert Within(f, lo, end) || !Within(f, lo, end);
    }
  }

  /* From the heap h before the call, over h0 and h1, to h2. */
  lemma FinishExtend(h: Heap, h0: Heap, h1: Heap, h2: Heap, w: Bounds, t: nat, end: nat, r: nat)
    requires HeapOk(h, w) && h.blocks != [] && r == h.blocks[0].start && t + REGION_SIZE == h.blocks[0].end
        && t in h.shape && h.shape[t].kind == Sentinel
    requires IsExtended(h.shape, h2.shape, t, end) && w.limit < end
    requires h0.shape == h.shape && OthersKept(h.shape, h0.shape, h.mem, h0.mem, r)
        && Word(h0.mem, r + 4) == Word(h.mem, r + 4) && Word(h0.mem, r + 8) == Address(end)
    requires ListStep(h0, h1) && OthersKept(h1.shape, h2.shape, h1.mem, h2.mem, 0)
    requires h2.blocks == h.blocks[0 := Block(r, end)]
    ensures BlocksPart(h2.mem, h2.shape, h2.blocks) && OthersKept(h.shape, h2.shape, h.mem, h2.mem, r)
  {
    assert BlockOk(h.mem, h.shape, h.blocks, 0) && RegOk(h.shape, r);
    StepKeepsOthers(h0, h1, r);
    assert InUse(h.shape, r);
    assert Kept(h0.shape, h0.mem, h1.mem, r);
    assert Kept(h1.shape, h1.mem, h2.mem, r);
    OthersTwice(h.shape, h0.shape, h1.shape, h.mem, h0.mem, h1.mem, r);
    OthersAny(h1.shape, h2.shape, h1.mem, h2.mem, r);
    OthersTwice(h.shape, h1.shape, h2.shape, h.mem, h1.mem, h2.mem, r);
    ExtendedBlocks(h, h2, w, t, end);
  }
}
