/** Resizing an allocation of emmalloc in place: it gives up its end, or takes from the free region after it. */
module EmResize {
  import opened EmLists
  import opened EmFreeLists
  import opened EmShape
  import opened EmHeap
  import opened EmSpans

  /* The first n bytes from p are a used region, and what is left up to the end of the free region
     after it is a free region if it is large enough for one. */
  ghost predicate IsResized(s: Shape, s': Shape, p: nat, n: nat)
    requires p in s
  {
    var hi := FreeEnd(s, p);
    && p + n <= hi && Rewrites(s, s', p, hi) && p in s' && s'[p].kind == Used
    && (if Splits(hi - p, n) then s'[p].size == n && p + n in s' && s'[p + n].kind == Free
    && End(s', p + n) == hi else End(s', p) == hi)
    && (forall q: nat {:trigger Within(q, p, hi)} | Within(q, p, hi) && q in s' :: q == p
         || (q == p + n && Splits(hi - p, n)))
    && (forall q: nat {:trigger Within(q, p, hi)} | Within(q, p, hi) && q in s :: q == p
         || (q == End(s, p) && FreeAt(s, q)))
  }

  lemma ResizeShape(s: Shape, p: nat, n: nat) returns (s': Shape)
    requires ShapeOk(s) && p in s && s[p].kind == Used && Quad(n) && n >= REGION_SIZE && p + n <= FreeEnd(s, p)
    ensures IsResized(s, s', p, n)
  {
    assert RegOk(s, p);
    var t := TakeNext(s, p);
    s' := CutUsed(t, p, n);
    ResizeFacts(s, t, s', p, n);
  }

  lemma ResizeFacts(s: Shape, t: Shape, s': Shape, p: nat, n: nat)
    requires ShapeOk(s) && ShapeOk(t) && ShapeOk(s') && p in s && s[p].kind == Used && n >= REGION_SIZE
        && p + n <= FreeEnd(s, p)
    requires p in t && End(t, p) == FreeEnd(s, p) && SameBut(s, t, if FreeAt(s, End(s, p)) then End(s, p) else p, p)
    requires var hi := FreeEnd(s, p);
      && p in s' && s'[p].kind == Used
      && (if Splits(hi - p, n) then s'[p].size == n && p + n in s' && s'[p + n].kind == Free
      && End(s', p + n) == hi else s' == t)
      && (forall q: nat | q in t && q != p :: q in s' && s'[q].size == t[q].size && s'[q].kind == t[q].kind)
      && (forall q: nat | q in s' :: q in t || (q == p + n && Splits(hi - p, n)))
    ensures IsResized(s, s', p, n)
  {
    var hi, x := FreeEnd(s, p), End(s, p);
    assert RegOk(s, p) && (x in s ==> RegOk(s, x));
    FramedBy(s, p, if FreeAt(s, x) then x else p);
    FramedBy(s', p, if Splits(hi - p, n) then p + n else p);
    forall q: nat | Within(q, p, hi) && q in s ensures q == p || (q == x && FreeAt(s, q)) {
      if q != p {
        Disjoint(s, q, p);
        if FreeAt(s, x) && q != x { Disjoint(s, q, x); }
      }
    }
    forall q: nat | Within(q, p, hi) && q in s' ensures q == p || (q == p + n && Splits(hi - p, n)) {
      if q != p && q in t { Inside(t, p, q); }
    }
    forall q: nat | !Within(q, p, hi)
      ensures (q in s <==> q in s') && (q in s ==> s'[q].size == s[q].size && s'[q].kind == s[q].kind) {
      if FreeAt(s, x) { assert Within(x, p, hi); }
    }
  }

  /* What the new region and the rest are. */
  lemma ResizedRegion(s: Shape, s': Shape, p: nat, n: nat)
    requires p in s && IsResized(s, s', p, n)
    ensures var hi := FreeEnd(s, p);
      && p in s' && s'[p].kind == Used && p + n <= hi && End(s', p) == (if Splits(hi - p, n) then p + n else hi)
      && ShapeOk(s')
      && (Splits(hi - p, n) ==>
           p + n in s' && s'[p + n].kind == Free && s'[p + n].size == hi - (p + n) && Quad(hi - (p + n)))
  {
    if Splits(FreeEnd(s, p) - p, n) { assert RegOk(s', p + n); }
  }

  lemma ResizedLive(s: Shape, s': Shape, p: nat, n: nat)
    requires p in s && s[p].kind == Used && IsResized(s, s', p, n) && n > 0
    ensures LiveOf(s') == LiveOf(s)[p := s'[p].size] && n <= s'[p].size < n + REGION_SIZE && s' != map[]
  {
    var hi := FreeEnd(s, p);
    assert Agree(s, s', p, hi) by { assert Rewrites(s, s', p, hi); }
    hide Rewrites;
    assert Within(p, p, hi);
    forall q ensures q in LiveOf(s') <==> q in LiveOf(s) { assert Within(q, p, hi) || !Within(q, p, hi); }
    forall q | q in LiveOf(s') && q != p ensures LiveOf(s')[q] == LiveOf(s)[q] {
      assert Within(q, p, hi) || !Within(q, p, hi);
    }
  }

  /* The words of the rest, before the marks of p. */
  ghost predicate ResizeWords(h: Heap, h': Heap, p: nat, n: nat)
    requires p in h.shape
  {
    var hi := FreeEnd(h.shape, p);
    && h'.rings == h.rings && h'.mask == h.mask && h'.blocks == h.blocks
    && (if Splits(hi - p, n) then h'.loose == {p + n}
    && h'.mem == h.mem[p + n := hi - (p + n)][hi - 4 := hi - (p + n) + 1]
        else h'.loose == {} && h'.mem == h.mem)
  }

  lemma ResizedHeap(h: Heap, h': Heap, w: Bounds, p: nat, n: nat)
    requires HeapOk(h, w) && p in h.shape && h.shape[p].kind == Used
        && h.loose == (if FreeAt(h.shape, End(h.shape, p)) then {End(h.shape, p)} else {})
    requires n >= REGION_SIZE && IsResized(h.shape, h'.shape, p, n) && ResizeWords(h, h', p, n)
    ensures ListPart(h', w) && BlocksPart(h'.mem, h'.shape, h'.blocks) && MarkedBut(h'.mem, h'.shape, p)
    ensures OthersKept(h.shape, h'.shape, h.mem, h'.mem, p) && KeptTo(h.mem, h'.mem, p, p + n)
  {
    hide FreeAt;
    var hi := FreeEnd(h.shape, p);
    Fields(h, w, p);
    assert p in h.shape;
    ResizedSpan(h, h', p, n);
    assert w.base <= p && hi <= w.limit by { assert End(h.shape, p) <= w.limit; }
    RangeKept(h.shape, h'.shape, p, hi, w.base, w.limit);
    SpanLists(h, h', w, w, p, hi);
    SpanBlocks(h, h', p, hi);
    forall q | q in h'.shape && q != p ensures Marked(h'.mem, h'.shape, q) {
      if !Within(q, p, hi) {
        assert Marked(h.mem, h.shape, q);
        SpanMark(h, h', q, p, hi);
      }
    }
    forall q: nat | InUse(h.shape, q) && q != p
      ensures Kept(h.shape, h.mem, h'.mem, q) && InUse(h'.shape, q) && h'.shape[q].kind == h.shape[q].kind
      && End(h.shape, q) <= End(h'.shape, q) {
      assert !Within(q, p, hi);
      SpanMark(h, h', q, p, hi);
    }
  }

  lemma ResizedSpan(h: Heap, h': Heap, p: nat, n: nat)
    requires ShapeOk(h.shape) && p in h.shape && h.shape[p].kind == Used
        && h.loose == (if FreeAt(h.shape, End(h.shape, p)) then {End(h.shape, p)} else {})
    requires n >= REGION_SIZE && IsResized(h.shape, h'.shape, p, n) && ResizeWords(h, h', p, n)
    ensures var hi := FreeEnd(h.shape, p);
      && SpanOf(h, h', p, hi)
      && (forall q: nat {:trigger Within(q, p, hi)} | Within(q, p, hi) && q in h'.shape && q != p ::
           Marked(h'.mem, h'.shape, q) && h'.shape[q].kind == Free)
      && (forall q: nat {:trigger Within(q, p, hi)} | Within(q, p, hi) && q in h.shape && q != p ::
           h.shape[q].kind == Free)
  {
    assert RegOk(h.shape, p);
    if FreeAt(h.shape, End(h.shape, p)) { assert RegOk(h.shape, End(h.shape, p)); }
    ResizedRegion(h.shape, h'.shape, p, n);
  }

  /* The words of the payload of p up to address e, where the ceiling of p would end. */
  ghost predicate KeptTo(m: Mem, m': Mem, p: nat, e: nat) {
    forall a: nat {:trigger Word(m', a)} | p + 4 <= a && a + 4 < e :: Word(m', a) == Word(m, a)
  }

  lemma KeptToTwice(m: Mem, m1: Mem, m2: Mem, p: nat, e1: nat, e2: nat, e: nat)
    requires KeptTo(m, m1, p, e1) && KeptTo(m1, m2, p, e2) && e <= e1 && e <= e2
    ensures KeptTo(m, m2, p, e)
  {
    forall a: nat | p + 4 <= a && a + 4 < e ensures Word(m2, a) == Word(m, a) { assert Word(m1, a) == Word(m, a); }
  }

  lemma KeptToFrom(s: Shape, s': Shape, m: Mem, m': Mem, p: nat, x: nat)
    requires OthersKept(s, s', m, m', x) && InUse(s, p) && p != x
    ensures KeptTo(m, m', p, End(s, p))
  {
    assert Kept(s, m, m', p);
  }

  /* The marks of p do not touch its payload. */
  lemma MarksKeep(m: Mem, p: nat, size: nat, e: nat)
    requires size >= 4 && e <= p + size
    ensures KeptTo(m, m[p := size][p + size - 4 := size], p, e)
  {}

  /* The two pairs of marks may be written in either order. */
  lemma MarksCommute(m: Mem, p: nat, n: nat, hi: nat, x: nat)
    requires n >= REGION_SIZE && hi >= p + n + REGION_SIZE
    ensures m[p := n][p + n - 4 := n][p + n := x][hi - 4 := x + 1] == m[p + n := x][hi - 4 := x + 1][p := n][p
        + n - 4 := n]
  {}

  function Least(a: int, b: int): (r: int)
    ensures r <= a && r <= b && (r == a || r == b)
  {
    if a < b then a else b
  }

  lemma KeptToSame(m: Mem, p: nat)
    ensures forall x: nat :: KeptTo(m, m, p, x)
  {}

  lemma UsedInUse(s: Shape, p: nat)
    requires ShapeOk(s) && p in s && s[p].kind == Used
    ensures InUse(s, p) && p > 0
  {
    assert RegOk(s, p);
  }

  /* Writes within a payload disturb nothing else. */
  lemma PayloadWrite(h: Heap, h': Heap, w: Bounds, p: nat)
    requires HeapOk(h, w) && p in h.shape && h.shape[p].kind == Used && h' == h.(mem := h'.mem) && End(h.shape, p) >= 4
    requires SameBeyond(h.mem, h'.mem, p + 4, End(h.shape, p) - 4)
    ensures HeapOk(h', w) && OthersKept(h.shape, h.shape, h.mem, h'.mem, p)
  {
    var l := ListedOf(h.shape, h.loose);
    forall x | x in l ensures Word(h'.mem, x + 4) == Word(h.mem, x + 4) && Word(h'.mem, x + 8) == Word(h.mem, x + 8) {
      Disjoint(h.shape, x, p);
    }
    LinksKept(h.mem, h'.mem, h.rings, l, w.heads) by { assert End(h.shape, p) <= w.limit; }
    forall q | q in h.shape ensures Marked(h'.mem, h.shape, q) {
      assert Marked(h.mem, h.shape, q);
      if q != p { Disjoint(h.shape, q, p); }
    }
    forall q: nat | InUse(h.shape, q) && q != p ensures Kept(h.shape, h.mem, h'.mem, q) { Disjoint(h.shape, q, p); }
    forall i: nat | i < |h.blocks| ensures BlockOk(h'.mem, h'.shape, h'.blocks, i) {
      assert BlockOk(h.mem, h.shape, h.blocks, i);
      Disjoint(h.shape, h.blocks[i].start, p);
    }
  }

  function At(m: Mem, p: nat, i: nat): nat { Word(m, p + 4 * i) }

  /* The first n bytes of the payload at `from` are those at `to` now. */
  ghost predicate SameStart(m: Mem, m': Mem, from: nat, to: nat, n: int) {
    forall i: nat {:trigger At(m', to, i)} | 4 * i < n :: At(m', to, i) == At(m, from, i)
  }

  lemma CopyWord(m: Mem, m1: Mem, from: nat, to: nat, k: nat, n: nat)
    requires SameStart(m, m1, from, to, 4 * k) && At(m1, from, k) == At(m, from, k) && 4 * k + 4 <= n
    requires forall a: nat {:trigger Word(m1, a)} | a < to || a >= to + n :: Word(m1, a) == Word(m, a)
    ensures var m' := m1[to + 4 * k := Word(m1, from + 4 * k)];
      && SameStart(m, m', from, to, 4 * (k + 1))
      && forall a: nat {:trigger Word(m', a)} | a < to || a >= to + n :: Word(m', a) == Word(m, a)
  {
    var m' := m1[to + 4 * k := Word(m1, from + 4 * k)];
    forall i: nat | 4 * i < 4 * (k + 1) ensures At(m', to, i) == At(m, from, i) {
      assert i != k ==> At(m1, to, i) == At(m, from, i);
    }
    forall a: nat | a < to || a >= to + n ensures Word(m', a) == Word(m, a) { assert Word(m1, a) == Word(m, a); }
  }

  lemma KeptAt(s: Shape, m: Mem, m': Mem, p: nat, i: nat)
    requires p in s && Kept(s, m, m', p) && 4 * i + 8 < s[p].size
    ensures At(m', p + 4, i) == At(m, p + 4, i)
  {}

  lemma StartKept(m: Mem, m': Mem, p: nat, e: int, n: int)
    requires e >= 0 && KeptTo(m, m', p, p + e) && n + REGION_HEADER_SIZE <= e
    ensures SameStart(m, m', p + 4, p + 4, n)
  {}

  /* p is copied to the new allocation r, and freed. */
  lemma Moved(s: Shape, s1: Shape, s3: Shape, m: Mem, m1: Mem, m2: Mem, m3: Mem, p: nat, r: nat, size: nat, n: nat)
    requires PayloadsKept(s, s1, m, m1, r) && LiveGrown(LiveOf(s), LiveOf(s1), r) && p in LiveOf(s)
        && size + REGION_HEADER_SIZE <= LiveOf(s1)[r]
    requires OthersKept(s1, s1, m1, m2, r) && SameStart(m1, m2, p + 4, r + 4, n)
        && n >= Least(LiveOf(s)[p] - REGION_HEADER_SIZE, size)
    requires OthersKept(s1, s3, m2, m3, p) && LiveOf(s3) == LiveOf(s1) - {p}
    ensures PayloadsKept(s - {p}, s3, m, m3, 0) && r in LiveOf(s3) && LiveOf(s3)[r] == LiveOf(s1)[r]
    ensures forall q :: q in LiveOf(s3) <==> (q in LiveOf(s) && q != p) || q == r
    ensures SameStart(m, m3, p + 4, r + 4, Least(LiveOf(s)[p] - REGION_HEADER_SIZE, size))
  {
    var s0 := s - {p};
    forall q: nat | q in LiveOf(s0) && q != 0
      ensures Kept(s0, m, m3, q) && q in LiveOf(s3) && LiveOf(s0)[q] <= LiveOf(s3)[q] {
      assert q in LiveOf(s) && q in LiveOf(s1) && q != r && InUse(s1, q);
      assert Kept(s, m, m1, q) && Kept(s1, m1, m2, q) && Kept(s1, m2, m3, q);
      KeptTwice(s, s1, m, m1, m2, q);
      KeptTwice(s, s1, m, m2, m3, q);
      assert Kept(s, m, m3, q);
      assert End(s0, q) == End(s, q);
    }
    forall i: nat | 4 * i < Least(LiveOf(s)[p] - REGION_HEADER_SIZE, size) ensures At(m3, r + 4, i) == At(m, p + 4, i) {
      assert Kept(s, m, m1, p);
      KeptAt(s, m, m1, p, i);
      assert InUse(s1, r) && Kept(s1, m2, m3, r);
      KeptAt(s1, m2, m3, r, i);
      assert At(m2, r + 4, i) == At(m1, p + 4, i);
    }
  }
}
