/** What the operations of emmalloc make of the regions: each rewrites one span between two region
    boundaries and leaves the rest as it is. */
module EmSpans {
  import opened Words
  import opened EmLists
  import opened EmFreeLists
  import opened EmShape
  import opened EmHeap

  /* The span from lo to hi of s becomes that of s'. */
  ghost predicate Rewrites(s: Shape, s': Shape, lo: nat, hi: nat) {
    && ShapeOk(s) && ShapeOk(s') && Framed(s, lo, hi) && Framed(s', lo, hi) && Agree(s, s', lo, hi)
  }

  lemma RangeKept(s: Shape, s': Shape, lo: nat, hi: nat, base: nat, limit: nat)
    requires Rewrites(s, s', lo, hi) && InRange(s, base, limit) && base <= lo && hi <= limit
    ensures InRange(s', base, limit)
  {
    forall q | q in s' ensures base <= q && End(s', q) <= limit {
      assert Within(q, lo, hi) || !Within(q, lo, hi);
      if !Within(q, lo, hi) { assert End(s, q) <= limit; } else { assert End(s', q) <= hi; }
    }
  }

  /* ---- free ---- */

  predicate FreeAt(s: Shape, p: nat) { p in s && s[p].kind == Free }

  /* Where the region that p becomes part of starts and ends. */
  function FreeStart(s: Shape, p: nat): nat
    requires p in s
  {
    if FreeAt(s, s[p].prev) then s[p].prev else p
  }

  function FreeEnd(s: Shape, p: nat): nat
    requires p in s
  {
    if FreeAt(s, End(s, p)) then End(s, End(s, p)) else End(s, p)
  }

  ghost predicate IsFreed(s: Shape, s': Shape, p: nat)
    requires p in s
  {
    var lo, hi := FreeStart(s, p), FreeEnd(s, p);
    && lo <= p && p < hi && Rewrites(s, s', lo, hi) && lo in s' && s'[lo].kind == Free && lo + s'[lo].size == hi
    && (forall q: nat {:trigger Within(q, lo, hi)} | Within(q, lo, hi) && q in s' :: q == lo)
    && (forall q: nat {:trigger Within(q, lo, hi)} | Within(q, lo, hi) && q in s :: q == lo || q == p
         || (q == End(s, p) && FreeAt(s, q)))
  }

  /* The same regions in the same state, except for those named. */
  ghost predicate SameBut(s: Shape, t: Shape, gone: nat, changed: nat) {
    && (forall q: nat {:trigger q in t} | q in s && q != gone && q != changed ::
         q in t && t[q].size == s[q].size && t[q].kind == s[q].kind)
    && forall q: nat {:trigger q in s} | q in t && q != changed :: q in s
  }

  /* p takes in the free region after it, if there is one. */
  lemma TakeNext(s: Shape, p: nat) returns (t: Shape)
    requires ShapeOk(s) && p in s && s[p].kind == Used
    ensures ShapeOk(t) && p in t && t[p].kind == Used && t[p].prev == s[p].prev && End(t, p) == FreeEnd(s, p)
    ensures End(t, p) in t && t[End(t, p)].kind != Free
        && SameBut(s, t, if FreeAt(s, End(s, p)) then End(s, p) else p, p)
  {
    assert RegOk(s, p);
    var n := End(s, p);
    t := s;
    if FreeAt(s, n) {
      NoFreeNeighbours(s, n);
      UseOk(s, n);
      JoinOk(Use(s, n), p);
      t := Join(Use(s, n), p);
    }
  }

  /* The region before p takes it in, if it is free. */
  lemma TakeBefore(s: Shape, p: nat) returns (t: Shape)
    requires ShapeOk(s) && p in s && s[p].kind == Used && End(s, p) in s && s[End(s, p)].kind != Free
    ensures var lo := FreeStart(s, p);
        ShapeOk(t) && lo <= p && CanRelease(t, lo) && End(t, lo) == End(s, p) && SameBut(s, t, p, lo)
  {
    assert RegOk(s, p);
    var b := s[p].prev;
    t := s;
    if FreeAt(s, b) {
      NoFreeNeighbours(s, b);
      UseOk(s, b);
      JoinOk(Use(s, b), b);
      t := Join(Use(s, b), b);
    }
  }

  lemma FreeShape(s: Shape, p: nat) returns (s': Shape)
    requires ShapeOk(s) && p in s && s[p].kind == Used
    ensures IsFreed(s, s', p)
  {
    var lo, hi := FreeStart(s, p), FreeEnd(s, p);
    assert RegOk(s, p);
    var t := TakeNext(s, p);
    assert RegOk(s, s[p].prev);
    var u := TakeBefore(t, p);
    assert lo == FreeStart(t, p);
    ReleaseOk(u, lo);
    s' := Release(u, lo);
    hide ShapeOk; hide CanRelease;
    FreedFacts(s, s', p, lo, hi);
  }

  /* What region of the span q can be. */
  lemma FreedRegion(s: Shape, p: nat, q: nat)
    requires ShapeOk(s) && p in s && s[p].kind == Used && q in s && FreeStart(s, p) <= q < FreeEnd(s, p)
    ensures q == FreeStart(s, p) || q == p || (q == End(s, p) && FreeAt(s, q))
  {
    assert RegOk(s, p);
    var b, n := s[p].prev, End(s, p);
    if q < p {
      if q != b { Inside(s, b, q); }
    } else if q < n {
      if q != p { Inside(s, p, q); }
    } else {
      if q != n { Inside(s, n, q); }
    }
  }

  lemma FreedFacts(s: Shape, s': Shape, p: nat, lo: nat, hi: nat)
    requires ShapeOk(s) && ShapeOk(s') && p in s && lo == FreeStart(s, p) && hi == FreeEnd(s, p) && s[p].kind == Used
    requires lo in s' && s'[lo].kind == Free && lo + s'[lo].size == hi
    requires forall q: nat | q in s && q != lo && q != p && q != End(s, p) ::
        q in s' && s'[q].size == s[q].size && s'[q].kind == s[q].kind
    requires forall q: nat | q in s' && q != lo :: q in s
    requires End(s, p) in s && !FreeAt(s, End(s, p)) ==>
        End(s, p) in s' && s'[End(s, p)].size == s[End(s, p)].size && s'[End(s, p)].kind == s[End(s, p)].kind
    ensures IsFreed(s, s', p)
  {
    assert RegOk(s, p);
    var b, n := s[p].prev, End(s, p);
    assert RegOk(s, b) && RegOk(s, n);
    var last := if FreeAt(s, n) then n else p;
    FramedBy(s, lo, last);
    FramedBy(s', lo, lo);
    forall q: nat | Within(q, lo, hi) && q in s' ensures q == lo { if q != lo { Inside(s', lo, q); } }
    forall q: nat | Within(q, lo, hi) && q in s ensures q == lo || q == p || (q == n && FreeAt(s, q)) {
      FreedRegion(s, p, q);
    }
    forall q: nat | !Within(q, lo, hi)
      ensures (q in s <==> q in s') && (q in s ==> s'[q].size == s[q].size && s'[q].kind == s[q].kind) {}
  }

  /* ---- states ---- */

  lemma KeptTwice(s: Shape, s': Shape, m: Mem, m1: Mem, m2: Mem, q: nat)
    requires Kept(s, m, m1, q) && Kept(s', m1, m2, q) && End(s, q) <= End(s', q)
    ensures Kept(s, m, m2, q)
  {
    forall a: nat | q + 4 <= a && a + 4 < End(s, q) ensures Word(m2, a) == Word(m, a) {
      assert Word(m1, a) == Word(m, a);
    }
  }

  /* Every region in use besides p stays in use, no smaller, with its payload. */
  ghost predicate OthersKept(s: Shape, s': Shape, m: Mem, m': Mem, p: nat) {
    forall q: nat {:trigger Kept(s, m, m', q)} | InUse(s, q) && q != p :: Kept(s, m, m', q) && InUse(s', q)
      && s'[q].kind == s[q].kind && End(s, q) <= End(s', q)
  }

  lemma OthersTwice(s: Shape, s1: Shape, s2: Shape, m: Mem, m1: Mem, m2: Mem, p: nat)
    requires OthersKept(s, s1, m, m1, p) && OthersKept(s1, s2, m1, m2, p)
    ensures OthersKept(s, s2, m, m2, p)
  {
    forall q: nat | InUse(s, q) && q != p
      ensures Kept(s, m, m2, q) && InUse(s2, q) && s2[q].kind == s[q].kind && End(s, q) <= End(s2, q) {
      assert Kept(s, m, m1, q) && Kept(s1, m1, m2, q);
      KeptTwice(s, s1, m, m1, m2, q);
    }
  }

  lemma StepKeepsOthers(h: Heap, h': Heap, p: nat)
    requires ListStep(h, h')
    ensures OthersKept(h.shape, h'.shape, h.mem, h'.mem, p)
  {
    forall q: nat | InUse(h.shape, q) ensures Kept(h.shape, h.mem, h'.mem, q) {
      assert Kept(h.shape, h.mem, h'.mem, q);
    }
  }

  /* A list operation on a whole heap leaves a whole heap. */
  lemma StepWhole(h: Heap, h': Heap, w: Bounds)
    requires HeapOk(h, w) && ListPart(h', w) && ListStep(h, h')
    ensures HeapOk(h', w)
  {
    StepKeepsBlocks(h, h');
    forall q | q in h'.shape ensures Marked(h'.mem, h'.shape, q) { assert Marked(h.mem, h.shape, q); }
  }

  /* The allocations, with the sizes of their regions. */
  function LiveOf(s: Shape): map<nat, nat> { map p | p in s && s[p].kind == Used :: s[p].size }

  /* What the size words of a region and of its neighbours hold. */
  lemma Fields(h: Heap, w: Bounds, p: nat)
    requires HeapOk(h, w) && p in h.shape && h.shape[p].kind == Used
    ensures var s, b, n := h.shape, h.shape[p].prev, End(h.shape, p);
      && b in s && n in s && End(s, b) == p && p >= 16 && Quad(s[b].size) && Quad(s[p].size) && Quad(s[n].size)
      && s[n].kind != Root
      && s[p].size >= REGION_SIZE && s[b].size >= REGION_SIZE && s[n].size >= REGION_SIZE && w.base <= b
      && End(s, n) <= w.limit
      && Word(h.mem, p) == s[p].size && Word(h.mem, n) == s[n].size
      && Word(h.mem, p - 4) == s[b].size + (if FreeAt(s, b) then 1 else 0)
      && Word(h.mem, End(s, n) - 4) == s[n].size + (if FreeAt(s, n) then 1 else 0)
  {
    var s := h.shape;
    assert RegOk(s, p) && RegOk(s, s[p].prev) && RegOk(s, End(s, p));
    assert Marked(h.mem, s, p) && Marked(h.mem, s, s[p].prev) && Marked(h.mem, s, End(s, p));
    assert End(s, s[p].prev) <= w.limit && End(s, End(s, p)) <= w.limit;
  }

  /* emmalloc_free, once the free neighbours are unlinked. */
  lemma FreedHeap(h: Heap, h': Heap, w: Bounds, p: nat)
    requires HeapOk(h, w) && p in h.shape && h.shape[p].kind == Used && IsFreed(h.shape, h'.shape, p)
    requires var lo, hi := FreeStart(h.shape, p), FreeEnd(h.shape, p);
      && h'.mem == h.mem[lo := hi - lo][hi - 4 := hi - lo + 1] && h'.loose == {lo}
      && h'.rings == h.rings && h'.mask == h.mask && h'.blocks == h.blocks
    requires forall q: nat :: q in h.loose <==> FreeAt(h.shape, q) && (q == h.shape[p].prev || q == End(h.shape, p))
    ensures HeapOk(h', w) && OthersKept(h.shape, h'.shape, h.mem, h'.mem, p)
    ensures LiveOf(h'.shape) == LiveOf(h.shape) - {p} && h'.shape != map[]
  {
    var lo, hi := FreeStart(h.shape, p), FreeEnd(h.shape, p);
    Fields(h, w, p);
    assert RegOk(h'.shape, lo);
    FreedSpan(h, h', p, lo, hi);
    RangeKept(h.shape, h'.shape, lo, hi, w.base, w.limit);
    SpanLists(h, h', w, w, lo, hi);
    SpanMarks(h, h', lo, hi);
    SpanBlocks(h, h', lo, hi);
    forall q: nat | InUse(h.shape, q) && q != p
      ensures Kept(h.shape, h.mem, h'.mem, q) && InUse(h'.shape, q) && h'.shape[q].kind == h.shape[q].kind
      && End(h.shape, q) <= End(h'.shape, q) {
      assert !Within(q, lo, hi);
      SpanMark(h, h', q, lo, hi);
    }
    FreedLive(h.shape, h'.shape, p);
  }

  lemma FreedLive(s: Shape, s': Shape, p: nat)
    requires p in s && s[p].kind == Used && IsFreed(s, s', p)
    ensures LiveOf(s') == LiveOf(s) - {p} && s' != map[]
  {
    var lo, hi := FreeStart(s, p), FreeEnd(s, p);
    hide Rewrites;
    forall q ensures q in LiveOf(s') <==> q in LiveOf(s) - {p} { FreedAt(s, s', p, q); }
    forall q | q in LiveOf(s') ensures LiveOf(s')[q] == LiveOf(s)[q] { FreedAt(s, s', p, q); }
    assert lo in s';
  }

  lemma FreedAt(s: Shape, s': Shape, p: nat, q: nat)
    requires p in s && s[p].kind == Used && IsFreed(s, s', p)
    ensures q in s' && s'[q].kind == Used <==> q in s && s[q].kind == Used && q != p
    ensures q in s' && s'[q].kind == Used ==> s'[q].size == s[q].size
  {
    assert Within(q, FreeStart(s, p), FreeEnd(s, p)) || !Within(q, FreeStart(s, p), FreeEnd(s, p));
    assert Within(p, FreeStart(s, p), FreeEnd(s, p));
    if q in s && q != p && Within(q, FreeStart(s, p), FreeEnd(s, p)) { assert q == FreeStart(s, p) || FreeAt(s, q); }
  }

  lemma FreedSpan(h: Heap, h': Heap, p: nat, lo: nat, hi: nat)
    requires ShapeOk(h.shape) && p in h.shape && h.shape[p].kind == Used && IsFreed(h.shape, h'.shape, p)
        && lo == FreeStart(h.shape, p) && hi == FreeEnd(h.shape, p) && lo + 16 <= hi
    requires h'.mem == h.mem[lo := hi - lo][hi - 4 := hi - lo + 1] && h'.loose == {lo}
    requires h'.rings == h.rings && h'.mask == h.mask && h'.blocks == h.blocks
    requires forall q: nat :: q in h.loose <==> FreeAt(h.shape, q) && (q == h.shape[p].prev || q == End(h.shape, p))
    ensures SpanOf(h, h', lo, hi)
    ensures forall q: nat {:trigger Within(q, lo, hi)} | Within(q, lo, hi) && q in h'.shape ::
        Marked(h'.mem, h'.shape, q) && h'.shape[q].kind == Free
    ensures forall q: nat {:trigger Within(q, lo, hi)} | Within(q, lo, hi) && q in h.shape && q != p ::
        h.shape[q].kind == Free
  {
    assert RegOk(h.shape, p);
    var n := End(h.shape, p);
    if FreeAt(h.shape, n) { assert RegOk(h.shape, n); }
    if FreeAt(h.shape, h.shape[p].prev) { assert RegOk(h.shape, h.shape[p].prev); }
  }

  lemma HeapShape(h: Heap, w: Bounds)
    requires HeapOk(h, w)
    ensures ShapeOk(h.shape) && InRange(h.shape, w.base, w.limit)
  {}

  lemma OthersSame(s: Shape, m: Mem, p: nat)
    ensures OthersKept(s, s, m, m, p)
  {}

  lemma OthersAny(s: Shape, s': Shape, m: Mem, m': Mem, p: nat)
    requires OthersKept(s, s', m, m', 0) && ShapeOk(s)
    ensures OthersKept(s, s', m, m', p)
  {
    assert 0 in s ==> RegOk(s, 0);
    forall q: nat | InUse(s, q) && q != p ensures Kept(s, m, m', q) { assert q != 0 ==> Kept(s, m, m', q); }
  }

  /* ---- allocation ---- */

  /* Whether n bytes leave enough of the rest for a region. */
  predicate Splits(total: nat, n: nat) { n + REGION_SIZE <= total }

  /* Of the free region f, the first k bytes go to the region before, the next n are a used region,
     and what is left is a free region if it is large enough for one. */
  ghost predicate IsAllocated(s: Shape, s': Shape, f: nat, k: nat, n: nat)
    requires f in s
  {
    var lo, hi, p := if k > 0 then s[f].prev else f, End(s, f), f + k;
    && lo <= f && p + n <= hi && Rewrites(s, s', lo, hi) && p in s' && s'[p].kind == Used
    && (if Splits(hi - p, n) then s'[p].size == n && p + n in s' && s'[p + n].kind == Free
    && End(s', p + n) == hi else End(s', p) == hi)
    && (k > 0 ==>
         lo in s && lo in s' && InUse(s, lo) && s'[lo].kind == s[lo].kind && End(s, lo) == f && End(s', lo) == p)
    && (forall q: nat {:trigger Within(q, lo, hi)} | Within(q, lo, hi) && q in s' :: q == lo || q == p
         || (q == p + n && Splits(hi - p, n)))
    && (forall q: nat {:trigger Within(q, lo, hi)} | Within(q, lo, hi) && q in s :: q == lo || q == f)
  }

  lemma AllocShape(s: Shape, f: nat, k: nat, n: nat) returns (s': Shape)
    requires ShapeOk(s) && FreeAt(s, f) && Quad(k) && Quad(n) && n >= REGION_SIZE && k + n <= s[f].size
    ensures IsAllocated(s, s', f, k, n)
  {
    var b, hi, p := s[f].prev, End(s, f), f + k;
    NoFreeNeighbours(s, f);
    UseOk(s, f);
    var s1 := Use(s, f);
    assert RegOk(s, f);
    var s2 := s1;
    if k > 0 {
      ShiftOk(s1, b, k);
      s2 := Shift(s1, b, k);
      assert RegOk(s, b);
    }
    assert p in s2 && s2[p].kind == Used && End(s2, p) == hi && ShapeOk(s2);
    s' := CutUsed(s2, p, n);
    AllocFacts(s, s2, s', f, k, n);
  }

  /* The rest of a used region is freed, if it is large enough. */
  lemma CutUsed(s: Shape, p: nat, n: nat) returns (s': Shape)
    requires ShapeOk(s) && p in s && s[p].kind == Used && Quad(n) && REGION_SIZE <= n <= s[p].size && End(s, p) in s
        && s[End(s, p)].kind != Free
    ensures ShapeOk(s') && p in s' && s'[p].kind == Used
    ensures if Splits(s[p].size, n) then s'[p].size == n && p + n in s' && s'[p + n].kind == Free
        && End(s', p + n) == End(s, p) && p + n !in s
            else s' == s
    ensures forall q: nat | q in s && q != p :: q in s' && s'[q].size == s[q].size && s'[q].kind == s[q].kind
    ensures forall q: nat | q in s' :: q in s || (q == p + n && Splits(s[p].size, n))
  {
    s' := s;
    if Splits(s[p].size, n) {
      SplitOk(s, p, n);
      var t := Split(s, p, n);
      assert CanRelease(t, p + n) by { assert RegOk(t, p + n) && RegOk(s, p); }
      ReleaseOk(t, p + n);
      s' := Release(t, p + n);
    }
  }

  lemma AllocFacts(s: Shape, s2: Shape, s': Shape, f: nat, k: nat, n: nat)
    requires ShapeOk(s) && ShapeOk(s') && FreeAt(s, f) && n >= REGION_SIZE && k + n <= s[f].size
    requires var b, hi, p := s[f].prev, End(s, f), f + k;
      && b in s && End(s, b) == f && InUse(s, b) && p in s2 && End(s2, p) == hi && p in s' && s'[p].kind == Used
      && (if Splits(hi - p, n) then s'[p].size == n && p + n in s' && s'[p + n].kind == Free
      && End(s', p + n) == hi else End(s', p) == hi)
      && (k > 0 ==> b in s2 && End(s2, b) == p && s2[b].kind == s[b].kind)
      && (forall q: nat | q in s && q != f && (q != b || k == 0) ::
           q in s2 && s2[q].size == s[q].size && s2[q].kind == s[q].kind)
      && (forall q: nat | q in s2 && q != p :: q in s && (k > 0 ==> q != f))
      && (forall q: nat | q in s2 && q != p :: q in s' && s'[q].size == s2[q].size && s'[q].kind == s2[q].kind)
      && (forall q: nat | q in s' :: q in s2 || (q == p + n && Splits(hi - p, n)))
    ensures IsAllocated(s, s', f, k, n)
  {
    var b, hi, p := s[f].prev, End(s, f), f + k;
    var lo := if k > 0 then b else f;
    assert RegOk(s, f) && RegOk(s, b);
    FramedBy(s, lo, f);
    var last := if Splits(hi - p, n) then p + n else p;
    FramedBy(s', lo, last);
    forall q: nat | Within(q, lo, hi) && q in s ensures q == lo || q == f {
      if q != lo && q != f { Disjoint(s, q, f); if k > 0 { Disjoint(s, q, b); } }
    }
    forall q: nat | Within(q, lo, hi) && q in s' ensures q == lo || q == p || (q == p + n && Splits(hi - p, n)) {
      if q != p && !(q == p + n && Splits(hi - p, n)) { assert q in s; assert q == lo || q == f; }
    }
    forall q: nat | !Within(q, lo, hi)
      ensures (q in s <==> q in s') && (q in s ==> s'[q].size == s[q].size && s'[q].kind == s[q].kind) {
      assert RegOk(s', p);
    }
  }

  /* p is a new allocation, and none of the others has shrunk. */
  ghost predicate LiveGrown(l: map<nat, nat>, l': map<nat, nat>, p: nat) {
    p !in l && p in l' && (forall q :: q in l' <==> q in l || q == p) && forall q | q in l :: l[q] <= l'[q]
  }

  /* The words of an allocation, up to the marks of the allocated region itself. */
  ghost predicate AllocWords(h: Heap, h': Heap, f: nat, k: nat, n: nat)
    requires f in h.shape
  {
    var lo, hi, p := if k > 0 then h.shape[f].prev else f, End(h.shape, f), f + k;
    && SameBeyond(h.mem, h'.mem, lo, hi) && p >= lo && hi >= p + n
    && (k > 0 ==>
         p >= lo + 4 && Word(h'.mem, lo) == p - lo && Word(h'.mem, p - 4) == p - lo && Kept(h.shape, h.mem, h'.mem, lo))
    && (Splits(hi - p, n) ==>
         hi >= 4 && Word(h'.mem, p + n) == hi - (p + n) && Word(h'.mem, hi - 4) == hi - (p + n) + 1)
    && h'.rings == h.rings && h'.mask == h.mask && h'.blocks == h.blocks
    && h'.loose == if Splits(hi - p, n) then {p + n} else {}
  }

  ghost predicate MarkedBut(m: Mem, s: Shape, p: nat) {
    forall q {:trigger Marked(m, s, q)} | q in s && q != p :: Marked(m, s, q)
  }

  lemma AllocHeap(h: Heap, h': Heap, w: Bounds, f: nat, k: nat, n: nat)
    requires HeapOk(h, w) && FreeAt(h.shape, f) && h.loose == {f} && IsAllocated(h.shape, h'.shape, f, k, n)
        && AllocWords(h, h', f, k, n)
    ensures ListPart(h', w) && BlocksPart(h'.mem, h'.shape, h'.blocks) && MarkedBut(h'.mem, h'.shape, f + k)
    ensures OthersKept(h.shape, h'.shape, h.mem, h'.mem, f + k)
  {
    var lo, hi, p := if k > 0 then h.shape[f].prev else f, End(h.shape, f), f + k;
    AllocLow(h.shape, h'.shape, w, f, k, n);
    AllocSpan(h, h', w, f, k, n);
    assert End(h.shape, f) <= w.limit && Rewrites(h.shape, h'.shape, lo, hi) && ShapeOk(h'.shape);
    AllocBlocks(h, h', w, f, k, n);
    AllocMarks(h, h', f, k, n);
    hide IsAllocated; hide AllocWords; hide SpanOf; hide MarksPart; hide BlocksPart; hide Rewrites; hide ShapeOk;
    hide MarkedBut; hide OthersKept;
    RangeKept(h.shape, h'.shape, lo, hi, w.base, w.limit);
    SpanLists(h, h', w, w, lo, hi);
  }

  lemma AllocSpan(h: Heap, h': Heap, w: Bounds, f: nat, k: nat, n: nat)
    requires HeapOk(h, w) && FreeAt(h.shape, f) && h.loose == {f} && IsAllocated(h.shape, h'.shape, f, k, n)
        && AllocWords(h, h', f, k, n)
    ensures var lo, hi := if k > 0 then h.shape[f].prev else f, End(h.shape, f);
            SpanOf(h, h', lo, hi) && w.base <= lo
  {
    var lo, hi := if k > 0 then h.shape[f].prev else f, End(h.shape, f);
    AllocLow(h.shape, h'.shape, w, f, k, n);
    hide ListPart; hide MarksPart; hide BlocksPart;
    AllocLoose(h, h', f, k, n);
    assert Framed(h.shape, lo, hi) && Agree(h.shape, h'.shape, lo, hi);
    hide Rewrites; hide Framed; hide Agree; hide SameBeyond; hide Kept; hide Within; hide FreeAt;
  }

  lemma AllocLow(s: Shape, s': Shape, w: Bounds, f: nat, k: nat, n: nat)
    requires FreeAt(s, f) && IsAllocated(s, s', f, k, n) && InRange(s, w.base, w.limit)
    ensures w.base <= if k > 0 then s[f].prev else f
  {
    var lo := if k > 0 then s[f].prev else f;
    assert lo in s;
    assert End(s, lo) <= w.limit;
    hide Rewrites;
  }

  /* Which regions of the span are free. */
  lemma AllocLoose(h: Heap, h': Heap, f: nat, k: nat, n: nat)
    requires FreeAt(h.shape, f) && h.loose == {f} && IsAllocated(h.shape, h'.shape, f, k, n)
        && AllocWords(h, h', f, k, n)
    ensures var lo, hi := if k > 0 then h.shape[f].prev else f, End(h.shape, f);
      && (forall q: nat {:trigger Within(q, lo, hi)} | Within(q, lo, hi) && q in h.shape && h.shape[q].kind == Free ::
           q in h.loose)
      && (forall q: nat {:trigger Within(q, lo, hi)} | Within(q, lo, hi) && q in h'.shape && h'.shape[q].kind == Free ::
           q in h'.loose)
      && (forall q: nat {:trigger Within(q, lo, hi)} | q in h.loose :: Within(q, lo, hi))
      && (forall q: nat {:trigger Within(q, lo, hi)} | q in h'.loose ::
           Within(q, lo, hi) && q in h'.shape && h'.shape[q].kind == Free)
  {
    LooseBefore(h, h', f, k, n);
    LooseAfter(h, h', f, k, n);
    hide *;
  }

  lemma LooseBefore(h: Heap, h': Heap, f: nat, k: nat, n: nat)
    requires FreeAt(h.shape, f) && h.loose == {f} && IsAllocated(h.shape, h'.shape, f, k, n)
    ensures var lo, hi := if k > 0 then h.shape[f].prev else f, End(h.shape, f);
      && (forall q: nat {:trigger Within(q, lo, hi)} | Within(q, lo, hi) && q in h.shape && h.shape[q].kind == Free ::
           q in h.loose)
      && (forall q: nat {:trigger Within(q, lo, hi)} | q in h.loose :: Within(q, lo, hi))
  {
    AllocPlace(h.shape, h'.shape, f, k, n);
    hide Rewrites; hide SameBeyond; hide Kept;
  }

  lemma LooseAfter(h: Heap, h': Heap, f: nat, k: nat, n: nat)
    requires FreeAt(h.shape, f) && h.loose == {f} && IsAllocated(h.shape, h'.shape, f, k, n)
        && AllocWords(h, h', f, k, n)
    ensures var lo, hi := if k > 0 then h.shape[f].prev else f, End(h.shape, f);
      && (forall q: nat {:trigger Within(q, lo, hi)} | Within(q, lo, hi) && q in h'.shape && h'.shape[q].kind == Free ::
           q in h'.loose)
      && (forall q: nat {:trigger Within(q, lo, hi)} | q in h'.loose ::
           Within(q, lo, hi) && q in h'.shape && h'.shape[q].kind == Free)
  {
    AllocPlace(h.shape, h'.shape, f, k, n);
    hide Rewrites; hide SameBeyond; hide Kept;
  }

  lemma AllocPlace(s: Shape, s': Shape, f: nat, k: nat, n: nat)
    requires FreeAt(s, f) && IsAllocated(s, s', f, k, n)
    ensures f < End(s, f) && (Splits(End(s, f) - (f + k), n) ==> f + k + n < End(s, f))
  {
    assert RegOk(s, f);
  }

  lemma AllocBlocks(h: Heap, h': Heap, w: Bounds, f: nat, k: nat, n: nat)
    requires HeapOk(h, w) && FreeAt(h.shape, f) && IsAllocated(h.shape, h'.shape, f, k, n) && AllocWords(h, h', f, k, n)
    requires SpanOf(h, h', if k > 0 then h.shape[f].prev else f, End(h.shape, f))
    ensures BlocksPart(h'.mem, h'.shape, h'.blocks)
  {
    BlocksTouched(h, h', f, k, n);
    assert BlocksPart(h.mem, h.shape, h.blocks) && ShapeOk(h.shape) && h'.blocks == h.blocks;
    hide *;
    SpanBlocks(h, h', if k > 0 then h.shape[f].prev else f, End(h.shape, f));
  }

  /* Roots and sentinels of the span stay. */
  lemma BlocksTouched(h: Heap, h': Heap, f: nat, k: nat, n: nat)
    requires FreeAt(h.shape, f) && IsAllocated(h.shape, h'.shape, f, k, n) && AllocWords(h, h', f, k, n)
    ensures var lo, hi := if k > 0 then h.shape[f].prev else f, End(h.shape, f);
            forall q: nat {:trigger Within(q, lo, hi)} | Within(q, lo, hi) ::
              && (q in h.shape && h.shape[q].kind == Root <==> q in h'.shape && h'.shape[q].kind == Root)
              && (q in h.shape && h.shape[q].kind == Sentinel ==> q in h'.shape && h'.shape[q].kind == Sentinel)
              && (q in h.shape && h.shape[q].kind == Root ==> Kept(h.shape, h.mem, h'.mem, q))
  {
    hide Rewrites;
  }

  lemma AllocMarks(h: Heap, h': Heap, f: nat, k: nat, n: nat)
    requires ShapeOk(h.shape) && MarksPart(h.mem, h.shape) && FreeAt(h.shape, f)
        && IsAllocated(h.shape, h'.shape, f, k, n) && AllocWords(h, h', f, k, n)
    requires SpanOf(h, h', if k > 0 then h.shape[f].prev else f, End(h.shape, f))
    ensures MarkedBut(h'.mem, h'.shape, f + k) && OthersKept(h.shape, h'.shape, h.mem, h'.mem, f + k)
  {
    var lo, hi, p := if k > 0 then h.shape[f].prev else f, End(h.shape, f), f + k;
    forall q | q in h'.shape && q != p ensures Marked(h'.mem, h'.shape, q) {
      if !Within(q, lo, hi) {
        assert Agree(h.shape, h'.shape, lo, hi);
        assert Marked(h.mem, h.shape, q);
        SpanMark(h, h', q, lo, hi);
      } else {
        AllocMark(h, h', f, k, n, q);
      }
    }
    AllocOthers(h, h', f, k, n);
  }

  /* The marks of the regions of the span: the one before, if it has grown, and the free rest. */
  lemma AllocMark(h: Heap, h': Heap, f: nat, k: nat, n: nat, q: nat)
    requires FreeAt(h.shape, f) && IsAllocated(h.shape, h'.shape, f, k, n) && AllocWords(h, h', f, k, n)
        && q in h'.shape && q != f + k
    requires Within(q, if k > 0 then h.shape[f].prev else f, End(h.shape, f))
    ensures Marked(h'.mem, h'.shape, q)
  {
    var lo := if k > 0 then h.shape[f].prev else f;
    if q == lo {
      GrownMark(h, h', f, k, n);
    } else {
      assert q == f + k + n;
      RestMark(h, h', f, k, n);
    }
  }

  lemma GrownMark(h: Heap, h': Heap, f: nat, k: nat, n: nat)
    requires FreeAt(h.shape, f) && IsAllocated(h.shape, h'.shape, f, k, n) && AllocWords(h, h', f, k, n) && k > 0
    ensures Marked(h'.mem, h'.shape, h.shape[f].prev)
  {
    var lo := h.shape[f].prev;
    assert RegOk(h'.shape, lo);
    MarkedBy(h'.mem, h'.shape, lo, f + k);
  }

  lemma RestMark(h: Heap, h': Heap, f: nat, k: nat, n: nat)
    requires FreeAt(h.shape, f) && IsAllocated(h.shape, h'.shape, f, k, n) && AllocWords(h, h', f, k, n)
        && Splits(End(h.shape, f) - (f + k), n)
    ensures f + k + n in h'.shape && Marked(h'.mem, h'.shape, f + k + n)
  {
    AllocRegion(h.shape, h'.shape, f, k, n);
    MarkedBy(h'.mem, h'.shape, f + k + n, End(h.shape, f));
  }

  lemma MarkedBy(m: Mem, s: Shape, q: nat, e: nat)
    requires q in s && s[q].size >= 4 && End(s, q) == e && Word(m, q) == e - q
        && Word(m, e - 4) == e - q + if s[q].kind == Free then 1 else 0
    ensures Marked(m, s, q)
  {}

  lemma AllocOthers(h: Heap, h': Heap, f: nat, k: nat, n: nat)
    requires FreeAt(h.shape, f) && IsAllocated(h.shape, h'.shape, f, k, n) && AllocWords(h, h', f, k, n)
    requires SpanOf(h, h', if k > 0 then h.shape[f].prev else f, End(h.shape, f))
    ensures OthersKept(h.shape, h'.shape, h.mem, h'.mem, f + k)
  {
    var lo, hi, p := if k > 0 then h.shape[f].prev else f, End(h.shape, f), f + k;
    forall q: nat | InUse(h.shape, q) && q != p
      ensures Kept(h.shape, h.mem, h'.mem, q) && InUse(h'.shape, q) && h'.shape[q].kind == h.shape[q].kind
      && End(h.shape, q) <= End(h'.shape, q) {
      if !Within(q, lo, hi) { SpanMark(h, h', q, lo, hi); }
    }
  }

  lemma AllocLive(s: Shape, s': Shape, f: nat, k: nat, n: nat)
    requires FreeAt(s, f) && IsAllocated(s, s', f, k, n) && n > 0
    ensures LiveGrown(LiveOf(s), LiveOf(s'), f + k) && n <= LiveOf(s')[f + k] < n + REGION_SIZE && s' != map[]
  {
    var lo, hi, p := if k > 0 then s[f].prev else f, End(s, f), f + k;
    hide Rewrites;
    assert Agree(s, s', lo, hi) && Framed(s, lo, hi) by { assert Rewrites(s, s', lo, hi); }
    assert Within(p, lo, hi) && Within(f, lo, hi);
    forall q ensures q in LiveOf(s') <==> q in LiveOf(s) || q == p { assert Within(q, lo, hi) || !Within(q, lo, hi); }
    forall q | q in LiveOf(s) ensures LiveOf(s)[q] <= LiveOf(s')[q] { assert Within(q, lo, hi) || !Within(q, lo, hi); }
  }

  /* The marks of p are written last. */
  lemma MarkLast(h: Heap, h': Heap, w: Bounds, p: nat)
    requires ListPart(h, w) && BlocksPart(h.mem, h.shape, h.blocks) && MarkedBut(h.mem, h.shape, p) && p in h.shape
        && h.shape[p].kind == Used
    requires h' == h.(mem := h'.mem) && h.shape[p].size >= 4
        && h'.mem == h.mem[p := h.shape[p].size][End(h.shape, p) - 4 := h.shape[p].size]
    ensures HeapOk(h', w) && OthersKept(h.shape, h'.shape, h.mem, h'.mem, p)
  {
    MarkLists(h, h', w, p);
    hide ListsOk; hide LinksOk;
    forall q | q in h'.shape ensures Marked(h'.mem, h'.shape, q) {
      if q != p {
        assert Marked(h.mem, h.shape, q);
        MarkAway(h, h', p, q);
      }
    }
    MarkBlocks(h, h', p);
    hide BlocksPart; hide ListPart; hide Marked;
    forall q: nat | InUse(h.shape, q) && q != p ensures Kept(h.shape, h.mem, h'.mem, q) { MarkAway(h, h', p, q); }
  }

  /* The marks of p are not those of another region, and not in its payload. */
  lemma MarkAway(h: Heap, h': Heap, p: nat, q: nat)
    requires ShapeOk(h.shape) && p in h.shape && q in h.shape && q != p
    requires h.shape[p].size >= 4 && h'.mem == h.mem[p := h.shape[p].size][End(h.shape, p) - 4 := h.shape[p].size]
    ensures (Marked(h.mem, h.shape, q) ==> Marked(h'.mem, h.shape, q)) && Kept(h.shape, h.mem, h'.mem, q)
    ensures Word(h'.mem, q) == Word(h.mem, q) && Word(h'.mem, q + 4) == Word(h.mem, q + 4)
        && Word(h'.mem, q + 8) == Word(h.mem, q + 8)
  {
    Disjoint(h.shape, q, p);
    hide ShapeOk;
  }

  lemma MarkLists(h: Heap, h': Heap, w: Bounds, p: nat)
    requires ListPart(h, w) && p in h.shape && h.shape[p].kind == Used
    requires h' == h.(mem := h'.mem) && h.shape[p].size >= 4
        && h'.mem == h.mem[p := h.shape[p].size][End(h.shape, p) - 4 := h.shape[p].size]
    ensures ListPart(h', w)
  {
    var l := ListedOf(h.shape, h.loose);
    forall x | x in l ensures Word(h'.mem, x + 4) == Word(h.mem, x + 4) && Word(h'.mem, x + 8) == Word(h.mem, x + 8) {
      MarkAway(h, h', p, x);
    }
    assert End(h.shape, p) <= w.limit && RegOk(h.shape, p);
    hide ShapeOk; hide RegOk; hide MaskOk;
    LinksKept(h.mem, h'.mem, h.rings, l, w.heads);
  }

  lemma MarkBlocks(h: Heap, h': Heap, p: nat)
    requires ShapeOk(h.shape) && BlocksPart(h.mem, h.shape, h.blocks) && p in h.shape && h.shape[p].kind == Used
    requires h' == h.(mem := h'.mem) && h.shape[p].size >= 4
        && h'.mem == h.mem[p := h.shape[p].size][End(h.shape, p) - 4 := h.shape[p].size]
    ensures BlocksPart(h'.mem, h'.shape, h'.blocks)
  {
    hide ShapeOk;
    forall i: nat | i < |h.blocks| ensures BlockOk(h'.mem, h'.shape, h'.blocks, i) {
      assert BlockOk(h.mem, h.shape, h.blocks, i);
      MarkAway(h, h', p, h.blocks[i].start);
    }
  }

  lemma StepKeepsMarkedBut(h: Heap, h': Heap, p: nat)
    requires ListStep(h, h') && MarkedBut(h.mem, h.shape, p)
    ensures MarkedBut(h'.mem, h'.shape, p)
  {
    forall q | q in h'.shape && q != p ensures Marked(h'.mem, h'.shape, q) { assert Marked(h.mem, h.shape, q); }
  }

  /* Memory after the boundary between b and f has moved up by k bytes. */
  function BumpedMem(m: Mem, b: nat, bsize: nat, f: nat, fsize: nat, k: nat): Mem
    requires k <= fsize && b + bsize + k >= 4
  {
    if k == 0 then m else m[b := bsize + k][b + bsize + k - 4 := bsize + k][f + k := fsize - k]
  }

  lemma AllocRegion(s: Shape, s': Shape, f: nat, k: nat, n: nat)
    requires FreeAt(s, f) && IsAllocated(s, s', f, k, n)
    ensures var p, hi := f + k, End(s, f);
      && p in s' && s'[p].kind == Used && p + n <= hi && End(s', p) == (if Splits(hi - p, n) then p + n else hi)
      && (Splits(hi - p, n) ==>
           p + n in s' && s'[p + n].kind == Free && s'[p + n].size == hi - (p + n) >= REGION_SIZE && Quad(hi - (p + n)))
           && ShapeOk(s')
  {
    if Splits(End(s, f) - (f + k), n) { assert RegOk(s', f + k + n); }
  }

  /* The writes of attempt_allocate are what AllocWords says. */
  lemma AllocWrites(h: Heap, m: Mem, f: nat, k: nat, n: nat, s': Shape)
    requires ShapeOk(h.shape) && MarksPart(h.mem, h.shape) && FreeAt(h.shape, f) && Quad(k) && n >= REGION_SIZE
        && f + k + n <= End(h.shape, f)
    requires var b := h.shape[f].prev;
        b in h.shape && b + h.shape[b].size == f && h.shape[b].size >= REGION_SIZE
        && m == BumpedMem(h.mem, b, h.shape[b].size, f, h.shape[f].size, k)
    ensures var hi, p := End(h.shape, f), f + k; Word(m, p) == hi - p
    ensures var hi, p := End(h.shape, f), f + k;
      if Splits(hi - p, n) then
        AllocWords(h, h.(mem := m[p + n := hi - (p + n)][hi - 4 := hi - (p + n) + 1], shape := s', loose := {p + n}), f,
        k, n)
      else AllocWords(h, h.(mem := m, shape := s', loose := {}), f, k, n)
  {
    assert Marked(h.mem, h.shape, f);
    QuadGap(k + 16);
    hide MarksPart; hide ShapeOk; hide Quad;
    if k > 0 {
      BumpWords(h, m, f, k);
      if Splits(End(h.shape, f) - (f + k), n) { BumpSplitWords(h, m, f, k, n, s'); }
    }
  }

  lemma BumpWords(h: Heap, m: Mem, f: nat, k: nat)
    requires f in h.shape && 4 <= k <= h.shape[f].size
    requires var b := h.shape[f].prev;
        b in h.shape && b + h.shape[b].size == f && h.shape[b].size >= REGION_SIZE
        && m == BumpedMem(h.mem, b, h.shape[b].size, f, h.shape[f].size, k)
    ensures var b, p := h.shape[f].prev, f + k;
      Word(m, p) == End(h.shape, f) - p && Word(m, b) == p - b && Word(m, p - 4) == p - b
        && SameBeyond(h.mem, m, b, p + 4) && Kept(h.shape, h.mem, m, b)
  {}

  lemma BumpSplitWords(h: Heap, m: Mem, f: nat, k: nat, n: nat, s': Shape)
    requires f in h.shape && 4 <= k && n >= REGION_SIZE && f + k + n + REGION_SIZE <= End(h.shape, f)
    requires h.shape[f].prev in h.shape && h.shape[f].prev + h.shape[h.shape[f].prev].size == f
        && h.shape[h.shape[f].prev].size >= REGION_SIZE
    requires var b, p := h.shape[f].prev, f + k;
        Word(m, b) == p - b && Word(m, p - 4) == p - b && SameBeyond(h.mem, m, b, p + 4) && Kept(h.shape, h.mem, m, b)
    ensures var hi, p := End(h.shape, f), f + k;
      AllocWords(h, h.(mem := m[p + n := hi - (p + n)][hi - 4 := hi - (p + n) + 1], shape := s', loose := {p + n}), f,
        k, n)
  {
    var b, hi, p := h.shape[f].prev, End(h.shape, f), f + k;
    var m' := m[p + n := hi - (p + n)][hi - 4 := hi - (p + n) + 1];
    forall a: nat | b + 4 <= a && a + 4 < End(h.shape, b) ensures Word(m', a) == Word(h.mem, a) {
      assert Word(m, a) == Word(h.mem, a);
    }
    forall a: nat | a < b || hi <= a ensures Word(m', a) == Word(h.mem, a) { assert Word(m, a) == Word(h.mem, a); }
  }

  lemma FreedSize(s: Shape, s': Shape, p: nat)
    requires p in s && IsFreed(s, s', p)
    ensures FreeEnd(s, p) - FreeStart(s, p) >= REGION_SIZE && Quad(FreeEnd(s, p) - FreeStart(s, p))
  {
    assert RegOk(s', FreeStart(s, p));
  }

  /* Every allocation besides p keeps its payload, and at least its size. */
  ghost predicate PayloadsKept(s: Shape, s': Shape, m: Mem, m': Mem, p: nat) {
    forall q: nat {:trigger Kept(s, m, m', q)} | q in LiveOf(s) && q != p :: Kept(s, m, m', q) && q in LiveOf(s')
      && LiveOf(s)[q] <= LiveOf(s')[q]
  }

  lemma PayloadsFrom(s: Shape, s': Shape, m: Mem, m': Mem, p: nat, x: nat)
    requires OthersKept(s, s', m, m', x) && (x == p || x !in LiveOf(s))
    ensures PayloadsKept(s, s', m, m', p)
  {
    forall q: nat | q in LiveOf(s) && q != p
      ensures Kept(s, m, m', q) && q in LiveOf(s') && LiveOf(s)[q] <= LiveOf(s')[q] {
      assert InUse(s, q) && Kept(s, m, m', q);
    }
  }

  lemma PayloadsTwice(s: Shape, s1: Shape, s2: Shape, m: Mem, m1: Mem, m2: Mem, p: nat)
    requires PayloadsKept(s, s1, m, m1, p) && PayloadsKept(s1, s2, m1, m2, p)
    ensures PayloadsKept(s, s2, m, m2, p)
  {
    forall q: nat | q in LiveOf(s) && q != p
      ensures Kept(s, m, m2, q) && q in LiveOf(s2) && LiveOf(s)[q] <= LiveOf(s2)[q] {
      assert Kept(s, m, m1, q) && Kept(s1, m1, m2, q);
      KeptTwice(s, s1, m, m1, m2, q);
    }
  }

  lemma PayloadsSame(s: Shape, m: Mem)
    ensures PayloadsKept(s, s, m, m, 0)
  {}

  lemma PayloadsAny(s: Shape, s': Shape, m: Mem, m': Mem, p: nat)
    requires PayloadsKept(s, s', m, m', 0) && ShapeOk(s)
    ensures PayloadsKept(s, s', m, m', p)
  {
    assert 0 in s ==> RegOk(s, 0);
    forall q: nat | q in LiveOf(s) && q != p ensures Kept(s, m, m', q) { assert q != 0 ==> Kept(s, m, m', q); }
  }
}
