/** How emmalloc's regions lie in memory.  Each block obtained from the system is tiled by regions from
    its root region to its end sentinel; the elementary changes below keep that. */
module EmShape {

  const REGION_SIZE: nat := 16
  const REGION_HEADER_SIZE: nat := 8

  datatype Kind = Root | Used | Free | Sentinel

  /** A region; `prev` is the region before it, of which a root has none. */
  datatype Reg = Reg(size: nat, kind: Kind, prev: nat)

  type Shape = map<nat, Reg>

  function End(s: Shape, p: nat): nat { if p in s then p + s[p].size else p }

  predicate Quad(x: nat) { x % 4 == 0 }

  lemma QuadSum(a: nat, b: nat)
    requires Quad(a) && Quad(b)
    ensures Quad(a + b) && (a >= b ==> Quad(a - b))
  {}

  ghost predicate RegOk(s: Shape, p: nat)
    requires p in s
  {
    var r, n := s[p], End(s, p);
    && Quad(p) && Quad(r.size) && r.size >= REGION_SIZE && p > 0
    && (r.kind != Sentinel ==> n in s && s[n].prev == p && s[n].kind != Root)
    && (r.kind != Root ==> r.prev in s && End(s, r.prev) == p && s[r.prev].kind != Sentinel)
    && (r.kind == Free ==> n in s && s[n].kind != Free)
    && (r.kind == Sentinel ==> r.size == REGION_SIZE)
  }

  predicate Clear(s: Shape, p: nat, q: nat) { End(s, p) <= q }

  ghost predicate AllRegs(s: Shape) { forall p {:trigger RegOk(s, p)} | p in s :: RegOk(s, p) }

  ghost predicate NoOverlap(s: Shape) {
    forall p, q {:trigger Clear(s, p, q)} | p in s && q in s && p < q :: Clear(s, p, q)
  }

  ghost predicate ShapeOk(s: Shape) { AllRegs(s) && NoOverlap(s) }

  /* Everything lies from lo up to hi. */
  ghost predicate InRange(s: Shape, lo: nat, hi: nat) {
    forall p {:trigger End(s, p)} | p in s :: lo <= p && End(s, p) <= hi
  }

  /* ---- geometry ---- */

  lemma SameEnd(s: Shape, p: nat, q: nat)
    requires ShapeOk(s) && p in s && q in s && End(s, p) == End(s, q)
    ensures p == q
  {
    assert RegOk(s, p) && RegOk(s, q);
    assert p < q ==> Clear(s, p, q);
    assert q < p ==> Clear(s, q, p);
  }

  /* Inside a region no other begins or ends. */
  lemma Inside(s: Shape, p: nat, x: nat)
    requires ShapeOk(s) && p in s && p < x < End(s, p)
    ensures x !in s && forall q | q in s :: End(s, q) != x
  {
    assert RegOk(s, p);
    assert x in s ==> Clear(s, p, x);
    forall q | q in s ensures End(s, q) != x {
      assert RegOk(s, q);
      assert p < q ==> Clear(s, p, q);
      assert q < p ==> Clear(s, q, p);
    }
  }

  /* Two regions are apart. */
  lemma Disjoint(s: Shape, p: nat, q: nat)
    requires ShapeOk(s) && p in s && q in s && p != q
    ensures End(s, p) <= q || End(s, q) <= p
    ensures p + REGION_SIZE <= End(s, p) && q + REGION_SIZE <= End(s, q)
  {
    assert RegOk(s, p) && RegOk(s, q);
    assert p < q ==> Clear(s, p, q);
    assert q < p ==> Clear(s, q, p);
  }

  /* Never two free regions side by side. */
  lemma NoFreeNeighbours(s: Shape, p: nat)
    requires ShapeOk(s) && p in s && s[p].kind == Free
    ensures s[p].prev in s && s[s[p].prev].kind != Free && s[s[p].prev].kind != Sentinel && End(s, s[p].prev) == p
    ensures End(s, p) in s && s[End(s, p)].kind != Free && s[End(s, p)].kind != Root && s[End(s, p)].prev == p
  {
    assert RegOk(s, p) && RegOk(s, s[p].prev);
  }

  /* ---- elementary changes ---- */

  /* A free region is put to use. */
  function Use(s: Shape, p: nat): Shape
    requires p in s
  {
    s[p := s[p].(kind := Used)]
  }

  lemma UseOk(s: Shape, p: nat)
    requires ShapeOk(s) && p in s && s[p].kind == Free
    ensures ShapeOk(Use(s, p))
  {
    var s' := Use(s, p);
    hide Quad;
    forall q | q in s' ensures RegOk(s', q) { assert RegOk(s, q); }
    forall q, r | q in s' && r in s' && q < r ensures Clear(s', q, r) { assert Clear(s, q, r); }
  }

  /* A used region between regions that are not free becomes free. */
  function Release(s: Shape, p: nat): Shape
    requires p in s
  {
    s[p := s[p].(kind := Free)]
  }

  ghost predicate CanRelease(s: Shape, p: nat) {
    ShapeOk(s) && p in s && s[p].kind == Used && End(s, p) in s && s[End(s, p)].kind != Free && s[p].prev in s
      && s[s[p].prev].kind != Free
  }

  lemma ReleaseOk(s: Shape, p: nat)
    requires CanRelease(s, p)
    ensures ShapeOk(Release(s, p))
  {
    var s' := Release(s, p);
    hide Quad;
    forall q | q in s' ensures RegOk(s', q) {
      assert RegOk(s, q) && RegOk(s, p);
      if End(s, q) == p { SameEnd(s, q, s[p].prev); }
    }
    forall q, r | q in s' && r in s' && q < r ensures Clear(s', q, r) { assert Clear(s, q, r); }
  }

  /* p takes in the used region after it. */
  function Join(s: Shape, p: nat): Shape
    requires CanJoin(s, p)
  {
    assert RegOk(s, p) && RegOk(s, End(s, p));
    var q, n := End(s, p), End(s, End(s, p));
    (s - {q})[p := s[p].(size := s[p].size + s[q].size)][n := s[n].(prev := p)]
  }

  ghost predicate CanJoin(s: Shape, p: nat) {
    ShapeOk(s) && p in s && (s[p].kind == Used || s[p].kind == Root) && End(s, p) in s && s[End(s, p)].kind == Used
  }

  lemma JoinOk(s: Shape, p: nat)
    requires CanJoin(s, p)
    ensures ShapeOk(Join(s, p))
  {
    forall x | x in Join(s, p) ensures RegOk(Join(s, p), x) { JoinReg(s, p, x); }
    forall x, y | x in Join(s, p) && y in Join(s, p) && x < y ensures Clear(Join(s, p), x, y) { JoinClear(s, p, x, y); }
  }

  lemma JoinReg(s: Shape, p: nat, x: nat)
    requires CanJoin(s, p) && x in Join(s, p)
    ensures RegOk(Join(s, p), x)
  {
    var q, n := End(s, p), End(s, End(s, p));
    assert RegOk(s, p) && RegOk(s, q) && RegOk(s, n) && RegOk(s, x);
    QuadSum(s[p].size, s[q].size);
    if x != p && End(s, x) == q { SameEnd(s, x, p); }
    if x != q && End(s, x) == n { SameEnd(s, x, q); }
    if s[x].prev in s { assert RegOk(s, s[x].prev); }
    hide Quad; hide AllRegs; hide NoOverlap;
  }

  lemma JoinClear(s: Shape, p: nat, x: nat, y: nat)
    requires CanJoin(s, p) && x in Join(s, p) && y in Join(s, p) && x < y
    ensures Clear(Join(s, p), x, y)
  {
    var q := End(s, p);
    assert RegOk(s, p) && RegOk(s, q);
    assert Clear(s, x, y);
    assert q < y ==> Clear(s, q, y);
    hide AllRegs; hide NoOverlap; hide Quad;
  }

  /* A used region is cut in two. */
  function Split(s: Shape, p: nat, k: nat): Shape
    requires CanSplit(s, p, k)
  {
    assert RegOk(s, p);
    var r, n := p + k, End(s, p);
    s[p := s[p].(size := k)][r := Reg(s[p].size - k, Used, p)][n := s[n].(prev := r)]
  }

  ghost predicate CanSplit(s: Shape, p: nat, k: nat) {
    ShapeOk(s) && p in s && s[p].kind == Used && Quad(k) && REGION_SIZE <= k && k + REGION_SIZE <= s[p].size
  }

  lemma SplitOk(s: Shape, p: nat, k: nat)
    requires CanSplit(s, p, k)
    ensures ShapeOk(Split(s, p, k)) && p + k !in s
  {
    Inside(s, p, p + k);
    forall x | x in Split(s, p, k) ensures RegOk(Split(s, p, k), x) { SplitReg(s, p, k, x); }
    forall x, y | x in Split(s, p, k) && y in Split(s, p, k) && x < y ensures Clear(Split(s, p, k), x, y) {
      SplitClear(s, p, k, x, y);
    }
  }

  lemma SplitReg(s: Shape, p: nat, k: nat, x: nat)
    requires CanSplit(s, p, k) && x in Split(s, p, k) && p + k !in s && forall q | q in s :: End(s, q) != p + k
    ensures RegOk(Split(s, p, k), x)
  {
    var n := End(s, p);
    assert RegOk(s, p) && RegOk(s, n);
    QuadSum(p, k);
    QuadSum(s[p].size, k);
    if x in s {
      assert RegOk(s, x);
      if x != p && End(s, x) == n { SameEnd(s, x, p); }
      if s[x].prev in s { assert RegOk(s, s[x].prev); }
    }
    hide Quad; hide AllRegs; hide NoOverlap;
  }

  lemma SplitClear(s: Shape, p: nat, k: nat, x: nat, y: nat)
    requires CanSplit(s, p, k) && x in Split(s, p, k) && y in Split(s, p, k) && x < y && p + k !in s
    ensures Clear(Split(s, p, k), x, y)
  {
    var n := End(s, p);
    assert RegOk(s, p);
    assert x in s && y in s ==> Clear(s, x, y);
    assert y in s && p < y ==> Clear(s, p, y);
    assert x in s && x < p ==> Clear(s, x, p);
    assert x in s && p < x ==> Clear(s, p, x);
    hide AllRegs; hide NoOverlap; hide Quad;
  }

  /* The boundary between p and the used region after it moves up by k bytes. */
  function Shift(s: Shape, p: nat, k: nat): Shape
    requires CanShift(s, p, k)
  {
    assert RegOk(s, p) && RegOk(s, End(s, p));
    var q, n := End(s, p), End(s, End(s, p));
    (s - {q})[p := s[p].(size := s[p].size + k)][q + k := Reg(s[q].size - k, Used, p)][n := s[n].(prev := q + k)]
  }

  ghost predicate CanShift(s: Shape, p: nat, k: nat) {
    CanJoin(s, p) && Quad(k) && 0 < k && k + REGION_SIZE <= s[End(s, p)].size
  }

  lemma ShiftOk(s: Shape, p: nat, k: nat)
    requires CanShift(s, p, k)
    ensures ShapeOk(Shift(s, p, k)) && End(s, p) + k !in s
  {
    assert RegOk(s, p) && RegOk(s, End(s, p));
    Inside(s, End(s, p), End(s, p) + k);
    forall x | x in Shift(s, p, k) ensures RegOk(Shift(s, p, k), x) { ShiftReg(s, p, k, x); }
    forall x, y | x in Shift(s, p, k) && y in Shift(s, p, k) && x < y ensures Clear(Shift(s, p, k), x, y) {
      ShiftClear(s, p, k, x, y);
    }
  }

  lemma ShiftReg(s: Shape, p: nat, k: nat, x: nat)
    requires CanShift(s, p, k) && x in Shift(s, p, k) && End(s, p) + k !in s && forall q | q in s ::
        End(s, q) != End(s, p) + k
    ensures RegOk(Shift(s, p, k), x)
  {
    var q, n := End(s, p), End(s, End(s, p));
    if x == p || x == q + k || x == n {
      assert RegOk(s, p) && RegOk(s, q) && RegOk(s, n);
      QuadSum(s[p].size, k);
      QuadSum(q, k);
      QuadSum(s[q].size, k);
      if n == x { SameEnds(s, p, x); }
      hide Quad; hide AllRegs; hide NoOverlap;
    } else {
      ShiftOther(s, p, k, x);
    }
  }

  /* The next region of x is not p, nor the one after p. */
  lemma SameEnds(s: Shape, p: nat, x: nat)
    requires ShapeOk(s) && p in s && x in s && End(s, p) in s && End(s, End(s, p)) == x
    ensures x != p && x != End(s, p) && End(s, x) != End(s, p) && End(s, x) != x
  {
    assert RegOk(s, p) && RegOk(s, End(s, p)) && RegOk(s, x);
  }

  lemma ShiftOther(s: Shape, p: nat, k: nat, x: nat)
    requires CanShift(s, p, k) && x in Shift(s, p, k) && End(s, p) + k !in s && x != p && x != End(s, p) + k
        && x != End(s, End(s, p))
    ensures RegOk(Shift(s, p, k), x)
  {
    var q, n := End(s, p), End(s, End(s, p));
    assert RegOk(s, x) && RegOk(s, p) && RegOk(s, q);
    if End(s, x) == q { SameEnd(s, x, p); }
    if End(s, x) == n { SameEnd(s, x, q); }
    if s[x].prev in s { assert RegOk(s, s[x].prev); }
    hide Quad; hide AllRegs; hide NoOverlap;
  }

  lemma ShiftClear(s: Shape, p: nat, k: nat, x: nat, y: nat)
    requires CanShift(s, p, k) && x in Shift(s, p, k) && y in Shift(s, p, k) && x < y && End(s, p) + k !in s
    ensures Clear(Shift(s, p, k), x, y)
  {
    var q := End(s, p);
    assert RegOk(s, p) && RegOk(s, q);
    assert x in s && y in s ==> Clear(s, x, y);
    assert y in s && q < y ==> Clear(s, q, y);
    assert y in s && p < y ==> Clear(s, p, y);
    assert x in s && x < q ==> Clear(s, x, q);
    assert x in s && q < x ==> Clear(s, q, x);
    hide AllRegs; hide NoOverlap; hide Quad;
  }

  /* The end sentinel t becomes a used region that reaches to a new sentinel, the block being extended to `end`. */
  function Extend(s: Shape, t: nat, end: nat): Shape
    requires t in s && end >= t + 2 * REGION_SIZE
  {
    s[t := Reg(end - REGION_SIZE - t, Used, s[t].prev)][end - REGION_SIZE := Reg(REGION_SIZE, Sentinel, t)]
  }

  ghost predicate CanExtend(s: Shape, t: nat, end: nat) {
    && ShapeOk(s) && t in s && s[t].kind == Sentinel && Quad(end) && end >= t + 2 * REGION_SIZE
    && forall p {:trigger End(s, p)} | p in s :: End(s, p) <= End(s, t)
  }

  lemma ExtendOk(s: Shape, t: nat, end: nat)
    requires CanExtend(s, t, end)
    ensures ShapeOk(Extend(s, t, end)) && end - REGION_SIZE !in s
  {
    var s', e: nat := Extend(s, t, end), end - REGION_SIZE;
    assert RegOk(s, t);
    assert e in s ==> RegOk(s, e);
    assert End(s, e) <= End(s, t) || e !in s;
    QuadSum(end, REGION_SIZE);
    QuadSum(e, t);
    forall x | x in s' ensures RegOk(s', x) { ExtendReg(s, t, end, x); }
    forall x, y | x in s' && y in s' && x < y ensures Clear(s', x, y) {
      assert x in s && y in s ==> Clear(s, x, y);
      if x in s { assert RegOk(s, x) && End(s, x) <= End(s, t); }
      if y in s { assert RegOk(s, y) && End(s, y) <= End(s, t); }
    }
  }

  lemma ExtendReg(s: Shape, t: nat, end: nat, x: nat)
    requires CanExtend(s, t, end) && x in Extend(s, t, end) && Quad(end - REGION_SIZE) && Quad(end - REGION_SIZE - t)
        && end - REGION_SIZE !in s
    ensures RegOk(Extend(s, t, end), x)
  {
    assert RegOk(s, t);
    if x in s {
      assert RegOk(s, x) && End(s, x) <= End(s, t);
      if s[x].prev in s { assert RegOk(s, s[x].prev); }
    }
    hide Quad; hide AllRegs; hide NoOverlap;
  }

  /* A new block from start to end: its root region, one used region, and its end sentinel. */
  function NewBlock(s: Shape, start: nat, end: nat): Shape
    requires end >= start + 3 * REGION_SIZE
  {
    var p, e := start + REGION_SIZE, end - REGION_SIZE;
    s[start := Reg(REGION_SIZE, Root, 0)][p := Reg(e - p, Used, start)][e := Reg(REGION_SIZE, Sentinel, p)]
  }

  ghost predicate CanAdd(s: Shape, start: nat, end: nat) {
    && ShapeOk(s) && Quad(start) && Quad(end) && start > 0 && end >= start + 3 * REGION_SIZE
    && forall p {:trigger End(s, p)} | p in s :: End(s, p) <= start
  }

  lemma NewBlockOk(s: Shape, start: nat, end: nat)
    requires CanAdd(s, start, end)
    ensures ShapeOk(NewBlock(s, start, end))
    ensures start !in s && start + REGION_SIZE !in s && end - REGION_SIZE !in s
  {
    var s', p, e := NewBlock(s, start, end), start + REGION_SIZE, end - REGION_SIZE;
    assert Quad(REGION_SIZE);
    QuadSum(start, REGION_SIZE);
    QuadSum(end, REGION_SIZE);
    QuadSum(e, p);
    forall x | x in s ensures x < start { assert RegOk(s, x) && End(s, x) <= start; }
    hide Quad;
    forall x | x in s' ensures RegOk(s', x) {
      if x in s { NewBlockReg(s, start, end, x); }
    }
    forall x, y | x in s' && y in s' && x < y ensures Clear(s', x, y) {
      assert x in s && y in s ==> Clear(s, x, y);
      if x in s { assert End(s, x) <= start; }
    }
  }

  lemma NewBlockReg(s: Shape, start: nat, end: nat, x: nat)
    requires CanAdd(s, start, end) && x in s && (forall y | y in s :: y < start)
    ensures RegOk(NewBlock(s, start, end), x)
  {
    assert RegOk(s, x);
    hide Quad; hide AllRegs; hide NoOverlap;
  }
}
