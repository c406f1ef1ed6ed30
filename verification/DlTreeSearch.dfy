/** Why the two walks of tmalloc_large find the best fit.  While walking down along the bits of
    the request, every fitting chunk of the bin is no better than the best seen, or below the
    current node, or at or after the deepest untaken right subtree.  The leftmost walk that
    follows then keeps every fitting chunk covered in the same sense. */
module DlTreeSearch {
  import opened Words
  import opened DlChunk
  import opened DlTreeIndex
  import opened DlTrie
  import opened DlForest

  function Hi(p: Pos): nat
    requires p.Ok()
  {
    Lo(p) + Span(p)
  }

  /* y is in the subtree at q or larger than everything in it. */
  ghost predicate Beyond(g: Forest, q: Pos, y: Ptr)
    requires y in g.home && y in g.sizes && q.Ok()
  {
    q.Above(g.home[y]) || g.sizes[y] >= Hi(q)
  }

  ghost predicate Seen(g: Forest, nb: nat, rsize: int, y: Ptr)
    requires y in g.sizes
  {
    g.sizes[y] >= nb ==> rsize <= g.sizes[y] - nb
  }

  /* The invariant of the walk along the bits of nb, at position p; r is the untaken subtree. */
  ghost predicate WalkCovers(g: Forest, nb: nat, rsize: int, p: Pos, rst: Ptr, r: Pos) {
    && p.Ok() && r.Ok()
    && (rst != 0 ==> r in g.rings && rst == HeadAt(g.rings, r) && r.bin == p.bin && Hi(p) <= Lo(r))
    && forall y | y in g.home && y in g.sizes && g.home[y].bin == p.bin ::
         Seen(g, nb, rsize, y) || p.Above(g.home[y]) || (rst != 0 && Beyond(g, r, y))
  }

  ghost predicate AllFit(g: Forest, nb: nat, q: Pos) {
    forall y | y in g.home && y in g.sizes && q.Above(g.home[y]) :: g.sizes[y] >= nb
  }

  /* The invariant of the leftmost walk, with t at position q. */
  ghost predicate Covers(g: Forest, nb: nat, rsize: int, t: Ptr, q: Pos) {
    && q.Ok()
    && (t != 0 ==> q in g.rings && t == HeadAt(g.rings, q) && (rsize == 0 || AllFit(g, nb, q)))
    && forall y | y in g.home && y in g.sizes :: Seen(g, nb, rsize, y) || (t != 0 && Beyond(g, q, y))
  }

  lemma WhereIs(g: Forest, y: Ptr)
    requires ForestOk(g) && y in g.sizes
    ensures y in g.home && g.home[y] in g.rings && g.home[y].Ok() && Fits(g.sizes[y], g.home[y])
    ensures HeadAt(g.rings, g.home[y]) in g.sizes && g.sizes[HeadAt(g.rings, g.home[y])] == g.sizes[y]
  {
    hide Fits; hide Pos.Ok;
    assert HomeOk(g, y);
    assert LevelOk(g, g.home[y]) && ChunkOk(g, g.home[y], y);
    HeadFacts(g, g.home[y]);
  }

  /* A chunk below p is at p, below its left child or below its right child. */
  lemma Below(p: Pos, q: Pos)
    requires p.Above(q)
    ensures p == q || p.Child(false).Above(q) || p.Child(true).Above(q)
  {
    if p != q {
      var d := q.bits[|p.bits|];
      assert q.bits[..|p.bits| + 1] == p.bits + [d];
      assert p.Child(d).Above(q);
    }
  }

  lemma Halves(p: Pos)
    requires p.Ok() && |p.bits| < UnresolvedBits(p.bin)
    ensures p.Child(false).Ok() && p.Child(true).Ok()
    ensures Lo(p.Child(false)) == Lo(p) && Hi(p.Child(false)) == Lo(p.Child(true)) && Hi(p.Child(true)) == Hi(p)
  {
    ChildSplits(p, Lo(p));
  }

  lemma BelowBounds(p: Pos, q: Pos, s: nat)
    requires p.Ok() && q.Ok() && p.Above(q) && Fits(s, q)
    ensures Lo(p) <= s < Hi(p)
  {
    AboveContains(p, q, s);
  }

  /* One step of the walk along the bits of nb, from p to its child c. */
  lemma WalkStep(g: Forest, nb: nat, rsize: int, p: Pos, rst: Ptr, r: Pos, c: bool, rst': Ptr, r': Pos)
    requires ForestOk(g) && WalkCovers(g, nb, rsize, p, rst, r) && p in g.rings
    requires |p.bits| < UnresolvedBits(p.bin) && p.Child(c).Ok() && In(nb, p.Child(c))
    requires HeadAt(g.rings, p) in g.sizes && Seen(g, nb, rsize, HeadAt(g.rings, p))
    requires if !c && p.Child(true) in g.rings then r' == p.Child(true) && rst' == HeadAt(g.rings, r')
             else r' == r && rst' == rst
    ensures WalkCovers(g, nb, rsize, p.Child(c), rst', r')
  {
    hide Fits; hide In;
    Halves(p);
    assert rst' != 0 ==> Hi(p.Child(c)) <= Lo(r');
    forall y | y in g.home && y in g.sizes && g.home[y].bin == p.bin
      ensures Seen(g, nb, rsize, y) || p.Child(c).Above(g.home[y]) || (rst' != 0 && Beyond(g, r', y))
    {
      WalkStepFor(g, nb, rsize, p, rst, r, c, rst', r', y);
    }
    if rst' != 0 { HeadFacts(g, r'); }
  }

  lemma WalkStepFor(g: Forest, nb: nat, rsize: int, p: Pos, rst: Ptr, r: Pos, c: bool, rst': Ptr, r': Pos, y: Ptr)
    requires ForestOk(g) && WalkCovers(g, nb, rsize, p, rst, r) && p in g.rings
    requires |p.bits| < UnresolvedBits(p.bin) && p.Child(c).Ok() && In(nb, p.Child(c))
    requires HeadAt(g.rings, p) in g.sizes && Seen(g, nb, rsize, HeadAt(g.rings, p))
    requires if !c && p.Child(true) in g.rings then r' == p.Child(true) && rst' == HeadAt(g.rings, r')
             else r' == r && rst' == rst
    requires y in g.home && y in g.sizes && g.home[y].bin == p.bin
    ensures r'.Ok()
    ensures Seen(g, nb, rsize, y) || p.Child(c).Above(g.home[y]) || (rst' != 0 && Beyond(g, r', y))
  {
    hide Fits;
    Halves(p);
    WhereIs(g, y);
    if r' != r { HeadFacts(g, r'); }
    var q := g.home[y];
    if p.Above(q) {
      Below(p, q);
      if p.Child(!c).Above(q) {
        BelowBounds(p.Child(!c), q, g.sizes[y]);
        OccupiedAbove(g, p.Child(!c), q);
        HeadFacts(g, p.Child(!c));
      }
    } else if rst != 0 && r.Above(q) {
      BelowBounds(r, q, g.sizes[y]);
      assert g.sizes[y] >= Hi(p);
    } else if !Seen(g, nb, rsize, y) {
      assert rst != 0 && g.sizes[y] >= Hi(r) >= Lo(r) >= Hi(p);
    }
  }

  /* A step of the leftmost walk: left if there is a left child, else right. */
  lemma LeftmostStep(g: Forest, nb: nat, rsize: nat, q: Pos, b: bool)
    requires ForestOk(g) && q in g.rings && Covers(g, nb, rsize, HeadAt(g.rings, q), q)
    requires HeadAt(g.rings, q) in g.sizes && Seen(g, nb, rsize, HeadAt(g.rings, q))
    requires b <==> q.Child(false) !in g.rings
    ensures q.Child(b) in g.rings ==> Covers(g, nb, rsize, HeadAt(g.rings, q.Child(b)), q.Child(b))
    ensures q.Child(b) !in g.rings ==> Covers(g, nb, rsize, 0, q)
  {
    hide Fits;
    HeadFacts(g, q);
    BelowBounds(q, q, g.sizes[HeadAt(g.rings, q)]);
    if q.Child(b) in g.rings {
      HeadFacts(g, q.Child(b));
      assert LevelOk(g, q.Child(b));
      Halves(q);
    }
    forall y | y in g.home && y in g.sizes
      ensures Seen(g, nb, rsize, y) || (q.Child(b) in g.rings && Beyond(g, q.Child(b), y))
    {
      WhereIs(g, y);
      var r := g.home[y];
      if q.Above(r) {
        Below(q, r);
        if q.Child(!b).Above(r) {
          OccupiedAbove(g, q.Child(!b), r);
          OccupiedFit(g, q, b, y);
        } else if q.Child(b).Above(r) {
          OccupiedAbove(g, q.Child(b), r);
        }
      }
    }
  }

  lemma OccupiedFit(g: Forest, q: Pos, b: bool, y: Ptr)
    requires ForestOk(g) && q in g.rings && y in g.sizes && y in g.home && q.Child(!b).Above(g.home[y])
    requires q.Child(!b) in g.rings && (b <==> q.Child(false) !in g.rings)
    ensures q.Child(false).Ok() && g.sizes[y] >= Hi(q.Child(false)) && !b
  {
    hide Fits;
    assert LevelOk(g, q.Child(true)) && LevelOk(g, q.Child(false));
    WhereIs(g, y);
    Halves(q);
    BelowBounds(q.Child(true), g.home[y], g.sizes[y]);
  }

  /* ---- from one bin to the next ---- */

  lemma HiRootIs(i: nat)
    requires i < NTREEBINS - 1
    ensures Root(i).Ok() && Hi(Root(i)) == MinSize(i + 1)
  {
    MinSizeStep(i);
  }

  lemma HiRoot(i: nat, j: nat, s: nat)
    requires i < j < NTREEBINS && Fits(s, Root(j))
    ensures Root(i).Ok() && Hi(Root(i)) <= s
  {
    TreeIndexInterval(s);
    MinSizeMonotone(i + 1, j);
    HiRootIs(i);
    hide MinSize; hide Hi; hide TreeIndex;
  }

  lemma {:induction false} HiAbove(p: Pos)
    requires p.Ok()
    ensures Hi(p) <= Hi(Root(p.bin)) && Root(p.bin).Ok()
    decreases |p.bits|
  {
    if p.bits != [] {
      ChildIs(p.Up(), Last(p), p);
      Halves(p.Up());
      HiAbove(p.Up());
    }
  }

  /* A chunk of a later bin is larger than anything at p. */
  lemma LaterBin(g: Forest, p: Pos, y: Ptr)
    requires ForestOk(g) && p.Ok() && y in g.sizes && y in g.home && p.bin < g.home[y].bin
    ensures Hi(p) <= g.sizes[y]
  {
    WhereIs(g, y);
    FitsRoot(g.home[y], g.sizes[y]);
    HiRoot(p.bin, g.home[y].bin, g.sizes[y]);
    HiAbove(p);
  }

  lemma FitsRoot(q: Pos, s: nat)
    requires q.Ok() && Fits(s, q)
    ensures Fits(s, Root(q.bin))
  {
    AboveContains(Root(q.bin), q, s);
  }

  /* A chunk of an earlier bin is too small. */
  lemma EarlierBin(g: Forest, nb: nat, idx: nat, y: Ptr)
    requires ForestOk(g) && idx < NTREEBINS && Fits(nb, Root(idx)) && y in g.sizes && y in g.home && g.home[y].bin < idx
    ensures g.sizes[y] < nb
  {
    WhereIs(g, y);
    HiAbove(g.home[y]);
    BelowBounds(g.home[y], g.home[y], g.sizes[y]);
    HiRoot(g.home[y].bin, idx, nb);
  }

  /* The first walk ended without an exact fit; the second starts at the untaken subtree. */
  lemma WalkDone(g: Forest, nb: nat, rsize: nat, p: Pos, rst: Ptr, r: Pos, v: Ptr)
    requires ForestOk(g) && WalkCovers(g, nb, rsize, p, rst, r) && Fits(nb, p) && p !in g.rings
    requires v != 0 ==> v in g.sizes && g.sizes[v] == nb + rsize && v in g.home && g.home[v].bin == p.bin
    requires rst != 0 || v != 0
    ensures Covers(g, nb, rsize, rst, r)
  {
    hide Fits;
    forall y | y in g.home && y in g.sizes
      ensures Seen(g, nb, rsize, y) || (rst != 0 && Beyond(g, r, y))
    {
      WhereIs(g, y);
      if g.home[y].bin == p.bin {
        if p.Above(g.home[y]) { OccupiedAbove(g, p, g.home[y]); }
      } else if g.home[y].bin < p.bin {
        FitsRoot(p, nb);
        EarlierBin(g, nb, p.bin, y);
      } else if rst != 0 {
        LaterBin(g, r, y);
      } else {
        WhereIs(g, v);
        LaterBin(g, g.home[v], y);
        BelowBounds(g.home[v], g.home[v], g.sizes[v]);
      }
    }
    if rst != 0 {
      BelowBounds(p, p, nb);
      forall y | y in g.home && y in g.sizes && r.Above(g.home[y]) ensures g.sizes[y] >= nb {
        WhereIs(g, y);
        BelowBounds(r, g.home[y], g.sizes[y]);
      }
    }
  }

  /* Nothing in bin idx fits: every fitting chunk is in a later bin. */
  lemma NoneInBin(g: Forest, nb: nat, p: Pos, r: Pos)
    requires ForestOk(g) && WalkCovers(g, nb, W32 - nb, p, 0, r) && Fits(nb, p) && p !in g.rings
    ensures forall y | y in g.home && y in g.sizes && g.sizes[y] >= nb :: g.home[y].bin > p.bin
  {
    hide Fits;
    forall y | y in g.home && y in g.sizes && g.sizes[y] >= nb ensures g.home[y].bin > p.bin {
      WhereIs(g, y);
      if g.home[y].bin == p.bin {
        if p.Above(g.home[y]) { OccupiedAbove(g, p, g.home[y]); }
        SizeBound(g.sizes[y], g.home[y]);
      } else if g.home[y].bin < p.bin {
        FitsRoot(p, nb);
        EarlierBin(g, nb, p.bin, y);
      }
    }
  }

  lemma SizeBound(s: nat, p: Pos)
    requires p.Ok() && Fits(s, p)
    ensures s < W32
  {}

  /* The search goes on at the root of the first occupied bin after idx. */
  lemma StartInBin(g: Forest, nb: nat, rsize: nat, i: nat)
    requires ForestOk(g) && i < NTREEBINS && Root(i) in g.rings
    requires forall y | y in g.home && y in g.sizes && g.sizes[y] >= nb :: g.home[y].bin >= i
    requires AllFit(g, nb, Root(i))
    ensures Covers(g, nb, rsize, HeadAt(g.rings, Root(i)), Root(i))
  {
    hide Fits;
    HeadFacts(g, Root(i));
    forall y | y in g.home && y in g.sizes ensures Seen(g, nb, rsize, y) || Beyond(g, Root(i), y) {
      if g.sizes[y] >= nb && g.home[y].bin > i { LaterBin(g, Root(i), y); }
    }
  }

  /* ---- the best seen so far ---- */

  /* v fits with remainder rsize; before any fit is seen, rsize is the unsigned -nb. */
  ghost predicate Partial(g: Forest, nb: nat, v: Ptr, rsize: nat) {
    if v == 0 then rsize == W32 - nb
    else v in g.sizes && g.sizes[v] == nb + rsize && rsize < W32 - nb
  }

  ghost predicate BestFit(sizes: map<Ptr, nat>, nb: nat, v: Ptr, rsize: nat) {
    if v == 0 then forall y | y in sizes :: sizes[y] < nb
    else v in sizes && sizes[v] == nb + rsize && forall y | y in sizes && sizes[y] >= nb :: sizes[v] <= sizes[y]
  }

  /* The unsigned remainder of a chunk too small for the request never beats rsize. */
  lemma Visit(g: Forest, nb: nat, v: Ptr, rsize: nat, t: Ptr)
    requires ForestOk(g) && Partial(g, nb, v, rsize) && t in g.sizes && 0 < nb < W32 && rsize < W32
    ensures t != 0 && g.sizes[t] < W32
    ensures var trem := Sub32(g.sizes[t], nb);
            if trem < rsize then Partial(g, nb, t, trem) && Seen(g, nb, trem, t) else Seen(g, nb, rsize, t)
  {
    WhereIs(g, t);
    HomeHasChunk(g, t);
    SizeBound(g.sizes[t], g.home[t]);
  }

  lemma HomeHasChunk(g: Forest, t: Ptr)
    requires ForestOk(g) && t in g.sizes
    ensures t != 0
  {
    hide Fits; hide Pos.Ok;
    assert HomeOk(g, t);
    assert LevelOk(g, g.home[t]) && ChunkOk(g, g.home[t], t);
  }

  lemma WalkStarts(g: Forest, nb: nat, rsize: nat, i: nat)
    requires i < NTREEBINS
    ensures WalkCovers(g, nb, rsize, Root(i), 0, Root(i))
  {}

  lemma WalkShrinks(g: Forest, nb: nat, rsize: nat, rsize': nat, p: Pos, rst: Ptr, r: Pos)
    requires WalkCovers(g, nb, rsize, p, rst, r) && rsize' <= rsize
    ensures WalkCovers(g, nb, rsize', p, rst, r)
  {
    hide Lo; hide Span;
    forall y | y in g.home && y in g.sizes && g.home[y].bin == p.bin
      ensures Seen(g, nb, rsize', y) || p.Above(g.home[y]) || (rst != 0 && Beyond(g, r, y))
    {
      assert Seen(g, nb, rsize, y) ==> Seen(g, nb, rsize', y);
    }
  }

  lemma CoverShrinks(g: Forest, nb: nat, rsize: nat, rsize': nat, t: Ptr, q: Pos)
    requires Covers(g, nb, rsize, t, q) && rsize' <= rsize && (rsize == 0 ==> rsize' == 0)
    ensures Covers(g, nb, rsize', t, q)
  {
    hide Lo; hide Span;
    forall y | y in g.home && y in g.sizes
      ensures Seen(g, nb, rsize', y) || (t != 0 && Beyond(g, q, y))
    {
      assert Seen(g, nb, rsize, y) ==> Seen(g, nb, rsize', y);
    }
  }

  /* An exact fit covers everything. */
  lemma ExactCovers(g: Forest, nb: nat, t: Ptr, p: Pos)
    requires p in g.rings && p.Ok() && t == HeadAt(g.rings, p)
    ensures Covers(g, nb, 0, t, p)
  {}

  /* When the leftmost walk runs out, the best seen is the best there is. */
  lemma CoveredBest(g: Forest, nb: nat, v: Ptr, rsize: nat, q: Pos)
    requires ForestOk(g) && Partial(g, nb, v, rsize) && Covers(g, nb, rsize, 0, q) && nb < W32
    ensures BestFit(g.sizes, nb, v, rsize)
  {
    hide Lo; hide Span; hide Fits;
    forall y | y in g.sizes ensures Seen(g, nb, rsize, y) && g.sizes[y] < W32 {
      assert HomeOk(g, y);
      WhereIs(g, y);
      SizeBound(g.sizes[y], g.home[y]);
    }
  }
}
