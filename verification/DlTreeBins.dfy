/** The treebins of malloc_state and the operations on them, as dlmalloc writes them: walks along
    mutable cursors and updates of single links. */
module DlTreeBins {
  import opened Words
  import opened DlBinMap
  import opened DlChunk
  import opened DlTreeIndex
  import opened DlTrie
  import opened DlForest
  import opened DlTreeLinks
  import opened DlTreeSearch
  import opened Rings

  /* The head words of all binned chunks hold their sizes. */
  ghost predicate HeadsHold(heads: map<Ptr, Head>, sizes: map<Ptr, nat>) {
    forall x | x in sizes :: x in heads && heads[x].size == sizes[x]
  }

  class TreeBins {
    var treemap: BinMap
    var treebins: seq<Ptr>
    var fd: map<Ptr, Ptr>
    var bk: map<Ptr, Ptr>
    var node: map<Ptr, TNode>
    ghost var forest: Forest

    ghost function View(): Tree reads this { Tree(treemap, treebins, node) }

    ghost predicate Valid() reads this {
      && ForestOk(forest)
      && TreeDrawn(View(), forest.rings)
      && RingsDrawn(fd, bk, forest.rings)
    }

    /* The abstract contents: every binned chunk with its size. */
    ghost function Sizes(): map<Ptr, nat> reads this { forest.sizes }

    constructor ()
      ensures Valid() && Sizes() == map[]
    {
      treemap, treebins := 0, seq(NTREEBINS, _ => 0);
      fd, bk, node := map[], map[], map[];
      forest := Forest(map[], map[], map[]);
      new;
      EmptyMap(treemap);
    }

    /* `*H = X; X->parent = H; X->fd = X->bk = X` */
    method PlantRoot(i: nat, x: Ptr, s: nat)
      requires Valid() && x != 0 && x !in Sizes() && i < NTREEBINS
      requires Root(i) !in forest.rings && Fits(s, Root(i)) && SizeFree(forest, s)
      modifies this
      ensures Valid() && Sizes() == old(Sizes())[x := s]
    {
      ghost var g, v := forest, View();
      ForestApart(g);
      treemap := MarkBin(treemap, i);
      treebins := treebins[i := x];
      node := node[x := TNode(0, 0, Bin(i), i)];
      RingsAddSingle(fd, bk, g.rings, Root(i), x);
      fd, bk := fd[x := x], bk[x := x];
      LinkRootDraws(v, g.rings, i, x);
      AddNodeOk(g, Root(i), x, s);
      forest := AddNode(g, Root(i), x, s);
    }

    /* `*C = X; X->parent = T; X->fd = X->bk = X` */
    method PlantLeaf(t: Ptr, c: bool, x: Ptr, i: nat, s: nat, ghost p: Pos)
      requires Valid() && x != 0 && x !in Sizes() && t in node
      requires p in forest.rings && t == HeadAt(forest.rings, p) && i == p.bin && p.Child(c) !in forest.rings
      requires p.Child(c).Ok() && Fits(s, p.Child(c)) && SizeFree(forest, s)
      modifies this
      ensures Valid() && Sizes() == old(Sizes())[x := s]
    {
      hide Fits;
      ghost var g, v := forest, View();
      ForestApart(g);
      node := node[t := node[t].SetChild(c, x)];
      node := node[x := TNode(0, 0, Node(t), i)];
      RingsAddSingle(fd, bk, g.rings, p.Child(c), x);
      fd, bk := fd[x := x], bk[x := x];
      LinkLeafDraws(v, g.rings, p, c, x);
      ChildIs(p, c, p.Child(c));
      AddNodeOk(g, p.Child(c), x, s);
      forest := AddNode(g, p.Child(c), x, s);
    }

    /* `T->fd = F->bk = X; X->fd = F; X->bk = T; X->parent = 0` */
    method JoinRing(t: Ptr, x: Ptr, i: nat, s: nat, ghost p: Pos)
      requires Valid() && x != 0 && x !in Sizes() && t in fd
      requires p in forest.rings && t == HeadAt(forest.rings, p) && i == p.bin && t in Sizes() && Sizes()[t] == s
      modifies this
      ensures Valid() && Sizes() == old(Sizes())[x := s]
    {
      ghost var g, v := forest, View();
      ForestApart(g);
      RingsInsert(fd, bk, g.rings, p, x);
      var f := fd[t];
      fd, bk := fd[t := x], bk[f := x];
      fd, bk := fd[x := f], bk[x := t];
      node := node[x := TNode(0, 0, NoParent, i)];
      LinkRingDraws(v, g.rings, p, x);
      AddToRingOk(g, p, x, s);
      forest := AddToRing(g, p, x, s);
    }

    /* insert_large_chunk */
    method InsertLarge(heads: map<Ptr, Head>, x: Ptr, s: nat)
      requires Valid() && HeadsHold(heads, Sizes())
      requires x != 0 && x !in Sizes() && MIN_LARGE_SIZE <= s < W32
      modifies this
      ensures Valid() && Sizes() == old(Sizes())[x := s]
    {
      hide Fits; hide KeyAt;
      var i := TreeIndex(s);
      StartAtRoot(forest, s);
      RootKey(s);
      assert BinDrawn(View(), forest.rings, i);
      if !Marked(treemap, i) {
        AbsentHead(forest, Root(i));
        PlantRoot(i, x, s);
        return;
      }
      var t, k := treebins[i], Shl32(s, LeftShift(i));
      ghost var p := Root(i);
      while true
        invariant Valid() && Sizes() == old(Sizes())
        invariant p in forest.rings && t == HeadAt(forest.rings, p) && p.bin == i
        invariant p.Ok() && Fits(s, p) && OnlyBelow(forest, s, p) && KeyAt(k, s, p)
        decreases UnresolvedBits(i) - |p.bits|
      {
        AtNode(p);
        if heads[t].size != s {
          DescendFor(forest, p, s, k);
          var c := TopBit(k);
          k := Shl32(k, 1);
          var child := node[t].Child(c);
          AbsentHead(forest, p.Child(c));
          if child != 0 {
            t, p := child, p.Child(c);
          } else {
            PlantLeaf(t, c, x, i, s, p);
            return;
          }
        } else {
          JoinRing(t, x, i, s, p);
          return;
        }
      }
    }

    /* `F->bk = R; R->fd = F`: X leaves its ring; R, its predecessor, is returned. */
    method LeaveRing(x: Ptr, ghost p: Pos, ghost n: nat) returns (r: Ptr)
      requires Valid() && p in forest.rings && n < |forest.rings[p]| && forest.rings[p][n] == x
      requires |forest.rings[p]| > 1
      requires x in fd && x in bk
      modifies `fd, `bk, `forest
      ensures r == old(bk[x]) && forest == old(TakeFromRing(forest, p, n))
      ensures ForestOk(forest) && RingsDrawn(fd, bk, forest.rings)
    {
      ghost var g := forest;
      ForestApart(g);
      RingsRemove(fd, bk, g.rings, p, n);
      TakeFromRingOk(g, p, n);
      var f := fd[x];
      r := bk[x];
      bk := bk[f := r];
      fd := fd[r := f];
      forest := TakeFromRing(g, p, n);
    }

    /* The walk to a leaf below X, right child first, that unlink_large_chunk takes for R; the
       link to it is cleared. */
    method CutLeaf(x: Ptr, ghost p: Pos) returns (r: Ptr, ghost q: Pos)
      requires Valid() && p in forest.rings && x == HeadAt(forest.rings, p)
      modifies `node
      ensures q in forest.rings && p.Above(q) && IsLeafAt(forest.rings, q)
      ensures p == q ==> r == 0 && node == old(node)
      ensures p != q ==> && r == HeadAt(forest.rings, q)
                         && HeadAt(forest.rings, q.Up()) in old(node)
                         && View() == Cut(old(View()), HeadAt(forest.rings, q.Up()), Last(q))
    {
      AtNode(p);
      q := p;
      var rp, side := x, node[x].right != 0;
      r := node[x].Child(side);
      Children(p);
      if r == 0 {
        return;
      }
      q := p.Child(side);
      AtNode(q);
      while node[r].right != 0 || node[r].left != 0
        invariant Valid() && forest == old(forest) && node == old(node) && View() == old(View())
        invariant q in forest.rings && p.Above(q) && p != q && r == HeadAt(forest.rings, q) && r != 0
        invariant q.bits != [] && rp == HeadAt(forest.rings, q.Up()) && side == Last(q) && q.Up() in forest.rings
        invariant r in node && node[r] == NodeOf(forest.rings, q) && q.Ok()
        decreases UnresolvedBits(p.bin) - |q.bits|
      {
        rp, side := r, node[r].right != 0;
        r := node[r].Child(side);
        Children(q);
        q := q.Child(side);
        AtNode(q);
      }
      AtNode(q.Up());
      Children(q);
      node := node[rp := node[rp].SetChild(side, 0)];
    }

    /* The end of unlink_large_chunk: X's parent, or its treebin, and X's children are relinked
       to R. */
    method Relink(x: Ptr, r: Ptr)
      requires CanRelink(View(), x, r)
      modifies `treemap, `treebins, `node
      ensures View() == Replace(old(View()), x, r)
    {
      var xp, i := node[x].parent, node[x].index;
      if treebins[i] == x {
        treebins := treebins[i := r];
        if r == 0 { treemap := ClearBin(treemap, i); }
      } else if node[xp.p].left == x {
        node := node[xp.p := node[xp.p].SetChild(false, r)];
      } else {
        node := node[xp.p := node[xp.p].SetChild(true, r)];
      }
      if r != 0 {
        node := node[r := node[r].(parent := xp)];
        var c0 := node[x].left;
        if c0 != 0 {
          node := node[r := node[r].SetChild(false, c0)];
          node := node[c0 := node[c0].(parent := Node(r))];
        }
        var c1 := node[x].right;
        if c1 != 0 {
          node := node[r := node[r].SetChild(true, c1)];
          node := node[c1 := node[c1].(parent := Node(r))];
        }
      }
    }

    /* unlink_large_chunk */
    method UnlinkLarge(x: Ptr)
      requires Valid() && x in Sizes()
      modifies this
      ensures Valid() && Sizes() == old(Sizes()) - {x}
    {
      hide Fits;
      ghost var g, v, p := forest, View(), forest.home[x];
      ForestApart(g);
      assert HomeOk(g, x) && LevelOk(g, p);
      ghost var n :| 0 <= n < |g.rings[p]| && g.rings[p][n] == x;
      AtMember(p, n);
      var xp := node[x].parent;
      var r: Ptr;
      if bk[x] != x {
        r := LeaveRing(x, p, n);
        if xp != NoParent {
          HeadRelinks(v, g.rings, p);
          Relink(x, r);
        } else {
          WithoutMembers(g.rings[p], n);
          ThinnerDraws(v, g.rings, p, forest.rings[p]);
        }
      } else {
        ghost var q: Pos;
        r, q := CutLeaf(x, p);
        if p == q { LeafRelinks(v, g.rings, p); } else { NodeRelinks(v, g.rings, p, q); }
        Relink(x, r);
        TakeNodeOk(g, p, q);
        forest := TakeNode(g, p, q);
      }
    }

    /* The first walk of tmalloc_large, along the bits of nb.  It returns the best fit on the way
       and the subtree t (at q) where the search goes on. */
    method WalkBits(heads: map<Ptr, Head>, nb: nat) returns (t: Ptr, v: Ptr, rsize: nat, ghost q: Pos)
      requires Valid() && HeadsHold(heads, Sizes()) && MIN_LARGE_SIZE <= nb < W32
      ensures TreeIndex(nb) < NTREEBINS && rsize < W32 && Partial(forest, nb, v, rsize)
      ensures if t == 0 == v then forall y | y in forest.home && y in Sizes() && Sizes()[y] >= nb ::
          forest.home[y].bin > TreeIndex(nb)
              else Covers(forest, nb, rsize, t, q)
    {
      hide Fits; hide KeyAt; hide In; hide Covers; hide WalkCovers; hide Pos.Ok;
      hide TreeDrawn; hide RingsDrawn; hide ForestOk; hide TreeIndex; hide TopBit; hide Seen; hide OnlyBelow;
      ghost var g := forest;
      v, rsize := 0, Sub32(0, nb);
      var idx := TreeIndex(nb);
      StartAtRoot(g, nb);
      RootKey(nb);
      AtRoot(idx);
      t, q := treebins[idx], Root(idx);
      ghost var p, r := q, q;
      WalkStarts(g, nb, rsize, idx);
      if t == 0 {
        NoneInBin(g, nb, p, r);
        return;
      }
      var sizebits, rst := Shl32(nb, LeftShift(idx)), 0;
      while true
        invariant p in g.rings && t == HeadAt(g.rings, p) && p.bin == idx && p.Ok() && Fits(nb, p)
            && KeyAt(sizebits, nb, p)
        invariant 0 < rsize < W32 && Partial(g, nb, v, rsize) && (v != 0 ==> v in g.home && g.home[v].bin == idx)
        invariant WalkCovers(g, nb, rsize, p, rst, r)
        decreases UnresolvedBits(idx) - |p.bits|
      {
        AtNode(p);
        Visit(g, nb, v, rsize, t);
        var trem := Sub32(heads[t].size, nb);
        if trem < rsize {
          WalkShrinks(g, nb, rsize, trem, p, rst, r);
          HeadFacts(g, p);
          v, rsize := t, trem;
          if trem == 0 {
            ExactCovers(g, nb, t, p);
            q := p;
            return;
          }
        }
        ghost var c, rst0, r0 := TopBit(sizebits), rst, r;
        StepBits(g, nb, p, sizebits, rsize);
        Children(p);
        var rt := node[t].right;
        t := node[t].Child(TopBit(sizebits));
        if rt != 0 && rt != t {
          rst, r := rt, p.Child(true);
        }
        DistinctChildren(g, p);
        WalkStep(g, nb, rsize, p, rst0, r0, c, rst, r);
        p := p.Child(c);
        if t == 0 {
          t, q := rst, r;
          if rst == 0 == v { NoneInBin(g, nb, p, r); } else { WalkDone(g, nb, rsize, p, rst, r, v); }
          return;
        }
        sizebits := Shl32(sizebits, 1);
      }
    }

    /* The search of tmalloc_large: v is the best fitting binned chunk for a large request nb and
       rsize what it leaves over; v is null iff no binned chunk is large enough. */
    method FindLarge(heads: map<Ptr, Head>, nb: nat) returns (v: Ptr, rsize: nat)
      requires Valid() && HeadsHold(heads, Sizes()) && MIN_LARGE_SIZE <= nb < W32
      ensures BestFit(Sizes(), nb, v, rsize)
    {
      hide Fits; hide Covers;
      ghost var g, q := forest, Root(0);
      var t: Ptr;
      t, v, rsize, q := WalkBits(heads, nb);
      if t == 0 && v == 0 {
        t, q := NextBin(nb, rsize);
      }
      while t != 0
        invariant rsize < W32 && Partial(g, nb, v, rsize) && Covers(g, nb, rsize, t, q)
        decreases if t == 0 then 0 else 1 + UnresolvedOf(q) - |q.bits|
      {
        CursorAt(g, nb, rsize, t, q);
        AtNode(q);
        Visit(g, nb, v, rsize, t);
        var trem := Sub32(heads[t].size, nb);
        if trem < rsize {
          CoverShrinks(g, nb, rsize, trem, t, q);
          rsize, v := trem, t;
        }
        Children(q);
        var b := node[t].left == 0;
        LeftmostStep(g, nb, rsize, q, b);
        t := node[t].Child(b);
        if t != 0 { q := q.Child(b); AtNode(q); }
      }
      CoveredBest(g, nb, v, rsize, q);
    }

    /* The search of tmalloc_small: v is the smallest binned chunk there is, for a request nb that
       any of them fits. */
    method FindSmall(heads: map<Ptr, Head>, nb: nat) returns (v: Ptr, rsize: nat)
      requires Valid() && HeadsHold(heads, Sizes()) && treemap != 0 && 0 < nb < MIN_LARGE_SIZE
      ensures v != 0 && BestFit(Sizes(), nb, v, rsize)
    {
      hide Fits; hide Covers; hide TreeDrawn; hide RingsDrawn; hide ForestOk;
      ghost var g := forest;
      FirstOccupied();
      var i := Bit2Idx(LeastBit(treemap));
      var t := treebins[i];
      ghost var q := Root(i);
      FirstFit(g, nb, i);
      AtNode(q);
      Visit(g, nb, 0, W32 - nb, t);
      StartInBin(g, nb, Sub32(heads[t].size, nb), i);
      v, rsize := t, Sub32(heads[t].size, nb);
      while true
        invariant t != 0 && v != 0 && rsize < W32 && Partial(g, nb, v, rsize) && Covers(g, nb, rsize, t, q)
            && t in g.sizes && Seen(g, nb, rsize, t)
        decreases 1 + UnresolvedOf(q) - |q.bits|
      {
        CursorAt(g, nb, rsize, t, q);
        AtNode(q);
        Children(q);
        var b := node[t].left == 0;
        LeftmostStep(g, nb, rsize, q, b);
        t := node[t].Child(b);
        if t == 0 { break; }
        q := q.Child(b);
        AtNode(q);
        Visit(g, nb, v, rsize, t);
        var trem := Sub32(heads[t].size, nb);
        if trem < rsize {
          CoverShrinks(g, nb, rsize, trem, t, q);
          rsize, v := trem, t;
        }
      }
      CoveredBest(g, nb, v, rsize, q);
    }

    lemma FirstOccupied()
      requires Valid() && treemap != 0
      ensures |treebins| == NTREEBINS && LeastBit(treemap) > 0
      ensures var i := Bit2Idx(LeastBit(treemap));
              && i < NTREEBINS && treebins[i] == HeadAt(forest.rings, Root(i)) && Root(i) in forest.rings
              && forall j | 0 <= j < i :: Root(j) !in forest.rings
    {
      hide TreeDrawn; hide RingsDrawn; hide ForestOk; hide LeastBit; hide Bit2Idx; hide Marked;
      forall j | 0 <= j < NTREEBINS ensures Marked(treemap, j) <==> Root(j) in forest.rings { AtRoot(j); }
      LeastMarked(treemap);
      AtRoot(Bit2Idx(LeastBit(treemap)));
    }

    lemma NoTrees()
      requires Valid() && treemap == 0
      ensures Sizes() == map[]
    {
      EmptyMap(treemap);
      forall x | x in Sizes() ensures false {
        assert HomeOk(forest, x);
        assert LevelOk(forest, forest.home[x]) && ChunkOk(forest, forest.home[x], x);
        StartAtRoot(forest, Sizes()[x]);
        AtRoot(TreeIndex(Sizes()[x]));
      }
    }

    /* The search goes on in the next bin whose bit is set in the treemap. */
    method NextBin(nb: nat, ghost rsize: nat) returns (t: Ptr, ghost q: Pos)
      requires Valid() && MIN_LARGE_SIZE <= nb < W32 && TreeIndex(nb) < NTREEBINS
      requires forall y | y in forest.home && y in Sizes() && Sizes()[y] >= nb :: forest.home[y].bin > TreeIndex(nb)
      ensures Covers(forest, nb, rsize, t, q)
    {
      hide TreeDrawn; hide RingsDrawn; hide Fits; hide TreeIndex; hide LeftOf; hide LeastBit; hide Bit2Idx; hide Covers;
      hide Marked; hide ForestOk;
      t, q := 0, Root(0);
      var idx := TreeIndex(nb);
      var leftbits := LeftOf(treemap, idx);
      NextOccupied(idx);
      if leftbits != 0 {
        LeastMarked(leftbits);
        var i := Bit2Idx(LeastBit(leftbits));
        t, q := treebins[i], Root(i);
        LaterFit(forest, nb, idx, i);
        StartInBin(forest, nb, rsize, i);
      } else {
        NoneLater(forest, nb, rsize, idx);
      }
    }

    lemma AtRoot(i: nat)
      requires Valid() && i < NTREEBINS
      ensures |treebins| == NTREEBINS && treebins[i] == HeadAt(forest.rings, Root(i))
      ensures (Marked(treemap, i) <==> treebins[i] != 0) && (treebins[i] != 0 <==> Root(i) in forest.rings)
    {
      assert BinDrawn(View(), forest.rings, i);
      AbsentHead(forest, Root(i));
    }

    /* The bits left of idx are those of the occupied later bins, and the least of them is found. */
    lemma NextOccupied(idx: nat)
      requires Valid() && idx < NTREEBINS
      ensures |treebins| == NTREEBINS
      ensures LeftOf(treemap, idx) == 0 ==> forall j | idx < j < NTREEBINS :: Root(j) !in forest.rings
      ensures LeftOf(treemap, idx) != 0 ==>
        && LeastBit(LeftOf(treemap, idx)) > 0
        && var i := Bit2Idx(LeastBit(LeftOf(treemap, idx)));
           idx < i < NTREEBINS && treebins[i] == HeadAt(forest.rings, Root(i)) && Root(i) in forest.rings
           && forall j | idx < j < i :: Root(j) !in forest.rings
    {
      hide TreeDrawn; hide RingsDrawn; hide ForestOk; hide LeftOf; hide LeastBit; hide Bit2Idx; hide Marked;
      var m := LeftOf(treemap, idx);
      forall j | 0 <= j < NTREEBINS ensures Marked(m, j) <==> idx < j && Root(j) in forest.rings {
        LeftOfMeaning(treemap, idx, j);
        AtRoot(j);
      }
      EmptyMap(m);
      if m != 0 {
        LeastMarked(m);
        AtRoot(Bit2Idx(LeastBit(m)));
      }
      AtRoot(idx);
    }

    lemma Children(p: Pos)
      requires Valid() && p in forest.rings
      ensures forall b: bool :: HeadAt(forest.rings, p.Child(b)) != 0 <==> p.Child(b) in forest.rings
      ensures forall b: bool :: p.Child(b).Up() == p && Last(p.Child(b)) == b && p.Child(b) != p
    {
      forall b: bool ensures HeadAt(forest.rings, p.Child(b)) != 0 <==> p.Child(b) in forest.rings {
        AbsentHead(forest, p.Child(b));
      }
      ChildIs(p, false, p.Child(false));
      ChildIs(p, true, p.Child(true));
    }

    /* Chunk n of the ring at p: its links and its node. */
    lemma AtMember(p: Pos, n: nat)
      requires Valid() && p in forest.rings && n < |forest.rings[p]|
      ensures var x, r := forest.rings[p][n], forest.rings[p];
              && x in fd && x in bk && x in node && p.bin < NTREEBINS
              && fd[x] == r[After(n, |r|)] && bk[x] == r[Before(n, |r|)]
              && (bk[x] == x <==> |r| == 1)
              && (node[x].parent == NoParent <==> n > 0)
              && (n == 0 ==> node[x] == NodeOf(forest.rings, p))
    {
      hide Fits;
      assert LevelOk(forest, p) && LevelDrawn(View(), forest.rings, p);
      LinksOf(fd, bk, forest.rings[p], n);
      var x := forest.rings[p][n];
      assert n > 0 ==> Hangs(View(), x, p.bin);
    }

    /* The cursor's node is drawn where p says. */
    lemma AtNode(p: Pos)
      requires Valid() && p in forest.rings
      ensures var t := HeadAt(forest.rings, p);
              && t != 0 && t in Sizes() && t in fd && t in bk && t in node && node[t] == NodeOf(forest.rings, p)
      ensures p.Ok() && Fits(Sizes()[HeadAt(forest.rings, p)], p)
    {
      HeadFacts(forest, p);
      assert LevelDrawn(View(), forest.rings, p);
      LinksOf(fd, bk, forest.rings[p], 0);
    }
  }

  lemma AbsentHead(g: Forest, p: Pos)
    requires ForestOk(g)
    ensures HeadAt(g.rings, p) == 0 <==> p !in g.rings
  {
    if p in g.rings { HeadFacts(g, p); }
  }

  lemma DescendFor(g: Forest, p: Pos, s: nat, k: nat)
    requires ForestOk(g) && p in g.rings && p.Ok() && Fits(s, p) && OnlyBelow(g, s, p) && KeyAt(k, s, p)
    requires HeadAt(g.rings, p) in g.sizes && g.sizes[HeadAt(g.rings, p)] != s
    requires Fits(g.sizes[HeadAt(g.rings, p)], p)
    ensures |p.bits| < UnresolvedBits(p.bin)
    ensures var c := TopBit(k);
            && p.Child(c).Ok() && KeyAt(Shl32(k, 1), s, p.Child(c))
            && Fits(s, p.Child(c)) && OnlyBelow(g, s, p.Child(c))
            && (p.Child(c) !in g.rings ==> SizeFree(g, s))
  {
    hide Fits;
    BitLeft(p, s, g.sizes[HeadAt(g.rings, p)]);
    StepKey(k, s, p);
    KeyIn(Shl32(k, 1), s, p.Child(TopBit(k)));
    StepDown(g, p, s, TopBit(k));
  }

  lemma KeyIn(k: nat, s: nat, p: Pos)
    requires p.Ok() && KeyAt(k, s, p)
    ensures In(s, p)
  {}

  /* i is the first occupied bin after idx. */
  lemma LaterFit(g: Forest, nb: nat, idx: nat, i: nat)
    requires ForestOk(g) && idx < i < NTREEBINS && MIN_LARGE_SIZE <= nb < W32 && TreeIndex(nb) == idx
    requires forall y | y in g.home && y in g.sizes && g.sizes[y] >= nb :: g.home[y].bin > idx
    requires forall j | idx < j < i :: Root(j) !in g.rings
    ensures forall y | y in g.home && y in g.sizes && g.sizes[y] >= nb :: g.home[y].bin >= i
    ensures AllFit(g, nb, Root(i))
  {
    hide Fits; hide TreeIndex;
    StartAtRoot(g, nb);
    forall y | y in g.home && y in g.sizes
      ensures g.sizes[y] >= nb ==> g.home[y].bin >= i
      ensures g.home[y].bin == i ==> g.sizes[y] >= nb
    {
      WhereIs(g, y);
      OccupiedAbove(g, Root(g.home[y].bin), g.home[y]);
      if g.home[y].bin == i {
        FitsRoot(g.home[y], g.sizes[y]);
        HiRoot(idx, i, g.sizes[y]);
        BelowBounds(Root(idx), Root(idx), nb);
      }
    }
  }

  lemma NoneLater(g: Forest, nb: nat, rsize: nat, idx: nat)
    requires ForestOk(g) && idx < NTREEBINS
    requires forall y | y in g.home && y in g.sizes && g.sizes[y] >= nb :: g.home[y].bin > idx
    requires forall j | idx < j < NTREEBINS :: Root(j) !in g.rings
    ensures Covers(g, nb, rsize, 0, Root(0))
  {
    hide Fits;
    forall y | y in g.home && y in g.sizes ensures Seen(g, nb, rsize, y) {
      WhereIs(g, y);
      BinOk(g.home[y]);
      OccupiedAbove(g, Root(g.home[y].bin), g.home[y]);
    }
  }

  lemma BinOk(p: Pos)
    requires p.Ok()
    ensures p.bin < NTREEBINS
  {}

  lemma FirstFit(g: Forest, nb: nat, i: nat)
    requires ForestOk(g) && i < NTREEBINS && nb < MIN_LARGE_SIZE
    requires forall j | 0 <= j < i :: Root(j) !in g.rings
    ensures forall y | y in g.home && y in g.sizes && g.sizes[y] >= nb :: g.home[y].bin >= i
    ensures AllFit(g, nb, Root(i))
  {
    forall y | y in g.home && y in g.sizes ensures g.home[y].bin >= i && g.sizes[y] >= nb {
      WhereIs(g, y);
      OccupiedAbove(g, Root(g.home[y].bin), g.home[y]);
    }
  }

  function UnresolvedOf(q: Pos): int { if q.bin < NTREEBINS then UnresolvedBits(q.bin) else 0 }

  lemma StepBits(g: Forest, nb: nat, p: Pos, k: nat, rsize: nat)
    requires ForestOk(g) && p in g.rings && p.Ok() && Fits(nb, p) && KeyAt(k, nb, p)
    requires HeadAt(g.rings, p) in g.sizes && Fits(g.sizes[HeadAt(g.rings, p)], p)
    requires g.sizes[HeadAt(g.rings, p)] != nb
    ensures |p.bits| < UnresolvedBits(p.bin)
    ensures var c := TopBit(k);
        p.Child(c).Ok() && In(nb, p.Child(c)) && Fits(nb, p.Child(c)) && KeyAt(Shl32(k, 1), nb, p.Child(c))
  {
    hide Fits; hide In;
    BitLeft(p, nb, g.sizes[HeadAt(g.rings, p)]);
    StepKey(k, nb, p);
    KeyIn(Shl32(k, 1), nb, p.Child(TopBit(k)));
    FitsChild(p, TopBit(k), nb);
  }

  lemma DistinctChildren(g: Forest, p: Pos)
    requires ForestOk(g)
    ensures HeadAt(g.rings, p.Child(false)) == HeadAt(g.rings, p.Child(true)) ==> p.Child(true) !in g.rings
  {
    ForestApart(g);
    OneOwner(g.rings, p.Child(false), p.Child(true));
    Neighbours(p);
  }

  lemma CursorAt(g: Forest, nb: nat, rsize: nat, t: Ptr, q: Pos)
    requires Covers(g, nb, rsize, t, q) && t != 0
    ensures q in g.rings && t == HeadAt(g.rings, q) && q.Ok()
  {}
}
