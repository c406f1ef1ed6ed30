/** How the shape of the treebins is drawn in memory: the fd/bk links of the same-size rings,
    the child and parent links of the tree nodes, the treebins array and the treemap.  A drawing
    is determined by the shape, so each update of links below is proved to draw the shape that
    results from the matching change in DlForest. */
module DlTreeLinks {
  import opened Words
  import opened DlChunk
  import opened DlBinMap
  import opened DlTreeIndex
  import opened DlTrie
  import opened DlForest
  import opened Rings

  /* A tree node's parent: another node, the address of its treebin, or null for a chunk that only
     hangs on a ring. */
  datatype Parent = NoParent | Bin(i: nat) | Node(p: Ptr)

  /* The fields of malloc_tree_chunk after the first four. */
  datatype TNode = TNode(left: Ptr, right: Ptr, parent: Parent, index: nat) {
    function Child(b: bool): Ptr { if b then right else left }

    function SetChild(b: bool, x: Ptr): TNode {
      if b then TNode(left, x, parent, index) else TNode(x, right, parent, index)
    }
  }

  /* The tree part of the links: `treemap`, `treebins` and the nodes. */
  datatype Tree = Tree(map_: BinMap, bins: seq<Ptr>, node: map<Ptr, TNode>)

  function ParentOf(rings: RingMap, p: Pos): Parent {
    if p.bits == [] then Bin(p.bin) else Node(HeadAt(rings, p.Up()))
  }

  function NodeOf(rings: RingMap, p: Pos): TNode {
    TNode(HeadAt(rings, p.Child(false)), HeadAt(rings, p.Child(true)), ParentOf(rings, p), p.bin)
  }

  ghost predicate Hangs(t: Tree, y: Ptr, bin: nat) {
    y in t.node && t.node[y] == TNode(0, 0, NoParent, bin)
  }

  ghost predicate LevelDrawn(t: Tree, rings: RingMap, p: Pos)
    requires p in rings
  {
    && HeadAt(rings, p) in t.node && t.node[HeadAt(rings, p)] == NodeOf(rings, p)
    && forall y | y in rings[p] && y != HeadAt(rings, p) :: Hangs(t, y, p.bin)
  }

  ghost predicate BinDrawn(t: Tree, rings: RingMap, i: nat)
    requires i < |t.bins|
  {
    t.bins[i] == HeadAt(rings, Root(i)) && (Marked(t.map_, i) <==> t.bins[i] != 0)
  }

  ghost predicate TreeDrawn(t: Tree, rings: RingMap) {
    && |t.bins| == NTREEBINS
    && (forall i | 0 <= i < NTREEBINS :: BinDrawn(t, rings, i))
    && forall p {:trigger LevelDrawn(t, rings, p)} | p in rings :: LevelDrawn(t, rings, p)
  }

  ghost predicate RingsDrawn(fd: map<Ptr, Ptr>, bk: map<Ptr, Ptr>, rings: RingMap) {
    forall p | p in rings :: IsRing(fd, bk, rings[p])
  }

  /* ---- ring links ---- */

  lemma RingsAddSingle(fd: map<Ptr, Ptr>, bk: map<Ptr, Ptr>, rings: RingMap, p: Pos, x: Ptr)
    requires RingsDrawn(fd, bk, rings) && forall q | q in rings :: x !in rings[q]
    ensures RingsDrawn(fd[x := x], bk[x := x], rings[p := [x]])
  {
    var fd', bk' := fd[x := x], bk[x := x];
    RingSingle(fd', bk', x);
    forall q | q in rings && q != p ensures IsRing(fd', bk', rings[q]) {
      RingFrameAt(fd, bk, fd', bk', rings[q], {x});
    }
  }

  lemma RingsInsert(fd: map<Ptr, Ptr>, bk: map<Ptr, Ptr>, rings: RingMap, p: Pos, x: Ptr)
    requires RingsDrawn(fd, bk, rings) && Apart(rings) && p in rings && forall q | q in rings :: x !in rings[q]
    requires HeadAt(rings, p) in fd
    ensures var t := HeadAt(rings, p);
            RingsDrawn(fd[t := x][x := fd[t]], bk[fd[t] := x][x := t], rings[p := InsertSecond(rings[p], x)])
  {
    var r, t := rings[p], HeadAt(rings, p);
    var f: Ptr := fd[t];
    var fd': map<Ptr, Ptr> := fd[t := x][x := f];
    var bk': map<Ptr, Ptr> := bk[f := x][x := t];
    LinksOf(fd, bk, r, 0);
    RingInsert(fd, bk, r, x);
    var rings' := rings[p := InsertSecond(r, x)];
    forall q | q in rings' ensures IsRing(fd', bk', rings'[q]) {
      if q != p {
        assert t in rings[p] && f in rings[p];
        assert t !in rings[q] && f !in rings[q] && x !in rings[q];
        RingFrameAt(fd, bk, fd', bk', rings[q], {x, t, f});
      }
    }
  }

  lemma RingsRemove(fd: map<Ptr, Ptr>, bk: map<Ptr, Ptr>, rings: RingMap, p: Pos, i: nat)
    requires RingsDrawn(fd, bk, rings) && Apart(rings) && p in rings && i < |rings[p]| && |rings[p]| > 1
    requires rings[p][i] in fd && rings[p][i] in bk
    ensures var x := rings[p][i];
            RingsDrawn(fd[bk[x] := fd[x]], bk[fd[x] := bk[x]], rings[p := Without(rings[p], i)])
  {
    var r, x := rings[p], rings[p][i];
    var fd', bk' := fd[bk[x] := fd[x]], bk[fd[x] := bk[x]];
    LinksOf(fd, bk, r, i);
    RingRemove(fd, bk, r, i);
    forall q | q in rings && q != p ensures IsRing(fd', bk', rings[q]) {
      assert bk[x] in rings[p] && fd[x] in rings[p];
      RingFrameAt(fd, bk, fd', bk', rings[q], {bk[x], fd[x]});
    }
  }

  /* ---- insertion ---- */

  /* `*H = X` in an empty bin. */
  function LinkRoot(t: Tree, i: nat, x: Ptr): Tree
    requires i < |t.bins| && i < NBINS
  {
    Tree(MarkBin(t.map_, i), t.bins[i := x], t.node[x := TNode(0, 0, Bin(i), i)])
  }

  /* `*C = X` below node n. */
  function LinkLeaf(t: Tree, n: Ptr, c: bool, x: Ptr, i: nat): Tree
    requires n in t.node
  {
    t.(node := t.node[n := t.node[n].SetChild(c, x)][x := TNode(0, 0, Node(n), i)])
  }

  lemma NewHead(rings: RingMap, p: Pos, x: Ptr, q: Pos)
    ensures HeadAt(rings[p := [x]], q) == if q == p then x else HeadAt(rings, q)
  {}

  lemma NewLevel(rings: RingMap, p: Pos, x: Ptr)
    requires Apart(rings) && p !in rings
    ensures NodeOf(rings[p := [x]], p) == TNode(0, 0, ParentOf(rings, p), p.bin)
  {
    ChildIs(p, false, p.Child(false));
    ChildIs(p, true, p.Child(true));
    assert p.Child(false) !in rings && p.Child(true) !in rings;
    assert p.Child(false) != p && p.Child(true) != p;
    assert p.bits != [] ==> p.Up() != p;
  }

  lemma OtherLevel(rings: RingMap, p: Pos, x: Ptr, q: Pos)
    requires Apart(rings) && p !in rings && q in rings
    ensures NodeOf(rings[p := [x]], q) ==
            if p.bits != [] && q == p.Up() then NodeOf(rings, q).SetChild(Last(p), x) else NodeOf(rings, q)
  {
    ChildIs(q, false, p);
    ChildIs(q, true, p);
    assert q.bits != [] ==> q.Up() in rings;
    NewHead(rings, p, x, q.Child(false));
    NewHead(rings, p, x, q.Child(true));
    if q.bits != [] { NewHead(rings, p, x, q.Up()); }
  }

  lemma LinkRootDraws(t: Tree, rings: RingMap, i: nat, x: Ptr)
    requires TreeDrawn(t, rings) && Apart(rings) && i < NTREEBINS && Root(i) !in rings && x != 0
    requires forall p | p in rings :: x !in rings[p]
    ensures TreeDrawn(LinkRoot(t, i, x), rings[Root(i) := [x]])
  {
    hide NodeOf;
    var t', rings' := LinkRoot(t, i, x), rings[Root(i) := [x]];
    NewLevel(rings, Root(i), x);
    forall j | 0 <= j < NTREEBINS ensures BinDrawn(t', rings', j) {
      assert BinDrawn(t, rings, j);
    }
    forall p | p in rings' ensures LevelDrawn(t', rings', p) {
      if p != Root(i) {
        assert LevelDrawn(t, rings, p);
        OtherLevel(rings, Root(i), x, p);
      }
    }
  }

  lemma LinkLeafDraws(t: Tree, rings: RingMap, p: Pos, c: bool, x: Ptr)
    requires TreeDrawn(t, rings) && Apart(rings) && p in rings && p.Child(c) !in rings && x != 0
    requires forall q | q in rings :: x !in rings[q]
    requires HeadAt(rings, p) in t.node
    ensures TreeDrawn(LinkLeaf(t, HeadAt(rings, p), c, x, p.bin), rings[p.Child(c) := [x]])
  {
    hide NodeOf;
    var d := p.Child(c);
    var t', rings' := LinkLeaf(t, HeadAt(rings, p), c, x, p.bin), rings[d := [x]];
    ChildIs(p, c, d);
    NewLevel(rings, d, x);
    forall j | 0 <= j < NTREEBINS ensures BinDrawn(t', rings', j) {
      assert BinDrawn(t, rings, j);
    }
    forall q | q in rings' ensures LevelDrawn(t', rings', q) {
      if q != d { LinkLeafLevel(t, rings, p, c, x, q); }
    }
  }

  lemma LinkLeafLevel(t: Tree, rings: RingMap, p: Pos, c: bool, x: Ptr, q: Pos)
    requires TreeDrawn(t, rings) && Apart(rings) && p in rings && p.Child(c) !in rings && q in rings
    requires x !in rings[q] && HeadAt(rings, p) in t.node
    ensures LevelDrawn(LinkLeaf(t, HeadAt(rings, p), c, x, p.bin), rings[p.Child(c) := [x]], q)
  {
    hide NodeOf;
    var n := HeadAt(rings, p);
    assert n == rings[p][0] && n in rings[p];
    assert LevelDrawn(t, rings, q);
    ChildIs(p, c, p.Child(c));
    OtherLevel(rings, p.Child(c), x, q);
    assert n in rings[q] ==> q == p;
    assert HeadAt(rings, q) in rings[q];
    forall y | y in rings[q] && y != HeadAt(rings, q) ensures Hangs(LinkLeaf(t, n, c, x, p.bin), y, q.bin) {
      assert Hangs(t, y, q.bin);
    }
  }

  /* A chunk joining the ring of p leaves every node where it was. */
  lemma LinkRingDraws(t: Tree, rings: RingMap, p: Pos, x: Ptr)
    requires TreeDrawn(t, rings) && Apart(rings) && p in rings
    requires forall q | q in rings :: x !in rings[q]
    ensures TreeDrawn(t.(node := t.node[x := TNode(0, 0, NoParent, p.bin)]), rings[p := InsertSecond(rings[p], x)])
  {
    var t', rings' := t.(node := t.node[x := TNode(0, 0, NoParent, p.bin)]), rings[p := InsertSecond(rings[p], x)];
    assert forall q :: HeadAt(rings', q) == HeadAt(rings, q);
    forall j | 0 <= j < NTREEBINS ensures BinDrawn(t', rings', j) {
      assert BinDrawn(t, rings, j);
    }
    forall q | q in rings' ensures LevelDrawn(t', rings', q) {
      assert LevelDrawn(t, rings, q);
      assert NodeOf(rings', q) == NodeOf(rings, q);
      if q == p {
        InsertMembers(rings[p], x);
      }
      assert HeadAt(rings, q) in rings[q];
      forall y | y in rings'[q] && y != HeadAt(rings, q) ensures Hangs(t', y, q.bin) {
        assert y != x ==> Hangs(t, y, q.bin);
      }
    }
  }

  /* ---- removal ---- */

  /* Thinning the ring of p behind its head changes no node. */
  lemma ThinnerDraws(t: Tree, rings: RingMap, p: Pos, r: seq<Ptr>)
    requires TreeDrawn(t, rings) && p in rings && rings[p] != [] && r != [] && r[0] == rings[p][0]
    requires forall y | y in r :: y in rings[p]
    ensures TreeDrawn(t, rings[p := r])
  {
    var rings' := rings[p := r];
    assert forall q :: HeadAt(rings', q) == HeadAt(rings, q);
    forall j | 0 <= j < NTREEBINS ensures BinDrawn(t, rings', j) {
      assert BinDrawn(t, rings, j);
    }
    forall q | q in rings' ensures LevelDrawn(t, rings', q) {
      assert LevelDrawn(t, rings, q);
      assert NodeOf(rings', q) == NodeOf(rings, q);
    }
  }

  /* `*RP = 0` for the leaf at q. */
  function Cut(t: Tree, n: Ptr, c: bool): Tree
    requires n in t.node
  {
    t.(node := t.node[n := t.node[n].SetChild(c, 0)])
  }

  lemma GoneLevel(rings: RingMap, q: Pos, r: Pos)
    requires Apart(rings) && IsLeafAt(rings, q) && r in rings && r != q
    ensures NodeOf(rings - {q}, r) ==
            if q.bits != [] && r == q.Up() then NodeOf(rings, r).SetChild(Last(q), 0) else NodeOf(rings, r)
  {
    ChildIs(r, false, q);
    ChildIs(r, true, q);
    if r.bits != [] { ChildIs(r.Up(), Last(r), r); }
  }

  lemma CutDraws(t: Tree, rings: RingMap, q: Pos)
    requires TreeDrawn(t, rings) && Apart(rings) && IsLeafAt(rings, q) && q.bits != []
    requires HeadAt(rings, q.Up()) in t.node
    ensures TreeDrawn(Cut(t, HeadAt(rings, q.Up()), Last(q)), rings - {q})
  {
    hide NodeOf;
    var n := HeadAt(rings, q.Up());
    var t', rings' := Cut(t, n, Last(q)), rings - {q};
    assert n == rings[q.Up()][0] && n in rings[q.Up()];
    forall j | 0 <= j < NTREEBINS ensures BinDrawn(t', rings', j) {
      assert BinDrawn(t, rings, j);
    }
    forall r | r in rings' ensures LevelDrawn(t', rings', r) {
      assert LevelDrawn(t, rings, r);
      GoneLevel(rings, q, r);
      assert HeadAt(rings, r) in rings[r];
      forall y | y in rings[r] && y != HeadAt(rings, r) ensures Hangs(t', y, r.bin) {
        assert Hangs(t, y, r.bin);
      }
    }
  }

  function At(t: Tree, x: Ptr): TNode {
    if x in t.node then t.node[x] else TNode(0, 0, NoParent, 0)
  }

  /* R takes X's place in X's treebin, or else under X's parent. */
  function Reseat(t: Tree, x: Ptr, r: Ptr): Tree {
    var i, xp := At(t, x).index, At(t, x).parent;
    if i < |t.bins| && i < NBINS && x == t.bins[i] then
      t.(bins := t.bins[i := r], map_ := if r == 0 then ClearBin(t.map_, i) else t.map_)
    else if xp.Node? then
      t.(node := t.node[xp.p := At(t, xp.p).SetChild(At(t, xp.p).left != x, r)])
    else t
  }

  /* R takes over X's child on side b. */
  function Adopt(t: Tree, x: Ptr, r: Ptr, b: bool): Tree {
    var c := At(t, x).Child(b);
    if c == 0 then t
    else
      var t' := t.(node := t.node[r := At(t, r).SetChild(b, c)]);
      t'.(node := t'.node[c := At(t', c).(parent := Node(r))])
  }

  /* The end of unlink_large_chunk: X's parent and children are relinked to R. */
  function Replace(t: Tree, x: Ptr, r: Ptr): Tree {
    var t1 := Reseat(t, x, r);
    if r == 0 then t1
    else
      var t2 := t1.(node := t1.node[r := At(t1, r).(parent := At(t, x).parent)]);
      Adopt(Adopt(t2, x, r, false), x, r, true)
  }

  /* The node of y after X at p has been replaced by R. */
  function AfterReplace(t: Tree, x: Ptr, r: Ptr, y: Ptr): TNode {
    var n := At(t, x);
    if y == r then TNode(n.left, n.right, n.parent, At(t, r).index)
    else if y != 0 && (y == n.left || y == n.right) then At(t, y).(parent := Node(r))
    else if n.parent == Node(y) then At(t, y).SetChild(At(t, y).left != x, r)
    else At(t, y)
  }

  /* X's neighbours are pairwise distinct, R is none of them and has no children. */
  ghost predicate CanReplace(t: Tree, x: Ptr, r: Ptr) {
    var n := At(t, x);
    && r != 0 && x in t.node && r in t.node && x != r && At(t, r).left == 0 == At(t, r).right
    && r != n.left && r != n.right && n.parent != Node(r) && n.parent != Node(x) && x != n.left && x != n.right
    && (n.left != 0 ==> n.left != n.right && n.parent != Node(n.left))
    && (n.right != 0 ==> n.parent != Node(n.right))
    && (n.parent.Node? <==> !(n.index < |t.bins| && n.index < NBINS && x == t.bins[n.index]))
  }

  lemma ReplaceNodes(t: Tree, x: Ptr, r: Ptr, y: Ptr)
    requires CanReplace(t, x, r) && y in t.node && y != x
    ensures y in Replace(t, x, r).node && Replace(t, x, r).node[y] == AfterReplace(t, x, r, y)
  {
    var n := At(t, x);
    var t1 := Reseat(t, x, r);
    assert At(t1, x) == n && At(t1, r) == At(t, r) && y in t1.node;
    var t2 := t1.(node := t1.node[r := At(t1, r).(parent := n.parent)]);
    assert At(t2, x) == n && y in t2.node;
    var t3 := Adopt(t2, x, r, false);
    assert At(t3, x) == n && y in t3.node;
    assert At(t3, r) == TNode(n.left, 0, n.parent, At(t, r).index);
  }

  lemma NewRing(rings: RingMap, p: Pos, rr: seq<Ptr>, q: Pos)
    requires rr != []
    ensures HeadAt(rings[p := rr], q) == if q == p then rr[0] else HeadAt(rings, q)
  {}

  /* The ring rr hangs ready to take the place of the lone chunk at p. */
  ghost predicate Ready(t: Tree, rings: RingMap, p: Pos, rr: seq<Ptr>) {
    && p in rings && |rings[p]| == 1 && p.bin < NTREEBINS
    && rr != [] && 0 !in rr && NoDup(rr)
    && (forall y, q | y in rr && q in rings :: y !in rings[q])
    && rr[0] in t.node && t.node[rr[0]].left == 0 == t.node[rr[0]].right && t.node[rr[0]].index == p.bin
    && forall y | y in rr && y != rr[0] :: Hangs(t, y, p.bin)
  }

  lemma ReadyNodes(t: Tree, rings: RingMap, p: Pos, rr: seq<Ptr>)
    requires TreeDrawn(t, rings) && Apart(rings) && Ready(t, rings, p, rr)
    ensures At(t, rings[p][0]) == NodeOf(rings, p) && CanReplace(t, rings[p][0], rr[0])
  {
    hide Apart; hide Marked; hide Hangs;
    assert LevelDrawn(t, rings, p) && BinDrawn(t, rings, p.bin);
    OneOwner(rings, p, p.Child(false));
    OneOwner(rings, p, p.Child(true));
    OneOwner(rings, p, Root(p.bin));
    OneOwner(rings, p.Child(false), p.Child(true));
    Neighbours(p);
    NotAHead(rings, rr, p);
    NotAHead(rings, rr, p.Child(false));
    NotAHead(rings, rr, p.Child(true));
    if p.bits != [] {
      OneOwner(rings, p.Up(), p);
      OneOwner(rings, p.Up(), p.Child(false));
      OneOwner(rings, p.Up(), p.Child(true));
      NotAHead(rings, rr, p.Up());
    }
  }

  lemma NotAHead(rings: RingMap, rr: seq<Ptr>, q: Pos)
    requires Apart(rings) && rr != [] && 0 !in rr && forall y, q' | y in rr && q' in rings :: y !in rings[q']
    ensures rr[0] != 0 && HeadAt(rings, q) != rr[0]
  {
    OneOwner(rings, q, q);
    assert rr[0] in rr;
  }

  lemma OneOwner(rings: RingMap, p: Pos, q: Pos)
    requires Apart(rings)
    ensures HeadAt(rings, p) != 0 <==> p in rings
    ensures HeadAt(rings, q) != 0 <==> q in rings
    ensures p in rings ==> HeadAt(rings, p) in rings[p]
    ensures q in rings ==> HeadAt(rings, q) in rings[q]
    ensures HeadAt(rings, p) == HeadAt(rings, q) != 0 ==> p == q
    ensures p in rings && p.bits != [] ==> p.Up() in rings
  {}

  /* The node at q once rr sits at p. */
  lemma ReplacedLevel(rings: RingMap, p: Pos, rr: seq<Ptr>, q: Pos)
    requires Apart(rings) && p in rings && rr != [] && q in rings && q != p
    ensures NodeOf(rings[p := rr], q) ==
            if p.bits != [] && q == p.Up() then NodeOf(rings, q).SetChild(Last(p), rr[0])
            else if q == p.Child(false) || q == p.Child(true) then NodeOf(rings, q).(parent := Node(rr[0]))
            else NodeOf(rings, q)
  {
    ChildIs(q, false, p);
    ChildIs(q, true, p);
    if q.bits != [] {
      ChildIs(p, false, q);
      ChildIs(p, true, q);
      assert q.Up() == p ==> q == p.Child(Last(q));
    }
    Neighbours(q);
    Neighbours(p);
    NewRing(rings, p, rr, q.Child(false));
    NewRing(rings, p, rr, q.Child(true));
    if q.bits != [] { NewRing(rings, p, rr, q.Up()); }
  }

  /* Behind the heads, replacing touches nothing. */
  lemma StillHangs(t: Tree, rings: RingMap, p: Pos, rr: seq<Ptr>, y: Ptr, bin: nat)
    requires TreeDrawn(t, rings) && Apart(rings) && Ready(t, rings, p, rr) && Hangs(t, y, bin)
    requires y != rings[p][0] && y != rr[0] && forall q | q in rings :: y != HeadAt(rings, q)
    ensures Hangs(Replace(t, rings[p][0], rr[0]), y, bin)
  {
    hide Replace; hide TreeDrawn;
    ReadyNodes(t, rings, p, rr);
    ReplaceNodes(t, rings[p][0], rr[0], y);
    OneOwner(rings, p, p.Child(false));
    OneOwner(rings, p.Child(false), p.Child(true));
    OneOwner(rings, p.Child(true), p);
    if p.bits != [] { OneOwner(rings, p.Up(), p); }
    assert y == HeadAt(rings, p.Child(false)) ==> y == 0;
    assert y == HeadAt(rings, p.Child(true)) ==> y == 0;
  }

  lemma ReplaceLevel(t: Tree, rings: RingMap, p: Pos, rr: seq<Ptr>, q: Pos)
    requires TreeDrawn(t, rings) && Apart(rings) && Ready(t, rings, p, rr) && q in rings && q != p
    ensures LevelDrawn(Replace(t, rings[p][0], rr[0]), rings[p := rr], q)
  {
    hide NodeOf; hide Replace; hide Apart;
    var x, r, h := rings[p][0], rr[0], HeadAt(rings, q);
    var t', rings' := Replace(t, x, r), rings[p := rr];
    assert LevelDrawn(t, rings, q) && LevelDrawn(t, rings, p);
    ReplaceHead(t, rings, p, rr, q);
    NewRing(rings, p, rr, q);
    forall y | y in rings[q] && y != h ensures Hangs(t', y, q.bin) {
      Behind(rings, q, y);
      assert rr[0] in rr && HeadAt(rings, p) == x;
      assert Hangs(t, y, q.bin);
      StillHangs(t, rings, p, rr, y, q.bin);
    }
  }

  lemma Behind(rings: RingMap, q: Pos, y: Ptr)
    requires Apart(rings) && q in rings && y in rings[q] && y != HeadAt(rings, q)
    ensures forall q' | q' in rings :: y != HeadAt(rings, q')
    ensures forall q' | q' in rings && q' != q :: y !in rings[q']
  {
    forall q' | q' in rings ensures y != HeadAt(rings, q') { OneOwner(rings, q', q); }
  }

  lemma ReplaceHead(t: Tree, rings: RingMap, p: Pos, rr: seq<Ptr>, q: Pos)
    requires TreeDrawn(t, rings) && Apart(rings) && Ready(t, rings, p, rr) && q in rings && q != p
    ensures var t' := Replace(t, rings[p][0], rr[0]);
            HeadAt(rings, q) in t'.node && t'.node[HeadAt(rings, q)] == NodeOf(rings[p := rr], q)
  {
    hide Replace; hide Apart;
    var x, r, h := rings[p][0], rr[0], HeadAt(rings, q);
    assert LevelDrawn(t, rings, q);
    ReadyNodes(t, rings, p, rr);
    OneOwner(rings, q, p);
    ReplaceNodes(t, x, r, h);
    ReplacedLevel(rings, p, rr, q);
    NotAHead(rings, rr, q);
    OneOwner(rings, q, p.Child(false));
    OneOwner(rings, q, p.Child(true));
    Neighbours(p);
    if p.bits != [] {
      OneOwner(rings, q, p.Up());
      OneOwner(rings, q.Child(false), p);
      ChildIs(q, false, p);
      ChildIs(q, true, p);
    }
  }

  lemma ReplaceTop(t: Tree, rings: RingMap, p: Pos, rr: seq<Ptr>)
    requires TreeDrawn(t, rings) && Apart(rings) && Ready(t, rings, p, rr)
    ensures LevelDrawn(Replace(t, rings[p][0], rr[0]), rings[p := rr], p)
  {
    hide Replace; hide Apart;
    var x, r := rings[p][0], rr[0];
    var t', rings' := Replace(t, x, r), rings[p := rr];
    ReadyNodes(t, rings, p, rr);
    ReplaceNodes(t, x, r, r);
    Neighbours(p);
    NewRing(rings, p, rr, p);
    NewRing(rings, p, rr, p.Child(false));
    NewRing(rings, p, rr, p.Child(true));
    if p.bits != [] { NewRing(rings, p, rr, p.Up()); }
    assert x in rings[p];
    forall y | y in rr && y != r ensures Hangs(t', y, p.bin) {
      forall q | q in rings ensures y != HeadAt(rings, q) { OneOwner(rings, q, q); }
      StillHangs(t, rings, p, rr, y, p.bin);
    }
  }

  lemma ReplaceDraws(t: Tree, rings: RingMap, p: Pos, rr: seq<Ptr>)
    requires TreeDrawn(t, rings) && Apart(rings) && Ready(t, rings, p, rr)
    ensures TreeDrawn(Replace(t, rings[p][0], rr[0]), rings[p := rr])
  {
    assert NodeOf(rings, p).index == p.bin;
    hide NodeOf; hide Apart;
    var x, r := rings[p][0], rr[0];
    var t', rings' := Replace(t, x, r), rings[p := rr];
    ReadyNodes(t, rings, p, rr);
    forall j | 0 <= j < NTREEBINS ensures BinDrawn(t', rings', j) {
      assert BinDrawn(t, rings, j);
      NewRing(rings, p, rr, Root(j));
      OneOwner(rings, p, Root(j));
    }
    forall q | q in rings' ensures LevelDrawn(t', rings', q) {
      if q == p { ReplaceTop(t, rings, p, rr); } else { ReplaceLevel(t, rings, p, rr, q); }
    }
  }

  /* The last chunk of its size, a leaf, just goes. */
  lemma ReplaceByNullDraws(t: Tree, rings: RingMap, p: Pos)
    requires TreeDrawn(t, rings) && Apart(rings) && IsLeafAt(rings, p) && |rings[p]| == 1 && p.bin < NTREEBINS
    ensures TreeDrawn(Replace(t, rings[p][0], 0), rings - {p})
  {
    assert NodeOf(rings, p).index == p.bin;
    hide NodeOf; hide Apart;
    var x := rings[p][0];
    var t', rings' := Replace(t, x, 0), rings - {p};
    assert LevelDrawn(t, rings, p);
    forall j | 0 <= j < NTREEBINS ensures BinDrawn(t', rings', j) {
      assert BinDrawn(t, rings, j);
      OneOwner(rings, p, Root(j));
    }
    forall q | q in rings' ensures LevelDrawn(t', rings', q) {
      ReplaceByNullLevel(t, rings, p, q);
    }
  }

  lemma ReplaceByNullLevel(t: Tree, rings: RingMap, p: Pos, q: Pos)
    requires TreeDrawn(t, rings) && Apart(rings) && IsLeafAt(rings, p) && |rings[p]| == 1 && p.bin < NTREEBINS
    requires q in rings && q != p
    ensures LevelDrawn(Replace(t, rings[p][0], 0), rings - {p}, q)
  {
    hide Apart; hide Marked;
    var x, h := rings[p][0], HeadAt(rings, q);
    var t' := Replace(t, x, 0);
    NullNodes(t, rings, p);
    hide Replace;
    assert LevelDrawn(t, rings, q);
    GoneLevel(rings, p, q);
    OneOwner(rings, q, p);
    OneOwner(rings, q.Child(false), p);
    ChildIs(q, false, p);
    if p.bits != [] { OneOwner(rings, q, p.Up()); OneOwner(rings, p.Up(), p); }
    forall y | y in rings[q] && y != h ensures Hangs(t', y, q.bin) {
      Behind(rings, q, y);
      assert Hangs(t, y, q.bin);
    }
  }

  lemma NullNodes(t: Tree, rings: RingMap, p: Pos)
    requires TreeDrawn(t, rings) && Apart(rings) && p in rings && |rings[p]| == 1 && p.bin < NTREEBINS
    ensures Replace(t, rings[p][0], 0).node ==
            if p.bits == [] then t.node
            else var u := HeadAt(rings, p.Up()); t.node[u := At(t, u).SetChild(At(t, u).left != rings[p][0], 0)]
    ensures p.bits != [] ==> p.Up() in rings
  {
    hide Apart; hide Marked;
    assert LevelDrawn(t, rings, p) && BinDrawn(t, rings, p.bin);
    OneOwner(rings, p, Root(p.bin));
  }

  /* A ring taken out of another's place: what is left of it can replace its lone old head. */
  lemma RestReady(t: Tree, rings: RingMap, p: Pos)
    requires TreeDrawn(t, rings) && Apart(rings) && p in rings && |rings[p]| > 1 && p.bin < NTREEBINS
    ensures Apart(rings[p := [rings[p][0]]]) && Ready(t, rings[p := [rings[p][0]]], p, Without(rings[p], 0))
  {
    hide NodeOf;
    var r, rr, rings' := rings[p], Without(rings[p], 0), rings[p := [rings[p][0]]];
    assert LevelDrawn(t, rings, p);
    WithoutMembers(r, 0);
    assert rr[0] == r[|r| - 1];
    assert Hangs(t, rr[0], p.bin);
    forall y, q | y in rr && q in rings' ensures y !in rings'[q] {
      assert y in rings[p];
    }
  }

  lemma LeafGone(rings: RingMap, q: Pos)
    requires Apart(rings) && IsLeafAt(rings, q)
    ensures Apart(rings - {q})
  {
    forall r | r in rings - {q} ensures r.bits != [] ==> r.Up() in rings - {q} {
      if r.bits != [] { ChildIs(r.Up(), Last(r), r); }
    }
  }

  /* A leaf that has been cut off can replace the lone chunk at p above it. */
  lemma LeafReady(t: Tree, rings: RingMap, p: Pos, q: Pos)
    requires TreeDrawn(t, rings) && Apart(rings) && p in rings && |rings[p]| == 1 && p.bin < NTREEBINS
    requires p.Above(q) && p != q && IsLeafAt(rings, q)
    ensures q.Up() in rings && HeadAt(rings, q.Up()) in t.node
    ensures var t' := Cut(t, HeadAt(rings, q.Up()), Last(q));
            Apart(rings - {q}) && Ready(t', rings - {q}, p, rings[q])
  {
    var u := HeadAt(rings, q.Up());
    assert LevelDrawn(t, rings, q.Up()) && LevelDrawn(t, rings, q);
    OneOwner(rings, q.Up(), q);
    ChildIs(q.Up(), Last(q), q);
    Neighbours(q.Up());
    LeafGone(rings, q);
    assert Ready(Cut(t, u, Last(q)), rings - {q}, p, rings[q]) by {
      forall y | y in rings[q] && y != rings[q][0] ensures Hangs(Cut(t, u, Last(q)), y, p.bin) {
        assert Hangs(t, y, q.bin);
        Behind(rings, q, y);
      }
    }
  }

  /* Every link that relinking X to R follows leads to a node. */
  ghost predicate CanRelink(t: Tree, x: Ptr, r: Ptr) {
    && x in t.node && |t.bins| == NTREEBINS && At(t, x).index < NTREEBINS && x != r && (r != 0 ==> r in t.node)
    && (t.bins[At(t, x).index] != x ==> At(t, x).parent.Node? && At(t, x).parent.p in t.node && At(t, x).parent.p != x)
    && (r != 0 && At(t, x).left != 0 ==> At(t, x).left in t.node && At(t, x).left != x)
    && (r != 0 && At(t, x).right != 0 ==> At(t, x).right in t.node && At(t, x).right != x)
  }

  lemma DrawnRelinks(t: Tree, rings: RingMap, p: Pos, r: Ptr)
    requires TreeDrawn(t, rings) && Apart(rings) && p in rings && |rings[p]| == 1 && p.bin < NTREEBINS
    requires r != 0 ==> r in t.node && r != rings[p][0]
    ensures CanRelink(t, rings[p][0], r)
  {
    hide Apart; hide Marked;
    assert LevelDrawn(t, rings, p) && BinDrawn(t, rings, p.bin);
    OneOwner(rings, p, p.Child(false));
    OneOwner(rings, p, p.Child(true));
    OneOwner(rings, p, Root(p.bin));
    Neighbours(p);
    if p.Child(false) in rings { assert LevelDrawn(t, rings, p.Child(false)); }
    if p.Child(true) in rings { assert LevelDrawn(t, rings, p.Child(true)); }
    if p.bits != [] {
      OneOwner(rings, p.Up(), p);
      assert LevelDrawn(t, rings, p.Up());
    }
  }

  /* Relinking draws the right shape: when the head of a longer ring goes, */
  lemma HeadRelinks(t: Tree, rings: RingMap, p: Pos)
    requires TreeDrawn(t, rings) && Apart(rings) && p in rings && |rings[p]| > 1 && p.bin < NTREEBINS
    ensures var x, r := rings[p][0], rings[p][|rings[p]| - 1];
            CanRelink(t, x, r) && TreeDrawn(Replace(t, x, r), rings[p := Without(rings[p], 0)])
  {
    hide TreeDrawn; hide Apart; hide Replace; hide CanRelink; hide Ready;
    var x, rr := rings[p][0], Without(rings[p], 0);
    var rings1 := rings[p := [x]];
    ThinnerDraws(t, rings, p, [x]);
    RestReady(t, rings, p);
    ReadyNodes(t, rings1, p, rr);
    DrawnRelinks(t, rings1, p, rr[0]);
    ReplaceDraws(t, rings1, p, rr);
    assert rings1[p := rr] == rings[p := rr];
  }

  /* when a lone leaf goes, */
  lemma LeafRelinks(t: Tree, rings: RingMap, p: Pos)
    requires TreeDrawn(t, rings) && Apart(rings) && IsLeafAt(rings, p) && |rings[p]| == 1 && p.bin < NTREEBINS
    ensures CanRelink(t, rings[p][0], 0) && TreeDrawn(Replace(t, rings[p][0], 0), rings - {p})
  {
    DrawnRelinks(t, rings, p, 0);
    ReplaceByNullDraws(t, rings, p);
  }

  /* and when a lone inner node goes and the leaf at q takes its place. */
  lemma NodeRelinks(t: Tree, rings: RingMap, p: Pos, q: Pos)
    requires TreeDrawn(t, rings) && Apart(rings) && p in rings && |rings[p]| == 1 && p.bin < NTREEBINS
    requires p.Above(q) && p != q && IsLeafAt(rings, q)
    ensures HeadAt(rings, q.Up()) in t.node
    ensures var x, r := rings[p][0], HeadAt(rings, q);
            var t' := Cut(t, HeadAt(rings, q.Up()), Last(q));
            CanRelink(t', x, r) && TreeDrawn(Replace(t', x, r), (rings - {q})[p := rings[q]])
  {
    hide TreeDrawn; hide Replace; hide CanRelink;
    LeafReady(t, rings, p, q);
    hide Apart; hide Ready;
    CutDraws(t, rings, q);
    var t' := Cut(t, HeadAt(rings, q.Up()), Last(q));
    ReadyNodes(t', rings - {q}, p, rings[q]);
    DrawnRelinks(t', rings - {q}, p, HeadAt(rings, q));
    ReplaceDraws(t', rings - {q}, p, rings[q]);
  }
}
