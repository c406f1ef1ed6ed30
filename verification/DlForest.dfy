/** The shape of dlmalloc's treebins, free of pointers' links: which chunks sit at which trie
    position.  `ForestOk` is the part of do_check_tree that speaks of sizes; the operations here
    are the changes insert_large_chunk and unlink_large_chunk make to it. */
module DlForest {
  import opened Words
  import opened DlChunk
  import opened DlTreeIndex
  import opened DlTrie
  import opened Rings

  type RingMap = map<Pos, seq<Ptr>>

  /** `rings[p]` are the same-sized chunks kept at position p, the tree node first; `sizes` are
      the chunk sizes of every binned chunk, and `home` says at which position each one is. */
  datatype Forest = Forest(rings: RingMap, home: map<Ptr, Pos>, sizes: map<Ptr, nat>)

  /* The tree node at position p, or null. */
  function HeadAt(rings: RingMap, p: Pos): Ptr {
    if p in rings && rings[p] != [] then rings[p][0] else 0
  }

  ghost predicate LevelOk(g: Forest, p: Pos)
    requires p in g.rings
  {
    && p.Ok()
    && g.rings[p] != [] && NoDup(g.rings[p])
    && (p.bits != [] ==> p.Up() in g.rings)
    && forall x | x in g.rings[p] :: ChunkOk(g, p, x)
  }

  ghost predicate ChunkOk(g: Forest, p: Pos, x: Ptr)
    requires p.Ok()
  {
    && x != 0 && x in g.sizes && x in g.home && g.home[x] == p
    && Fits(g.sizes[x], p)
  }

  ghost predicate HomeOk(g: Forest, x: Ptr)
    requires x in g.home
  {
    x in g.sizes && g.home[x] in g.rings && x in g.rings[g.home[x]]
  }

  /* Chunks share a position exactly when they share a size. */
  ghost predicate OneNodePerSize(g: Forest) {
    forall x, y | x in g.home && y in g.home && x in g.sizes && y in g.sizes ::
      g.sizes[x] == g.sizes[y] <==> g.home[x] == g.home[y]
  }

  ghost predicate ForestOk(g: Forest) {
    && (forall p {:trigger LevelOk(g, p)} | p in g.rings :: LevelOk(g, p))
    && g.home.Keys == g.sizes.Keys
    && (forall x {:trigger HomeOk(g, x)} | x in g.home :: HomeOk(g, x))
    && OneNodePerSize(g)
  }

  /* ---- what the trie shape implies ---- */

  lemma HeadFacts(g: Forest, p: Pos)
    requires ForestOk(g) && p in g.rings
    ensures LevelOk(g, p) && HeadAt(g.rings, p) == g.rings[p][0] != 0
    ensures ChunkOk(g, p, HeadAt(g.rings, p)) && HeadAt(g.rings, p) in g.rings[p]
  {
    assert LevelOk(g, p);
    assert ChunkOk(g, p, g.rings[p][0]);
  }

  /* Rings at different positions share no chunk, and none holds the null pointer. */
  ghost predicate Apart(rings: RingMap) {
    && (forall p | p in rings ::
         rings[p] != [] && 0 !in rings[p] && NoDup(rings[p]) && (p.bits != [] ==> p.Up() in rings))
    && forall p, q, x | p in rings && q in rings && x in rings[p] && x in rings[q] :: p == q
  }

  lemma ForestApart(g: Forest)
    requires ForestOk(g)
    ensures Apart(g.rings)
    ensures forall p, x | p in g.rings && x in g.rings[p] :: x in g.sizes
  {
    hide Fits; hide Pos.Ok;
    forall p | p in g.rings
      ensures g.rings[p] != [] && NoDup(g.rings[p]) && (p.bits != [] ==> p.Up() in g.rings)
      ensures forall x | x in g.rings[p] :: x != 0 && x in g.sizes && x in g.home && g.home[x] == p
    {
      assert LevelOk(g, p);
      forall x | x in g.rings[p] ensures x != 0 && x in g.sizes && x in g.home && g.home[x] == p {
        assert ChunkOk(g, p, x);
      }
    }
  }

  /* Every position above an occupied one is occupied. */
  lemma {:induction false} OccupiedAbove(g: Forest, p: Pos, q: Pos)
    requires ForestOk(g) && q in g.rings && p.Above(q)
    ensures p in g.rings
    decreases |q.bits|
  {
    if p != q {
      assert LevelOk(g, q);
      assert p.Above(q.Up());
      OccupiedAbove(g, p, q.Up());
    }
  }

  /* ---- walking down along the bits of a size ---- */

  /* Any chunk of size s is at p or below. */
  ghost predicate OnlyBelow(g: Forest, s: nat, p: Pos) {
    forall y | y in g.sizes && y in g.home && g.sizes[y] == s :: p.Above(g.home[y])
  }

  ghost predicate SizeFree(g: Forest, s: nat) {
    forall x | x in g.sizes :: g.sizes[x] != s
  }

  lemma StartAtRoot(g: Forest, s: nat)
    requires ForestOk(g) && MIN_LARGE_SIZE <= s < W32
    ensures TreeIndex(s) < NTREEBINS && Fits(s, Root(TreeIndex(s)))
    ensures OnlyBelow(g, s, Root(TreeIndex(s)))
    ensures Root(TreeIndex(s)) !in g.rings ==> SizeFree(g, s)
  {
    InRoot(s);
    forall y | y in g.sizes && g.sizes[y] == s
      ensures y in g.home && Root(TreeIndex(s)).Above(g.home[y]) && Root(TreeIndex(s)) in g.rings {
      assert HomeOk(g, y);
      assert LevelOk(g, g.home[y]) && ChunkOk(g, g.home[y], y);
      OccupiedAbove(g, Root(TreeIndex(s)), g.home[y]);
    }
  }

  /* Two sizes in one interval leave a bit to test. */
  lemma BitLeft(p: Pos, s: nat, t: nat)
    requires p.Ok() && Fits(s, p) && Fits(t, p) && s != t
    ensures |p.bits| < UnresolvedBits(p.bin)
  {
    assert Pow2(0) == 1;
  }

  lemma StepDown(g: Forest, p: Pos, s: nat, c: bool)
    requires ForestOk(g) && p in g.rings && p.Ok() && Fits(s, p) && OnlyBelow(g, s, p)
    requires HeadAt(g.rings, p) in g.sizes && g.sizes[HeadAt(g.rings, p)] != s
    requires p.Child(c).Ok() && In(s, p.Child(c))
    ensures Fits(s, p.Child(c)) && OnlyBelow(g, s, p.Child(c))
    ensures p.Child(c) !in g.rings ==> SizeFree(g, s)
  {
    hide Fits; hide Pos.Ok;
    FitsChild(p, c, s);
    HeadFacts(g, p);
    forall y | y in g.sizes && y in g.home && g.sizes[y] == s
      ensures p.Child(c).Above(g.home[y]) && p.Child(c) in g.rings
    {
      var q := g.home[y];
      assert HomeOk(g, y) && p.Above(q) && q != p;
      assert LevelOk(g, q) && ChunkOk(g, q, y);
      BelowChild(p, q, c, s);
      OccupiedAbove(g, p.Child(c), q);
    }
    assert g.home.Keys == g.sizes.Keys;
  }

  lemma FitsChild(p: Pos, c: bool, s: nat)
    requires p.Ok() && Fits(s, p) && p.Child(c).Ok() && In(s, p.Child(c))
    ensures Fits(s, p.Child(c))
  {}

  lemma BelowChild(p: Pos, q: Pos, c: bool, s: nat)
    requires p.Above(q) && p != q && p.Ok() && q.Ok() && Fits(s, q) && p.Child(c).Ok() && In(s, p.Child(c))
    ensures p.Child(c).Above(q)
  {
    var d := q.bits[|p.bits|];
    assert p.Child(d).Above(q);
    AboveContains(p.Child(d), q, s);
    ChildSplits(p, s);
  }

  /* ---- the four changes ---- */

  function AddNode(g: Forest, p: Pos, x: Ptr, s: nat): Forest {
    Forest(g.rings[p := [x]], g.home[x := p], g.sizes[x := s])
  }

  function AddToRing(g: Forest, p: Pos, x: Ptr, s: nat): Forest
    requires p in g.rings && g.rings[p] != []
  {
    Forest(g.rings[p := InsertSecond(g.rings[p], x)], g.home[x := p], g.sizes[x := s])
  }

  function TakeFromRing(g: Forest, p: Pos, i: nat): Forest
    requires p in g.rings && i < |g.rings[p]|
  {
    var x := g.rings[p][i];
    Forest(g.rings[p := Without(g.rings[p], i)], g.home - {x}, g.sizes - {x})
  }

  /* The lone chunk at p leaves; the ring of the leaf q below (possibly p itself) moves to p. */
  function TakeNode(g: Forest, p: Pos, q: Pos): Forest
    requires p in g.rings && q in g.rings && g.rings[p] != []
  {
    var x := g.rings[p][0];
    if p == q then Forest(g.rings - {p}, g.home - {x}, g.sizes - {x})
    else Forest((g.rings - {q})[p := g.rings[q]],
                map y | y in g.home && y != x :: if y in g.rings[q] then p else g.home[y],
                g.sizes - {x})
  }

  lemma AddNodeOk(g: Forest, p: Pos, x: Ptr, s: nat)
    requires ForestOk(g) && p.Ok() && p !in g.rings && (p.bits != [] ==> p.Up() in g.rings)
    requires x != 0 && x !in g.sizes && Fits(s, p) && SizeFree(g, s)
    ensures ForestOk(AddNode(g, p, x, s))
  {
    hide Fits; hide Pos.Ok;
    var g' := AddNode(g, p, x, s);
    forall q | q in g'.rings ensures LevelOk(g', q) {
      if q != p { assert LevelOk(g, q); }
    }
    forall y | y in g'.home ensures HomeOk(g', y) {
      if y != x { assert HomeOk(g, y); }
    }
  }

  lemma AddToRingOk(g: Forest, p: Pos, x: Ptr, s: nat)
    requires ForestOk(g) && p in g.rings && x != 0 && x !in g.sizes
    requires HeadAt(g.rings, p) in g.sizes && g.sizes[HeadAt(g.rings, p)] == s
    ensures g.rings[p] != [] && ForestOk(AddToRing(g, p, x, s))
  {
    hide Fits; hide Pos.Ok;
    HeadFacts(g, p);
    var g' := AddToRing(g, p, x, s);
    assert LevelOk(g, p) && (x in g.rings[p] ==> ChunkOk(g, p, x));
    InsertMembers(g.rings[p], x);
    forall q | q in g'.rings ensures LevelOk(g', q) {
      assert LevelOk(g, q);
    }
    forall y | y in g'.home ensures HomeOk(g', y) {
      if y != x { assert HomeOk(g, y); }
    }
  }

  lemma TakeFromRingOk(g: Forest, p: Pos, i: nat)
    requires ForestOk(g) && p in g.rings && i < |g.rings[p]| && |g.rings[p]| > 1
    ensures ForestOk(TakeFromRing(g, p, i))
  {
    hide Fits; hide Pos.Ok;
    assert LevelOk(g, p);
    var g', x := TakeFromRing(g, p, i), g.rings[p][i];
    WithoutMembers(g.rings[p], i);
    forall q | q in g'.rings ensures LevelOk(g', q) {
      assert LevelOk(g, q);
      forall y | y in g'.rings[q] ensures ChunkOk(g', q, y) {
        assert ChunkOk(g, q, y) && ChunkOk(g, p, x);
      }
    }
    forall y | y in g'.home ensures HomeOk(g', y) {
      assert HomeOk(g, y);
    }
  }

  ghost predicate IsLeafAt(rings: RingMap, q: Pos) {
    q in rings && q.Child(false) !in rings && q.Child(true) !in rings
  }

  lemma FitsAbove(p: Pos, q: Pos, s: nat)
    requires p.Ok() && q.Ok() && p.Above(q) && Fits(s, q)
    ensures Fits(s, p)
  {
    AboveContains(p, q, s);
  }

  lemma TakeNodeOk(g: Forest, p: Pos, q: Pos)
    requires ForestOk(g) && p in g.rings && |g.rings[p]| == 1 && p.Above(q) && IsLeafAt(g.rings, q)
    ensures ForestOk(TakeNode(g, p, q))
  {
    hide Fits; hide Pos.Ok;
    assert LevelOk(g, p) && LevelOk(g, q);
    var g', x := TakeNode(g, p, q), g.rings[p][0];
    assert ChunkOk(g, p, x);
    forall r | r in g'.rings ensures LevelOk(g', r) {
      if r == p {
        forall y | y in g.rings[q] ensures ChunkOk(g', p, y) {
          assert ChunkOk(g, q, y);
          FitsAbove(p, q, g.sizes[y]);
        }
      } else {
        TakeNodeLevel(g, p, q, r);
      }
    }
    forall y | y in g'.home ensures HomeOk(g', y) {
      assert HomeOk(g, y);
    }
    TakeNodeSizes(g, p, q);
  }

  lemma TakeNodeLevel(g: Forest, p: Pos, q: Pos, r: Pos)
    requires ForestOk(g) && p in g.rings && |g.rings[p]| == 1 && p.Above(q) && IsLeafAt(g.rings, q)
    requires r in g.rings && r != p && r != q
    ensures LevelOk(TakeNode(g, p, q), r)
  {
    hide Fits; hide Pos.Ok;
    var g', x := TakeNode(g, p, q), g.rings[p][0];
    assert LevelOk(g, p) && LevelOk(g, q) && LevelOk(g, r) && ChunkOk(g, p, x);
    assert r.bits != [] ==> r == r.Up().Child(r.bits[|r.bits| - 1]);
    forall y | y in g.rings[r] ensures ChunkOk(g', r, y) {
      assert ChunkOk(g, r, y);
      assert y in g.rings[q] ==> ChunkOk(g, q, y);
    }
  }

  lemma TakeNodeSizes(g: Forest, p: Pos, q: Pos)
    requires ForestOk(g) && p in g.rings && |g.rings[p]| == 1 && IsLeafAt(g.rings, q)
    ensures OneNodePerSize(TakeNode(g, p, q))
  {
    hide Fits; hide Pos.Ok;
    var g' := TakeNode(g, p, q);
    forall y, z | y in g'.home && z in g'.home && y in g'.sizes && z in g'.sizes
      ensures g'.sizes[y] == g'.sizes[z] <==> g'.home[y] == g'.home[z]
    {
      assert HomeOk(g, y) && HomeOk(g, z);
      assert LevelOk(g, q) && LevelOk(g, p);
      assert y in g.rings[q] ==> ChunkOk(g, q, y);
      assert z in g.rings[q] ==> ChunkOk(g, q, z);
    }
  }
}
