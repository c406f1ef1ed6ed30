/** The smallbins of malloc_state: per chunk size a circular list through a header, and a bin map
    telling which lists are in use.  When a bin's bit is clear its header links are stale. */
module DlSmallBins {
  import opened Words
  import opened DlChunk
  import opened DlBinMap
  import opened Rings


  const SMALL_LIMIT: nat := 256

  /* small_index, small_index2size */
  function SmallIndex(s: nat): nat { s / 8 }

  function SmallSize(i: nat): nat { 8 * i }

  /* A link leads to a chunk or to a bin header. */
  datatype SNode = Hdr(i: nat) | Chk(p: Ptr)

  /** The lists of the marked bins, header first, and the sizes of the chunks on them. */
  datatype Lists = Lists(rings: map<nat, seq<SNode>>, sizes: map<Ptr, nat>)

  ghost predicate MemberOk(g: Lists, i: nat, x: SNode) {
    x.Chk? && x.p != 0 && x.p in g.sizes && g.sizes[x.p] == SmallSize(i)
  }

  ghost predicate BinOk(g: Lists, i: nat)
    requires i in g.rings
  {
    var r := g.rings[i];
    && i < NBINS && |r| >= 2 && NoDup(r) && r[0] == Hdr(i)
    && forall x | x in r && x != Hdr(i) :: MemberOk(g, i, x)
  }

  ghost predicate Listed(g: Lists, p: Ptr)
    requires p in g.sizes
  {
    var i := SmallIndex(g.sizes[p]);
    g.sizes[p] == SmallSize(i) && i in g.rings && Chk(p) in g.rings[i]
  }

  ghost predicate ListsOk(g: Lists) {
    && (forall i {:trigger BinOk(g, i)} | i in g.rings :: BinOk(g, i))
    && (forall p {:trigger Listed(g, p)} | p in g.sizes :: Listed(g, p))
  }

  ghost predicate ListsDrawn(m: BinMap, fd: map<SNode, SNode>, bk: map<SNode, SNode>, g: Lists) {
    && (forall i | 0 <= i < NBINS :: Marked(m, i) <==> i in g.rings)
    && (forall i {:trigger IsRing(fd, bk, g.rings[i])} | i in g.rings :: IsRing(fd, bk, g.rings[i]))
  }

  function Put(g: Lists, p: Ptr, s: nat): Lists {
    var i := SmallIndex(s);
    Lists(g.rings[i := if i in g.rings && g.rings[i] != [] then InsertSecond(g.rings[i], Chk(p)) else [Hdr(i), Chk(p)]],
          g.sizes[p := s])
  }

  /* Chunk k of bin i leaves; a list left with its header alone is no longer in use. */
  function Take(g: Lists, i: nat, k: nat): Lists
    requires i in g.rings && k < |g.rings[i]| && g.rings[i][k].Chk?
  {
    Lists(if |g.rings[i]| == 2 then g.rings - {i} else g.rings[i := Without(g.rings[i], k)],
          g.sizes - {g.rings[i][k].p})
  }

  lemma PutOk(g: Lists, p: Ptr, s: nat)
    requires ListsOk(g) && p != 0 && p !in g.sizes && s == SmallSize(SmallIndex(s)) < SMALL_LIMIT
    ensures ListsOk(Put(g, p, s))
  {
    var g', i := Put(g, p, s), SmallIndex(s);
    if i in g.rings {
      assert BinOk(g, i);
      assert Chk(p) in g.rings[i] ==> MemberOk(g, i, Chk(p));
      InsertMembers(g.rings[i], Chk(p));
    }
    forall j | j in g'.rings ensures BinOk(g', j) {
      if j in g.rings { assert BinOk(g, j); }
    }
    forall q | q in g'.sizes ensures Listed(g', q) {
      if q != p { assert Listed(g, q); }
    }
  }

  lemma TakeOk(g: Lists, i: nat, k: nat)
    requires ListsOk(g) && i in g.rings && 0 < k < |g.rings[i]|
    ensures g.rings[i][k].Chk? && ListsOk(Take(g, i, k))
  {
    assert BinOk(g, i);
    var r := g.rings[i];
    assert r[k] in r && MemberOk(g, i, r[k]);
    var g', p := Take(g, i, k), r[k].p;
    WithoutMembers(r, k);
    forall j | j in g'.rings ensures BinOk(g', j) {
      assert BinOk(g, j);
      forall x | x in g'.rings[j] && x != Hdr(j) ensures MemberOk(g', j, x) {
        assert MemberOk(g, j, x);
      }
    }
    forall q | q in g'.sizes ensures Listed(g', q) {
      assert Listed(g, q);
      assert |r| == 2 ==> forall x | x in r :: x == Hdr(i) || x == r[k];
    }
  }

  lemma Separate(g: Lists, i: nat, j: nat, x: SNode)
    requires ListsOk(g) && i in g.rings && j in g.rings && x in g.rings[i] && x in g.rings[j]
    ensures i == j
  {
    assert BinOk(g, i) && BinOk(g, j);
    assert x != Hdr(i) ==> MemberOk(g, i, x);
    assert x != Hdr(j) ==> MemberOk(g, j, x);
  }

  /* The links of bin i change; those of the other bins do not. */
  lemma OthersDrawn(m: BinMap, fd: map<SNode, SNode>, bk: map<SNode, SNode>, fd': map<SNode, SNode>, bk': map<SNode,
      SNode>,
                    g: Lists, i: nat, touched: set<SNode>, j: nat)
    requires ListsDrawn(m, fd, bk, g) && ListsOk(g) && j in g.rings && j != i
    requires forall x | x in fd && x !in touched :: x in fd' && fd'[x] == fd[x]
    requires forall x | x in bk && x !in touched :: x in bk' && bk'[x] == bk[x]
    requires forall x | x in touched :: x == Hdr(i) || (i in g.rings && x in g.rings[i]) || (x.Chk? && x.p !in g.sizes)
    ensures IsRing(fd', bk', g.rings[j])
  {
    assert BinOk(g, j);
    forall x | x in g.rings[j] ensures x !in touched {
      assert x != Hdr(j) ==> MemberOk(g, j, x);
      if i in g.rings && x in g.rings[i] { Separate(g, i, j, x); }
    }
    RingFrameAt(fd, bk, fd', bk', g.rings[j], touched);
  }

  lemma PutDraws(m: BinMap, fd: map<SNode, SNode>, bk: map<SNode, SNode>, g: Lists, p: Ptr, s: nat, f: SNode)
    requires ListsOk(g) && ListsDrawn(m, fd, bk, g) && p !in g.sizes && SmallIndex(s) < NBINS
    requires var b := Hdr(SmallIndex(s)); if Marked(m, SmallIndex(s)) then b in fd && f == fd[b] else f == b
    ensures var b, c := Hdr(SmallIndex(s)), Chk(p);
            ListsDrawn(if Marked(m, SmallIndex(s)) then m else MarkBin(m, SmallIndex(s)), fd[b := c][c := f],
              bk[f := c][c := b], Put(g, p, s))
  {
    hide ListsOk;
    var i, g' := SmallIndex(s), Put(g, p, s);
    var b, c := Hdr(i), Chk(p);
    var fd': map<SNode, SNode> := fd[b := c][c := f];
    var bk': map<SNode, SNode> := bk[f := c][c := b];
    if i in g.rings {
      OneBin(g, i, p);
      LinksOf(fd, bk, g.rings[i], 0);
      RingInsert(fd, bk, g.rings[i], c);
    } else {
      assert LinkedAt(fd', bk', [b, c], 0) && LinkedAt(fd', bk', [b, c], 1);
    }
    forall j | j in g'.rings ensures IsRing(fd', bk', g'.rings[j]) {
      if j != i { OthersDrawn(m, fd, bk, fd', bk', g, i, {b, c, f}, j); }
    }
  }

  lemma OneBin(g: Lists, i: nat, p: Ptr)
    requires ListsOk(g) && i in g.rings
    ensures BinOk(g, i) && (p !in g.sizes ==> Chk(p) !in g.rings[i])
  {
    assert BinOk(g, i);
    assert Chk(p) in g.rings[i] ==> MemberOk(g, i, Chk(p));
  }

  lemma TakeDraws(m: BinMap, fd: map<SNode, SNode>, bk: map<SNode, SNode>, g: Lists, i: nat, k: nat)
    requires ListsOk(g) && ListsDrawn(m, fd, bk, g) && i in g.rings && 0 < k < |g.rings[i]| && i < NBINS
        && g.rings[i][k].Chk?
    requires g.rings[i][k] in fd && g.rings[i][k] in bk
    ensures var c, g' := g.rings[i][k], Take(g, i, k);
            if fd[c] == bk[c] then ListsDrawn(ClearBin(m, i), fd, bk, g')
            else ListsDrawn(m, fd[bk[c] := fd[c]], bk[fd[c] := bk[c]], g')
  {
    hide ListsOk;
    var c, g' := g.rings[i][k], Take(g, i, k);
    OneBin(g, i, 0);
    LinksOf(fd, bk, g.rings[i], k);
    if fd[c] != bk[c] {
      RingRemove(fd, bk, g.rings[i], k);
      var fd': map<SNode, SNode> := fd[bk[c] := fd[c]];
      var bk': map<SNode, SNode> := bk[fd[c] := bk[c]];
      forall j | j in g'.rings ensures IsRing(fd', bk', g'.rings[j]) {
        if j != i { OthersDrawn(m, fd, bk, fd', bk', g, i, {fd[c], bk[c]}, j); }
      }
    }
  }

  class SmallBins {
    var smallmap: BinMap
    var fd: map<SNode, SNode>
    var bk: map<SNode, SNode>
    ghost var lists: Lists

    ghost predicate Valid() reads this {
      ListsOk(lists) && ListsDrawn(smallmap, fd, bk, lists)
    }

    ghost function Sizes(): map<Ptr, nat> reads this { lists.sizes }

    /* No bin from idx on is in use. */
    lemma NoneFrom(idx: nat)
      requires Valid() && Shr(smallmap, idx) == 0
      ensures forall p | p in Sizes() :: Sizes()[p] < SmallSize(idx)
    {
      forall p | p in Sizes() ensures Sizes()[p] < SmallSize(idx) {
        assert Listed(lists, p);
        var i := SmallIndex(Sizes()[p]);
        assert BinOk(lists, i);
        assert Marked(smallmap, i);
        if i >= idx {
          BitShr(smallmap, idx, i - idx);
          ZeroBits(i - idx);
        }
      }
    }

    /* A bin that is not in use has no chunks. */
    lemma Unused(i: nat)
      requires Valid() && i < NBINS && !Marked(smallmap, i)
      ensures forall p | p in Sizes() :: Sizes()[p] != SmallSize(i)
    {
      forall p | p in Sizes() ensures Sizes()[p] != SmallSize(i) {
        assert Listed(lists, p);
      }
    }

    /* init_bins */
    constructor ()
      ensures Valid() && Sizes() == map[]
    {
      smallmap := 0;
      fd := map i: nat | i < NBINS :: Hdr(i) := Hdr(i);
      bk := map i: nat | i < NBINS :: Hdr(i) := Hdr(i);
      lists := Lists(map[], map[]);
      new;
      EmptyMap(smallmap);
    }

    /* insert_small_chunk */
    method Insert(p: Ptr, s: nat)
      requires Valid() && p != 0 && p !in Sizes() && s == SmallSize(SmallIndex(s)) && MIN_CHUNK_SIZE <= s < SMALL_LIMIT
      modifies this
      ensures Valid() && Sizes() == old(Sizes())[p := s]
      ensures Hdr(SmallIndex(s)) in fd && fd[Hdr(SmallIndex(s))] == Chk(p)
    {
      hide ListsDrawn; hide Marked;
      ghost var g := lists;
      var i := SmallIndex(s);
      var b, c := Hdr(i), Chk(p);
      var f := b;
      BinLinks(i);
      if Marked(smallmap, i) { f := fd[b]; }
      PutDraws(smallmap, fd, bk, g, p, s, f);
      PutOk(g, p, s);
      if !Marked(smallmap, i) { smallmap := MarkBin(smallmap, i); }
      fd := fd[b := c];
      bk := bk[f := c];
      fd := fd[c := f];
      bk := bk[c := b];
      lists := Put(g, p, s);
    }

    /* unlink_small_chunk, whose bin follows from the chunk's size */
    method Unlink(p: Ptr, s: nat)
      requires Valid() && p in Sizes() && Sizes()[p] == s
      modifies this
      ensures Valid() && Sizes() == old(Sizes()) - {p}
    {
      hide ListsDrawn;
      ghost var k := ChunkLinks(p);
      var f, b, i := fd[Chk(p)], bk[Chk(p)], SmallIndex(s);
      TakeDraws(smallmap, fd, bk, lists, i, k);
      TakeOk(lists, i, k);
      lists := Take(lists, i, k);
      if b == f {
        smallmap := ClearBin(smallmap, i);
      } else {
        bk := bk[f := b];
        fd := fd[b := f];
      }
    }

    /* `p = b->fd` and unlink_first_small_chunk, in a marked bin */
    method UnlinkFirst(i: nat) returns (p: Ptr)
      requires Valid() && i < NBINS && Marked(smallmap, i)
      modifies this
      ensures Valid() && p in old(Sizes()) && old(Sizes())[p] == SmallSize(i) && Sizes() == old(Sizes()) - {p}
      ensures Hdr(i) in old(fd) && old(fd)[Hdr(i)] == Chk(p)
    {
      hide ListsDrawn; hide Marked;
      var b := Hdr(i);
      BinLinks(i);
      p := fd[b].p;
      ghost var k := ChunkLinks(p);
      var f := fd[Chk(p)];
      TakeDraws(smallmap, fd, bk, lists, i, k);
      TakeOk(lists, i, k);
      lists := Take(lists, i, k);
      if b == f {
        smallmap := ClearBin(smallmap, i);
      } else {
        bk := bk[f := b];
        fd := fd[b := f];
      }
    }

    lemma BinLinks(i: nat)
      requires Valid() && i < NBINS
      ensures Marked(smallmap, i) <==> i in lists.rings
      ensures i in lists.rings ==>
        && Hdr(i) in fd && fd[Hdr(i)].Chk? && fd[Hdr(i)].p in Sizes() && Sizes()[fd[Hdr(i)].p] == SmallSize(i)
        && fd[Hdr(i)] in bk && bk[fd[Hdr(i)]] == Hdr(i)
    {
      if i in lists.rings {
        assert BinOk(lists, i);
        var r := lists.rings[i];
        LinksOf(fd, bk, r, 0);
        LinksOf(fd, bk, r, 1);
        assert r[1] in r && r[1] != Hdr(i) && MemberOk(lists, i, r[1]);
      }
    }

    /* Where a listed chunk stands in its bin. */
    lemma ChunkLinks(p: Ptr) returns (k: nat)
      requires Valid() && p in Sizes()
      ensures var i := SmallIndex(Sizes()[p]);
              && i < NBINS && Sizes()[p] == SmallSize(i)
              && i in lists.rings && 0 < k < |lists.rings[i]| && lists.rings[i][k] == Chk(p)
              && Chk(p) in fd && Chk(p) in bk
    {
      assert Listed(lists, p);
      var i := SmallIndex(Sizes()[p]);
      assert BinOk(lists, i);
      k :| 0 <= k < |lists.rings[i]| && lists.rings[i][k] == Chk(p);
      LinksOf(fd, bk, lists.rings[i], k);
    }
  }
}
