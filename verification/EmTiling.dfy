/** Every block of emmalloc is tiled by its regions, from its root region to its end sentinel. */
module EmTiling {
  import opened EmShape
  import opened EmHeap

  /* Every address of a block lies in exactly one region, and that region lies in the block. */
  lemma BlockTiled(h: Heap, w: Bounds, i: nat, x: nat) returns (p: nat)
    requires HeapOk(h, w) && i < |h.blocks| && h.blocks[i].start <= x < h.blocks[i].end
    ensures p in h.shape && p <= x < End(h.shape, p) && h.blocks[i].start <= p && End(h.shape, p) <= h.blocks[i].end
    ensures forall q: nat {:trigger End(h.shape, q)} | q in h.shape && q <= x < End(h.shape, q) :: q == p
  {
    assert BlockOk(h.mem, h.shape, h.blocks, i);
    assert RegOk(h.shape, h.blocks[i].end - REGION_SIZE);
    p := RegionAt(h, w, i, h.blocks[i].end - REGION_SIZE, x);
    forall q: nat | q in h.shape && q <= x < End(h.shape, q) ensures q == p { if q != p { Disjoint(h.shape, p, q); } }
  }

  /* The search goes backwards, from region q of the block. */
  lemma {:induction false} RegionAt(h: Heap, w: Bounds, i: nat, q: nat, x: nat) returns (p: nat)
    requires HeapOk(h, w) && i < |h.blocks| && q in h.shape && h.blocks[i].start <= q
        && End(h.shape, q) <= h.blocks[i].end
    requires h.blocks[i].start <= x < End(h.shape, q)
    ensures p in h.shape && p <= x < End(h.shape, p) && h.blocks[i].start <= p && End(h.shape, p) <= h.blocks[i].end
    decreases q
  {
    p := q;
    if x < q {
      var b := h.shape[q].prev;
      assert RegOk(h.shape, q);
      Before(h, w, i, q);
      p := RegionAt(h, w, i, b, x);
    }
  }

  /* Blocks do not overlap. */
  lemma SameBlock(h: Heap, w: Bounds, i: nat, j: nat, q: nat)
    requires HeapOk(h, w) && i < |h.blocks| && j < |h.blocks|
    requires h.blocks[i].start <= q < h.blocks[i].end && h.blocks[j].start <= q < h.blocks[j].end
    ensures i == j
  {}

  /* Only the first region of a block is a root. */
  lemma RootIs(h: Heap, w: Bounds, i: nat, q: nat)
    requires HeapOk(h, w) && i < |h.blocks| && q in h.shape && h.shape[q].kind == Root
        && h.blocks[i].start <= q < h.blocks[i].end
    ensures q == h.blocks[i].start
  {
    assert RootListed(h.blocks, q);
    var j: nat :| j < |h.blocks| && h.blocks[j].start == q;
    assert BlockOk(h.mem, h.shape, h.blocks, j);
    SameBlock(h, w, i, j, q);
  }

  lemma Before(h: Heap, w: Bounds, i: nat, q: nat)
    requires HeapOk(h, w) && i < |h.blocks| && q in h.shape && h.blocks[i].start < q < h.blocks[i].end
    ensures var b := h.shape[q].prev; b in h.shape && b < q && End(h.shape, b) == q && h.blocks[i].start <= b
  {
    if h.shape[q].kind == Root { RootIs(h, w, i, q); }
    assert RegOk(h.shape, q);
    var b, r := h.shape[q].prev, h.blocks[i].start;
    assert RegOk(h.shape, b);
    assert BlockOk(h.mem, h.shape, h.blocks, i);
    if b < r { Inside(h.shape, b, r); }
  }

  /* Every region lies in a block. */
  lemma {:induction false} RegionBlock(h: Heap, w: Bounds, p: nat) returns (i: nat)
    requires HeapOk(h, w) && p in h.shape
    ensures i < |h.blocks| && h.blocks[i].start <= p && End(h.shape, p) <= h.blocks[i].end
    decreases p
  {
    assert RegOk(h.shape, p);
    if h.shape[p].kind == Root {
      assert RootListed(h.blocks, p);
      i :| i < |h.blocks| && h.blocks[i].start == p;
    } else {
      var b := h.shape[p].prev;
      assert RegOk(h.shape, b);
      i := RegionBlock(h, w, b);
    }
    assert BlockOk(h.mem, h.shape, h.blocks, i);
    var t := h.blocks[i].end - REGION_SIZE;
    assert RegOk(h.shape, t);
    if p != t { Disjoint(h.shape, p, t); }
    if h.shape[p].kind != Root { Disjoint(h.shape, h.shape[p].prev, t); }
  }
}
