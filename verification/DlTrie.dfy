/** Positions in the bitwise tries of dlmalloc's treebins.  A position is a bin and the path
    taken from its root (false = child[0], true = child[1]); it stands for an interval of sizes,
    halved at every step down. */
module DlTrie {
  import opened Words
  import opened DlTreeIndex

  datatype Pos = Pos(bin: nat, bits: seq<bool>) {
    predicate Ok() { bin < NTREEBINS && |bits| <= UnresolvedBits(bin) }

    function Child(b: bool): Pos { Pos(bin, bits + [b]) }

    function Up(): Pos
      requires bits != []
    {
      Pos(bin, bits[..|bits| - 1])
    }

    /* Every position at or below this one. */
    predicate Above(q: Pos) { bin == q.bin && bits <= q.bits }
  }

  function Last(p: Pos): bool
    requires p.bits != []
  {
    p.bits[|p.bits| - 1]
  }

  lemma ChildIs(q: Pos, b: bool, p: Pos)
    ensures q.Child(b) == p <==> p.bits != [] && p.Up() == q && Last(p) == b
  {
    if p.bits != [] {
      assert p.bits == p.bits[..|p.bits| - 1] + [Last(p)];
      if q.Child(b) == p { assert q.bits == p.bits[..|p.bits| - 1]; }
    }
  }

  lemma Neighbours(p: Pos)
    ensures Last(p.Child(false)) == false && Last(p.Child(true)) == true
    ensures p.Child(false) != p.Child(true) && p.Child(false) != p && p.Child(true) != p
    ensures p.bits != [] ==> p.Up() != p && p.Up() != p.Child(false) && p.Up() != p.Child(true)
    ensures Root(p.bin) != p.Child(false) && Root(p.bin) != p.Child(true)
  {}

  function Root(i: nat): Pos { Pos(i, []) }

  /* The number of sizes a position stands for. */
  function Span(p: Pos): nat
    requires p.Ok()
  {
    Pow2(UnresolvedBits(p.bin) - |p.bits|)
  }

  /* The smallest of them.  The last bin takes every size from its minimum up, and its trie is
     indexed by all 32 size bits. */
  function Lo(p: Pos): nat
    requires p.Ok()
    decreases |p.bits|
  {
    if p.bits == [] then if p.bin == NTREEBINS - 1 then 0 else MinSize(p.bin)
    else Lo(p.Up()) + if Last(p) then Span(p) else 0
  }

  predicate In(s: nat, p: Pos)
    requires p.Ok()
  {
    Lo(p) <= s < Lo(p) + Span(p)
  }

  /* s is a tree chunk's size and belongs at p or below. */
  predicate Fits(s: nat, p: Pos)
    requires p.Ok()
  {
    MIN_LARGE_SIZE <= s < W32 && TreeIndex(s) == p.bin && In(s, p)
  }

  /* A size of bin i lies in the interval of the bin's root. */
  lemma InRoot(s: nat)
    requires MIN_LARGE_SIZE <= s < W32
    ensures TreeIndex(s) < NTREEBINS && In(s, Root(TreeIndex(s)))
  {
    TreeIndexInterval(s);
    RootInterval(s, TreeIndex(s));
  }

  lemma RootInterval(s: nat, i: nat)
    requires i < NTREEBINS && s < W32 && MinSize(i) <= s && (i == NTREEBINS - 1 || s < MinSize(i + 1))
    ensures In(s, Root(i))
  {
    if i == NTREEBINS - 1 {
      assert Span(Root(i)) == W32 by { Pow2Values(); }
    } else {
      MinSizeStep(i);
    }
  }

  lemma Pow2Halves(u: nat, v: nat)
    requires u == v + 1
    ensures Pow2(u) == 2 * Pow2(v)
  {}

  lemma ChildSpan(p: Pos, b: bool)
    requires p.Ok() && |p.bits| < UnresolvedBits(p.bin)
    ensures p.Child(b).Ok() && Span(p) == 2 * Span(p.Child(b))
  {
    Pow2Halves(UnresolvedBits(p.bin) - |p.bits|, UnresolvedBits(p.bin) - |p.Child(b).bits|);
  }

  lemma LastStep(q: Pos)
    requires q.Ok() && q.bits != []
    ensures Lo(q) == Lo(q.Up()) + if Last(q) then Span(q) else 0
  {}

  lemma ChildAt(p: Pos, b: bool)
    requires p.Ok() && |p.bits| < UnresolvedBits(p.bin)
    ensures p.Child(b).Ok() && p.Child(b).Up() == p
    ensures Span(p) == 2 * Span(p.Child(b))
    ensures Lo(p.Child(b)) == Lo(p) + if b then Span(p.Child(b)) else 0
  {
    ChildSpan(p, b);
    LastStep(p.Child(b));
  }

  lemma ChildSplits(p: Pos, s: nat)
    requires p.Ok() && |p.bits| < UnresolvedBits(p.bin)
    ensures p.Child(false).Ok() && p.Child(true).Ok()
    ensures Span(p) == 2 * Span(p.Child(false)) == 2 * Span(p.Child(true))
    ensures Lo(p.Child(false)) == Lo(p)
    ensures Lo(p.Child(true)) == Lo(p) + Span(p.Child(true))
    ensures In(s, p) <==> In(s, p.Child(false)) || In(s, p.Child(true))
  {
    ChildAt(p, false);
    ChildAt(p, true);
  }

  /* Below a position its interval only shrinks. */
  lemma {:induction false} AboveContains(p: Pos, q: Pos, s: nat)
    requires p.Ok() && q.Ok() && p.Above(q) && In(s, q)
    ensures In(s, p)
    decreases |q.bits|
  {
    if p != q {
      var u := q.Up();
      assert u.Child(Last(q)) == q;
      ChildSplits(u, s);
      AboveContains(p, u, s);
    }
  }

  /* Positions that are not one above the other part at a first differing step. */
  lemma {:induction false} Fork(p: seq<bool>, q: seq<bool>) returns (n: nat)
    requires !(p <= q) && !(q <= p)
    ensures n < |p| && n < |q| && p[..n] == q[..n] && p[n] != q[n]
  {
    if p[0] != q[0] {
      n := 0;
    } else {
      assert p == [p[0]] + p[1..] && q == [q[0]] + q[1..];
      n := Fork(p[1..], q[1..]);
      assert p[..n + 1] == [p[0]] + p[1..][..n] && q[..n + 1] == [q[0]] + q[1..][..n];
      n := n + 1;
    }
  }

  /* Where two paths part, everything on the 0 side is smaller than everything on the 1 side. */
  lemma ForkOrders(c: Pos, p: Pos, q: Pos, s: nat, t: nat)
    requires p.Ok() && q.Ok() && In(s, p) && In(t, q)
    requires c.Child(false).Above(p) && c.Child(true).Above(q)
    ensures s < t
  {
    AboveContains(c.Child(false), p, s);
    AboveContains(c.Child(true), q, t);
    ChildSplits(c, s);
  }

  /* Two positions of a bin that can hold the same size are one above the other. */
  lemma SameSizeComparable(p: Pos, q: Pos, s: nat)
    requires p.Ok() && q.Ok() && p.bin == q.bin && In(s, p) && In(s, q)
    ensures p.Above(q) || q.Above(p)
  {
    if !p.Above(q) && !q.Above(p) {
      var n := Fork(p.bits, q.bits);
      var c := Pos(p.bin, p.bits[..n]);
      assert p.bits[..n + 1] == c.bits + [p.bits[n]] && q.bits[..n + 1] == c.bits + [q.bits[n]];
      if p.bits[n] { ForkOrders(c, q, p, s, s); } else { ForkOrders(c, p, q, s, s); }
    }
  }

  /* ---- the shifted key that steers a walk ---- */

  /* `k` is the word whose top bit is the next size bit to test at position p. */
  predicate KeyAt(k: nat, s: nat, p: Pos)
    requires p.Ok()
  {
    k < W32 && In(s, p) && k * Span(p) == (s - Lo(p)) * W32
  }

  /* `(K >> 31) & 1` */
  predicate TopBit(k: nat) { k / 0x8000_0000 % 2 == 1 }

  lemma RootKey(s: nat)
    requires MIN_LARGE_SIZE <= s < W32
    ensures TreeIndex(s) < NTREEBINS
    ensures KeyAt(Shl32(s, LeftShift(TreeIndex(s))), s, Root(TreeIndex(s)))
  {
    InRoot(s);
    RootKeyAt(s, TreeIndex(s));
  }

  lemma RootKeyAt(s: nat, i: nat)
    requires i < NTREEBINS && In(s, Root(i))
    ensures KeyAt(Shl32(s, LeftShift(i)), s, Root(i))
  {
    var w, p := Span(Root(i)), Pow2(LeftShift(i));
    assert p * w == W32 by { Pow2Add(LeftShift(i), UnresolvedBits(i)); Pow2Values(); }
    var m := RootMultiple(i);
    KeyArith(s, m, w, p);
  }

  lemma RootMultiple(i: nat) returns (m: nat)
    requires i < NTREEBINS
    ensures Lo(Root(i)) == m * Span(Root(i))
  {
    if i == NTREEBINS - 1 {
      m := 0;
    } else {
      m := if i % 2 == 0 then 2 else 3;
      BinBounds(i / 2);
      assert i % 2 == 0 ==> i == 2 * (i / 2);
      assert i % 2 == 1 ==> i == 2 * (i / 2) + 1;
    }
  }

  lemma KeyArith(s: nat, m: nat, w: nat, p: nat)
    requires p * w == W32 && m * w <= s < m * w + w && p > 0
    ensures s * p % W32 * w == (s - m * w) * W32
  {
    var r := s - m * w;
    assert s * p == m * W32 + r * p by {
      assert s * p == (m * w) * p + r * p;
      assert (m * w) * p == m * (p * w);
    }
    MulLess(r, w, p);
    assert r * p < W32;
    ModMultiple(m, r * p);
    assert (r * p) * w == r * (p * w);
  }

  lemma ModMultiple(m: nat, x: nat)
    requires x < W32
    ensures (m * W32 + x) % W32 == x
  {}

  /* The top bit chooses the child whose interval holds the size, and shifting left by one gives
     that child's key. */
  lemma StepKey(k: nat, s: nat, p: Pos)
    requires p.Ok() && |p.bits| < UnresolvedBits(p.bin) && KeyAt(k, s, p)
    ensures p.Child(TopBit(k)).Ok()
    ensures KeyAt(Shl32(k, 1), s, p.Child(TopBit(k)))
  {
    ChildAt(p, TopBit(k));
    StepArith(k, s - Lo(p), Span(p.Child(TopBit(k))));
    assert Pow2(1) == 2;
  }

  lemma StepArith(k: nat, r: nat, h: nat)
    requires h > 0 && k < W32 && r < 2 * h && k * (2 * h) == r * W32
    ensures TopBit(k) <==> r >= h
    ensures (k * 2 % W32) * h == (if r >= h then r - h else r) * W32
  {
    assert (k * h) * 2 == r * W32;
    if k < 0x8000_0000 {
      MulLess(k, 0x8000_0000, h);
    } else {
      MulLe(0x8000_0000, k, h);
      assert k * 2 % W32 == 2 * k - W32;
      assert (2 * k - W32) * h == 2 * (k * h) - W32 * h;
    }
  }
}
