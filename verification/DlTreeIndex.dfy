/** The index arithmetic of dlmalloc's treebins: which bin a size belongs to. */
module DlTreeIndex {
  import opened Words

  const NTREEBINS: nat := 32
  const TREEBIN_SHIFT: nat := 8
  const MIN_LARGE_SIZE: nat := 256

  /* One normalizing step of the generic compute_tree_index: `((y - c) >> 16) & (1 << k)`. */
  function NormShift(y: nat, c: nat, k: nat): nat
    requires y < W32 && c < W32
  {
    AndBit(Shr(Sub32(y, c), 16), k)
  }

  /* The branch-free part of compute_tree_index, for 0 < x <= 0xFFFF. */
  function Log2Trick(x: nat): nat
    requires 0 < x <= 0xFFFF
  {
    var n1 := NormShift(x, 0x100, 3);
    var y1 := Shl32(x, n1);
    var k2 := NormShift(y1, 0x1000, 2);
    var y2 := Shl32(y1, k2);
    var k3 := NormShift(y2, 0x4000, 1);
    var y3 := Shl32(y2, k3);
    var n := n1 + k2 + k3;
    if n <= 14 then 14 - n + y3 / 0x8000 else 0
  }

  /* `(K << 1) + ((S >> (K + (TREEBIN_SHIFT-1)) & 1))` */
  function IndexFrom(s: nat, k: nat): nat { 2 * k + AndBit(Shr(s, k + (TREEBIN_SHIFT - 1)), 0) }

  /* The generic compute_tree_index. */
  function TreeIndex(s: nat): nat
    requires s < W32
  {
    var x := s / 0x100;
    if x == 0 then 0
    else if x > 0xFFFF then NTREEBINS - 1
    else IndexFrom(s, Log2Trick(x))
  }

  /* minsize_for_tree_index */
  function MinSize(i: nat): nat {
    Pow2(i / 2 + TREEBIN_SHIFT) + (if i % 2 == 1 then Pow2(i / 2 + TREEBIN_SHIFT - 1) else 0)
  }

  /* leftshift_for_tree_index */
  function LeftShift(i: nat): nat
    requires i < NTREEBINS
  {
    if i == NTREEBINS - 1 then 0 else 31 - (i / 2 + TREEBIN_SHIFT - 2)
  }

  /* The number of size bits that bin i leaves unresolved: the depth bound of its trie. */
  function UnresolvedBits(i: nat): nat
    requires i < NTREEBINS
  {
    32 - LeftShift(i)
  }

  lemma NormShiftValue(y: nat, c: nat, k: nat)
    requires 0 < y <= 0xFFFF && 0 < c <= 0x1_0000 && k <= 3
    ensures NormShift(y, c, k) == if y < c then Pow2(k) else 0
  {
    var x := Sub32(y, c);
    assert Pow2(16) == 0x1_0000 by { Pow2Values(); }
    AndBitMeaning(Shr(x, 16), k);
    if y < c {
      ShrRange(0xFFFF, 0x1_0000, x, 16);
      OddBits(k);
    } else {
      ShrRange(0, 1, x, 16);
      ZeroBits(k);
    }
  }

  lemma OddBits(k: nat)
    requires k <= 3
    ensures Bit(0xFFFF, k)
  {
    assert Bit(0xFFFF, 0) && Bit(0x7FFF, 0) && Bit(0x3FFF, 0) && Bit(0x1FFF, 0);
    assert Bit(0xFFFF, 1) && Bit(0x7FFF, 1) && Bit(0x3FFF, 1);
    assert Bit(0xFFFF, 2) && Bit(0x7FFF, 2);
  }

  /* One step: y is x shifted left n places; afterwards it is x shifted n' places and at least c. */
  lemma NormStep(x: nat, y: nat, n: nat, c: nat, k: nat, p: nat)
    requires 0 < y <= 0xFFFF && 0 < c <= 0x1_0000 && k <= 3 && y == x * Pow2(n)
    requires p == Pow2(Pow2(k)) && p * c == 0x1_0000 && p * y >= c
    ensures var d := NormShift(y, c, k);
            d <= Pow2(k) && c <= Shl32(y, d) <= 0xFFFF && Shl32(y, d) == x * Pow2(n + d)
  {
    NormShiftValue(y, c, k);
    if y < c {
      MulLess(y, c, p);
      ShlExact(x, y, n, Pow2(k));
    } else {
      ShlExact(x, y, n, 0);
    }
  }

  lemma ShlExact(x: nat, y: nat, n: nat, d: nat)
    requires y == x * Pow2(n) && y * Pow2(d) < W32
    ensures Shl32(y, d) == y * Pow2(d) == x * Pow2(n + d)
  {
    Pow2Add(n, d);
    MulAssoc(x, Pow2(n), Pow2(d));
  }

  lemma CancelBounds(x: nat, p: nat, q: nat)
    requires q > 0 && p * q <= x * q < 2 * (p * q)
    ensures p <= x < 2 * p
  {
    if x < p { MulLess(x, p, q); }
    if 2 * p <= x { MulLe(2 * p, x, q); MulAssoc(2, p, q); }
  }

  lemma Log2Bounds(x: nat, n: nat, y: nat)
    requires n <= 14 && y == x * Pow2(n) && 0x4000 <= y <= 0xFFFF
    ensures var k := 14 - n + y / 0x8000; k < 16 && Pow2(k) <= x < 2 * Pow2(k)
  {
    var b := y / 0x8000;
    var k := 14 - n + b;
    Pow2Add(k, n);
    var p, q := Pow2(k), Pow2(n);
    assert p * q == if b == 0 then 0x4000 else 0x8000 by { Pow2Add(8, 6); Pow2Add(8, 7); Pow2Values(); }
    CancelBounds(x, p, q);
  }

  lemma TwoSteps(x: nat, n: nat, y: nat, k: nat, z: nat)
    requires 0 < x <= 0xFFFF && n == NormShift(x, 0x100, 3) && y == Shl32(x, n) && k == NormShift(y, 0x1000, 2)
        && z == Shl32(y, k)
    ensures n <= 8 && k <= 4 && 0x100 <= y <= 0xFFFF && 0x1000 <= z <= 0xFFFF && z == x * Pow2(n + k)
  {
    Pow2Values();
    assert x == x * Pow2(0);
    hide NormShift; hide Shl32; hide Pow2;
    NormStep(x, x, 0, 0x100, 3, 0x100);
    NormStep(x, y, n, 0x1000, 2, 0x10);
  }

  /* The three steps compute floor(log2 x). */
  lemma Log2TrickCorrect(x: nat)
    requires 0 < x <= 0xFFFF
    ensures Log2Trick(x) < 16
    ensures Pow2(Log2Trick(x)) <= x < 2 * Pow2(Log2Trick(x))
  {
    Pow2Values();
    var n1 := NormShift(x, 0x100, 3);
    var y1 := Shl32(x, n1);
    var k2 := NormShift(y1, 0x1000, 2);
    var y2 := Shl32(y1, k2);
    TwoSteps(x, n1, y1, k2, y2);
    NormStep(x, y2, n1 + k2, 0x4000, 1, 4);
    var k3 := NormShift(y2, 0x4000, 1);
    var y3 := Shl32(y2, k3);
    assert n1 + k2 + k3 <= 14 && Log2Trick(x) == 14 - (n1 + k2 + k3) + y3 / 0x8000;
    hide Log2Trick; hide NormShift; hide Shl32; hide Pow2;
    Log2Bounds(x, n1 + k2 + k3, y3);
  }

  lemma MinSizeStep(i: nat)
    ensures MinSize(i + 1) == MinSize(i) + Pow2(i / 2 + TREEBIN_SHIFT - 1)
  {
    if i % 2 == 0 { assert (i + 1) / 2 == i / 2; } else { assert (i + 1) / 2 == i / 2 + 1; }
  }

  lemma {:induction false} MinSizeMonotone(i: nat, j: nat)
    requires i <= j
    ensures MinSize(i) <= MinSize(j)
  {
    if i < j { MinSizeMonotone(i, j - 1); MinSizeStep(j - 1); }
  }

  lemma SecondBit(s: nat, n: nat)
    requires 2 * Pow2(n) <= s < 4 * Pow2(n)
    ensures var b := AndBit(Shr(s, n), 0); b < 2 && (2 + b) * Pow2(n) <= s < (3 + b) * Pow2(n)
  {
    ShrRange(2, 4, s, n);
    ShrBounds(s, n);
    AndBitMeaning(Shr(s, n), 0);
    var q := Shr(s, n);
    assert q == 2 || q == 3;
  }

  lemma BinBounds(k: nat)
    ensures MinSize(2 * k) == 2 * Pow2(k + 7)
    ensures MinSize(2 * k + 1) == 3 * Pow2(k + 7)
    ensures MinSize(2 * k + 2) == 4 * Pow2(k + 7)
  {
    assert (2 * k) / 2 == k && (2 * k) % 2 == 0;
    assert (2 * k + 1) / 2 == k && (2 * k + 1) % 2 == 1;
    assert (2 * k + 2) / 2 == k + 1 && (2 * k + 2) % 2 == 0;
    assert Pow2(k + 8) == 2 * Pow2(k + 7);
    assert Pow2(k + 9) == 2 * Pow2(k + 8);
  }

  lemma MiddleBins(s: nat, k: nat)
    requires Pow2(k) <= s / 0x100 < 2 * Pow2(k) && k < 16
    ensures var i := IndexFrom(s, k); i < NTREEBINS && MinSize(i) <= s < MinSize(i + 1)
  {
    hide Shr; hide AndBit; hide Pow2; hide MinSize;
    assert Pow2(k + 7) == Pow2(k) * 0x80 by { Pow2Add(k, 7); Pow2Values(); }
    Shifted(s, Pow2(k));
    SecondBit(s, k + 7);
    BinBounds(k);
    assert 2 * Pow2(k + 7) <= s < 4 * Pow2(k + 7);
  }

  lemma Shifted(s: nat, p: nat)
    requires p <= s / 0x100 < 2 * p
    ensures 0x100 * p <= s < 0x200 * p
  {}

  lemma LastBin(s: nat)
    requires s / 0x100 > 0xFFFF
    ensures MinSize(31) <= s
  {
    BinBounds(15);
    Pow2Values();
    Pow2Add(16, 6);
    assert Pow2(6) == 64;
  }

  lemma TreeIndexInterval(s: nat)
    requires MIN_LARGE_SIZE <= s < W32
    ensures var i := TreeIndex(s); i < NTREEBINS && MinSize(i) <= s && (i == NTREEBINS - 1 || s < MinSize(i + 1))
  {
    var x := s / 0x100;
    if x <= 0xFFFF {
      var k := Log2Trick(x);
      assert TreeIndex(s) == IndexFrom(s, k);
      assert k < 16 && Pow2(k) <= x < 2 * Pow2(k) by { Log2TrickCorrect(x); }
      MiddleBins(s, k);
    } else {
      LastBin(s);
    }
  }

  /* The bit trick puts a size in bin i exactly when i's interval contains it. */
  lemma TreeIndexCorrect(s: nat, i: nat)
    requires MIN_LARGE_SIZE <= s < W32 && i < NTREEBINS
    ensures TreeIndex(s) == i <==> MinSize(i) <= s && (i == NTREEBINS - 1 || s < MinSize(i + 1))
  {
    TreeIndexInterval(s);
    OneInterval(s, i, TreeIndex(s));
  }

  /* A size has one bin. */
  lemma OneInterval(s: nat, i: nat, j: nat)
    requires i < NTREEBINS && j < NTREEBINS
    requires MinSize(j) <= s && (j == NTREEBINS - 1 || s < MinSize(j + 1))
    ensures j == i <==> MinSize(i) <= s && (i == NTREEBINS - 1 || s < MinSize(i + 1))
  {
    if i < j { MinSizeMonotone(i + 1, j); }
    if j < i { MinSizeMonotone(j + 1, i); }
  }
}
