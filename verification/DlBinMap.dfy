/** The 32-bit bin maps of malloc_state (`smallmap`, `treemap`) and the bit tricks used to
    search them.  The bit operations are those of the C macros; the lemmas say what they mean
    for the set of marked bins. */
module DlBinMap {
  import opened Words

  const NBINS: nat := 32

  type BinMap = m: nat | m < W32

  /* idx2bit */
  function Idx2Bit(i: nat): (m: BinMap)
    requires i < NBINS
    ensures m == Pow2(i) > 0
  {
    WordBound();
    Pow2Monotone(i, NBINS - 1);
    Pow2(i)
  }

  /* smallmap_is_marked, treemap_is_marked */
  predicate Marked(m: BinMap, i: nat) { Bit(m, i) }

  lemma WordBound()
    ensures Pow2(NBINS) == W32
  {
    Pow2Values();
  }

  /* mark_smallmap, mark_treemap */
  function MarkBin(m: BinMap, i: nat): (r: BinMap)
    requires i < NBINS
    ensures forall j :: Marked(r, j) <==> i == j || Marked(m, j)
  {
    WordBound();
    OrBound(m, Idx2Bit(i), NBINS);
    assert forall j :: Bit(Or(m, Idx2Bit(i)), j) <==> i == j || Bit(m, j) by {
      forall j ensures Bit(Or(m, Idx2Bit(i)), j) <==> i == j || Bit(m, j) {
        BitOr(m, Idx2Bit(i), j);
        BitPow2(i, j);
      }
    }
    Or(m, Idx2Bit(i))
  }

  /* clear_smallmap, clear_treemap */
  function ClearBin(m: BinMap, i: nat): (r: BinMap)
    requires i < NBINS
    ensures forall j :: Marked(r, j) <==> i != j && Marked(m, j)
  {
    AndBound(m, Idx2Bit(i));
    assert forall j :: Bit(AndNot(m, Idx2Bit(i)), j) <==> i != j && Bit(m, j) by {
      forall j ensures Bit(AndNot(m, Idx2Bit(i)), j) <==> i != j && Bit(m, j) {
        BitAndNot(m, Idx2Bit(i), j);
        BitPow2(i, j);
      }
    }
    AndNot(m, Idx2Bit(i))
  }

  /* Unsigned negation. */
  function Neg32(x: nat): nat
    requires x < W32
  {
    if x == 0 then 0 else W32 - x
  }

  /* least_bit */
  function LeastBit(x: BinMap): nat { And(x, Neg32(x)) }

  /* left_bits */
  function LeftBits(x: BinMap): nat { Or(Shl32(x, 1), Neg32(Shl32(x, 1))) }

  /* The generic compute_bit2idx, whose five unrolled steps have b = 4, 3, 2, 1, 0:
     `K = Y >> ((1 << b) - b) & (1 << b); N += K; Y >>= K`. */
  function Bit2Idx(x: nat): nat
    requires x > 0
  {
    Halvings(x - 1, 4)
  }

  function Halvings(y: nat, b: nat): nat
    requires b <= 4
    decreases b
  {
    var k := Halving(y, b);
    k + if b == 0 then Shr(y, k) else Halvings(Shr(y, k), b - 1)
  }

  function Halving(y: nat, b: nat): nat
    requires b <= 4
  {
    Pow2Exceeds(b);
    AndBit(Shr(y, Pow2(b) - b), b)
  }

  lemma {:induction false} Pow2Exceeds(b: nat)
    ensures Pow2(b) > b
  {
    if b > 0 { Pow2Exceeds(b - 1); }
  }

  /* One step, on a word of n ones: it takes off Pow2(b) ones if there are more. */
  lemma HalvingStep(n: nat, b: nat)
    requires b <= 4
    ensures var k := Halving(Pow2(n) - 1, b);
            k == (if n > Pow2(b) then Pow2(b) else 0) && Shr(Pow2(n) - 1, k) == Pow2(n - k) - 1
  {
    Pow2Exceeds(b);
    var y, s := Pow2(n) - 1, Pow2(b) - b;
    AndBitMeaning(Shr(y, s), b);
    BitShr(y, s, b);
    BitNegPow2(n, 0, s + b);
    ShrOnes(n, Halving(y, b));
  }

  lemma {:induction false} HalvingsCount(n: nat, b: nat)
    requires b <= 4 && n <= 2 * Pow2(b)
    ensures Halvings(Pow2(n) - 1, b) == n
  {
    HalvingStep(n, b);
    if b > 0 { HalvingsCount(n - Halving(Pow2(n) - 1, b), b - 1); }
  }

  lemma Bit2IdxInverse(i: nat)
    requires i < NBINS
    ensures Bit2Idx(Idx2Bit(i)) == i
  {
    assert Pow2(4) == 16 by { Pow2Values(); }
    HalvingsCount(i, 4);
  }

  /* The search of dlmalloc for the marked bins to the left of idx. */
  function LeftOf(m: BinMap, idx: nat): (r: BinMap)
    requires idx < NBINS
  {
    AndBound(m, LeftBits(Idx2Bit(idx)));
    AndCommutes(LeftBits(Idx2Bit(idx)), m);
    And(LeftBits(Idx2Bit(idx)), m)
  }

  lemma ShlBit(i: nat)
    requires i < NBINS
    ensures Shl32(Idx2Bit(i), 1) == if i == NBINS - 1 then 0 else Pow2(i + 1)
  {
    WordBound();
    assert Pow2(1) == 2 && Pow2(i) * 2 == Pow2(i + 1);
    if i < NBINS - 1 {
      Pow2Monotone(i + 1, NBINS - 1);
      assert Pow2(i + 1) < W32;
    }
  }

  lemma LeftBitsMeaning(i: nat, j: nat)
    requires i < NBINS
    ensures Bit(LeftBits(Idx2Bit(i)), j) <==> i < j < NBINS
  {
    ShlBit(i);
    WordBound();
    if i == NBINS - 1 {
      ZeroBits(j);
    } else {
      BitOr(Pow2(i + 1), W32 - Pow2(i + 1), j);
      BitPow2(i + 1, j);
      BitNegPow2(NBINS, i + 1, j);
    }
  }

  lemma LeftOfMeaning(m: BinMap, idx: nat, j: nat)
    requires idx < NBINS
    ensures Marked(LeftOf(m, idx), j) <==> idx < j < NBINS && Marked(m, j)
  {
    BitAnd(LeftBits(Idx2Bit(idx)), m, j);
    LeftBitsMeaning(idx, j);
  }

  /* The least marked bin, found without a loop. */
  lemma LeastMarked(m: BinMap)
    requires m != 0
    ensures LeastBit(m) > 0
    ensures var i := Bit2Idx(LeastBit(m)); i < NBINS && Marked(m, i) && forall k | 0 <= k < i :: !Marked(m, k)
  {
    WordBound();
    var i := SomeBit(m, NBINS);
    AndNegation(m, NBINS, i);
    Bit2IdxInverse(i);
  }

  lemma EmptyMap(m: BinMap)
    ensures m == 0 <==> forall i | 0 <= i < NBINS :: !Marked(m, i)
  {
    if m == 0 {
      forall i ensures !Marked(m, i) { ZeroBits(i); }
    } else {
      LeastMarked(m);
    }
  }

  /* `smallbits & 0x3` looks at bins idx and idx + 1. */
  lemma LowTwoBits(m: BinMap, idx: nat)
    ensures And(Shr(m, idx), 3) != 0 <==> Marked(m, idx) || Marked(m, idx + 1)
    ensures Shr(m, idx) % 2 == 1 <==> Marked(m, idx)
  {
    var x := Shr(m, idx);
    BitShr(m, idx, 0);
    BitShr(m, idx, 1);
    assert Bit(x, 1) == Bit(x / 2, 0);
    if x != 0 {
      assert And(x, 3) == 2 * And(x / 2, 1) + Digit(x % 2 == 1);
      if x / 2 != 0 { assert And(x / 2, 1) == 2 * And(x / 2 / 2, 0) + Digit(x / 2 % 2 == 1); }
    }
  }

  lemma {:induction false} BitShl(x: nat, k: nat, j: nat)
    ensures Bit(x * Pow2(k), j) <==> j >= k && Bit(x, j - k)
  {
    if k > 0 {
      var y := x * Pow2(k - 1);
      assert x * Pow2(k) == 2 * y;
      assert 2 * y / 2 == y;
      if j > 0 { BitShl(x, k - 1, j - 1); }
    }
  }

  /* `(smallbits << idx) & left_bits(idx2bit(idx))`: the marked bins beyond idx. */
  function LeftInSmall(m: BinMap, idx: nat): (r: BinMap)
    requires idx < NBINS
  {
    AndBound(Shl32(Shr(m, idx), idx), LeftBits(Idx2Bit(idx)));
    And(Shl32(Shr(m, idx), idx), LeftBits(Idx2Bit(idx)))
  }

  lemma ShiftBack(m: BinMap, idx: nat, j: nat)
    ensures Bit(Shl32(Shr(m, idx), idx), j) <==> idx <= j && Bit(m, j)
  {
    var x := Shr(m, idx);
    ShrBounds(m, idx);
    NoLoss(x * Pow2(idx));
    BitShl(x, idx, j);
    if j >= idx { BitShr(m, idx, j - idx); }
    hide Shr; hide Bit;
  }

  lemma NoLoss(x: nat)
    requires x < W32
    ensures x % W32 == x
  {}

  lemma LeftInSmallMeaning(m: BinMap, idx: nat, j: nat)
    requires idx < NBINS
    ensures Marked(LeftInSmall(m, idx), j) <==> idx < j < NBINS && Marked(m, j)
  {
    BitAnd(Shl32(Shr(m, idx), idx), LeftBits(Idx2Bit(idx)), j);
    LeftBitsMeaning(idx, j);
    ShiftBack(m, idx, j);
  }

  lemma WordNonZero(m: BinMap, k: nat) returns (j: nat)
    requires Shr(m, k) != 0
    ensures k <= j < NBINS && Marked(m, j)
  {
    assert Shr(m, k) <= m by {
      ShrBounds(m, k);
      MulLe(1, Pow2(k), Shr(m, k));
    }
    WordBound();
    var i := SomeBit(Shr(m, k), NBINS);
    BitShr(m, k, i);
    j := k + i;
    if j >= NBINS { HighBitsClear(m, NBINS, j); }
  }

  lemma {:induction false} HighBitsClear(m: nat, n: nat, i: nat)
    requires m < Pow2(n) && n <= i
    ensures !Bit(m, i)
  {
    if n == 0 { ZeroBits(i); } else { HighBitsClear(m / 2, n - 1, i - 1); }
  }
}
