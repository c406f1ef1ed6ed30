/** Powers of two as alignments: the bit tricks of the allocators and what they compute. */
module Alignment {
  import opened Words

  /* `(a & (a - 1)) == 0` */
  predicate IsPowerOf2(a: nat) { a > 0 && And(a, a - 1) == 0 }

  lemma {:induction false} Exponent(a: nat) returns (k: nat)
    requires IsPowerOf2(a)
    ensures a == Pow2(k)
  {
    if a % 2 == 0 {
      assert And(a, a - 1) == 2 * And(a / 2, a / 2 - 1);
      k := Exponent(a / 2);
      k := k + 1;
    } else {
      assert a > 1 ==> And(a, a - 1) == 2 * And(a / 2, a / 2);
      if a > 1 { AndSelf(a / 2); }
      k := 0;
    }
  }

  lemma {:induction false} AndSelf(a: nat)
    ensures And(a, a) == a
  {
    if a > 0 { AndSelf(a / 2); }
  }

  lemma {:induction false} Pow2IsPower(k: nat)
    ensures IsPowerOf2(Pow2(k))
  {
    if k > 0 {
      Pow2IsPower(k - 1);
      var a := Pow2(k - 1);
      assert 2 * a / 2 == a && (2 * a - 1) / 2 == a - 1;
    }
  }

  /* And with an even and with an odd mask. */
  lemma EvenAnd(x: nat, m: nat)
    ensures And(x, 2 * m) == 2 * And(x / 2, m)
  {}

  lemma OddAnd(x: nat, m: nat)
    ensures And(x, 2 * m + 1) == 2 * And(x / 2, m) + x % 2
  {}

  /* `x & (a - 1)` */
  lemma {:induction false} LowMask(x: nat, k: nat)
    ensures And(x, Pow2(k) - 1) == x % Pow2(k)
  {
    if k > 0 {
      LowMask(x / 2, k - 1);
      LowStep(x, Pow2(k - 1));
    }
  }

  lemma LowStep(x: nat, a: nat)
    requires a > 0 && And(x / 2, a - 1) == x / 2 % a
    ensures And(x, 2 * a - 1) == x % (2 * a)
  {
    hide And;
    HalveMod(x, a);
    OddAnd(x, a - 1);
  }

  lemma HalveMod(x: nat, a: nat)
    requires a > 0
    ensures x % (2 * a) == 2 * (x / 2 % a) + x % 2
    ensures x / (2 * a) == x / 2 / a
  {
    var q, r := x / 2 / a, x / 2 % a;
    assert x == (2 * a) * q + (2 * r + x % 2);
    DivMod(x, 2 * a, q, 2 * r + x % 2);
  }

  lemma DivMod(x: nat, a: nat, q: nat, r: nat)
    requires a > 0 && r < a && x == a * q + r
    ensures x / a == q && x % a == r
  {
    var d, m := x / a, x % a;
    assert x == a * d + m;
    if q < d { MulGap(q, d, a); }
    if d < q { MulGap(d, q, a); }
  }

  lemma MulGap(q: nat, d: nat, a: nat)
    requires q < d
    ensures a * q + a <= a * d
  {
    MulLe(q + 1, d, a);
  }

  /* `x & -a` on n-bit words */
  lemma {:induction false} HighMask(x: nat, n: nat, k: nat)
    requires k <= n && x < Pow2(n)
    ensures Pow2(n) >= Pow2(k) && And(x, Pow2(n) - Pow2(k)) == x / Pow2(k) * Pow2(k)
  {
    Pow2Monotone(k, n);
    if k == 0 {
      AllOnes(x, n);
    } else {
      Pow2Monotone(k - 1, n - 1);
      HighMask(x / 2, n - 1, k - 1);
      HighStep(x, Pow2(k - 1), Pow2(n - 1) - Pow2(k - 1));
    }
  }

  lemma HighStep(x: nat, a: nat, m: nat)
    requires a > 0 && And(x / 2, m) == x / 2 / a * a
    ensures And(x, 2 * m) == x / (2 * a) * (2 * a)
  {
    hide And;
    EvenAnd(x, m);
    HalveMod(x, a);
  }

  lemma {:induction false} AllOnes(x: nat, n: nat)
    requires x < Pow2(n)
    ensures And(x, Pow2(n) - 1) == x
  {
    if n > 0 {
      AllOnes(x / 2, n - 1);
      OddAnd(x, Pow2(n - 1) - 1);
    }
  }

  /* `(x + a - 1) & -a` */
  function AlignUp(x: nat, a: nat): nat
    requires 0 < a <= W32
  {
    And((x + a - 1) % W32, W32 - a)
  }

  /* The least multiple of a that is at least x. */
  function CeilTo(x: nat, a: nat): nat
    requires a > 0
  {
    (x + a - 1) / a * a
  }

  /* On 32 bits it wraps to zero if it is 2^32. */
  lemma AlignUpWraps(x: nat, a: nat)
    requires IsPowerOf2(a) && x < W32 && a <= W32
    ensures x <= CeilTo(x, a) < x + a && CeilTo(x, a) <= W32 && CeilTo(x, a) % a == 0
    ensures AlignUp(x, a) == if CeilTo(x, a) < W32 then CeilTo(x, a) else 0
  {
    assert a > 0;
    hide And; hide IsPowerOf2;
    Ceiling(x, a);
    if x + a <= W32 {
      AlignUpOk(x, a);
      CeilingIs(x, a, AlignUp(x, a));
    } else {
      WrappedUp(x, a);
    }
  }

  lemma CeilingIs(x: nat, a: nat, r: nat)
    requires a > 0 && x <= r < x + a && r % a == 0
    ensures CeilTo(x, a) == r
  {
    DivModIs(r, a);
    DivMod(x + a - 1, a, r / a, x + a - 1 - r);
  }

  lemma WrappedUp(x: nat, a: nat)
    requires IsPowerOf2(a) && x < W32 < x + a && a <= W32
    ensures CeilTo(x, a) == W32 && AlignUp(x, a) == 0
  {
    assert a > 0;
    DividesWords(a);
    CeilingIs(x, a, W32);
    var y: nat := x + a - 1 - W32;
    DivMod(x + a - 1, W32, 1, y);
    LowWords(y, a);
  }

  lemma DividesWords(a: nat)
    requires IsPowerOf2(a) && a <= W32
    ensures a > 0 && W32 % a == 0
  {
    Pow2Values();
    Pow2IsPower(32);
    hide And;
    Finer(W32, a, W32);
  }

  lemma LowWords(y: nat, a: nat)
    requires IsPowerOf2(a) && y < a <= W32
    ensures And(y, W32 - a) == 0
  {
    Pow2Values();
    hide And;
    var k := Exponent(a);
    if k > 32 { Pow2Monotone(33, k); }
    HighMask(y, 32, k);
    DivMod(y, a, 0, y);
  }

  lemma DivModIs(x: nat, a: nat)
    requires a > 0
    ensures x == a * (x / a) + x % a == x / a * a + x % a
  {}

  lemma AlignUpOk(x: nat, a: nat)
    requires IsPowerOf2(a) && x + a <= W32
    ensures a <= W32 && x <= AlignUp(x, a) < x + a && AlignUp(x, a) % a == 0
    ensures x % a == 0 ==> AlignUp(x, a) == x
  {
    hide And;
    var k := Exponent(a);
    Pow2Values();
    if k > 32 { Pow2Monotone(33, k); }
    HighMask(x + a - 1, 32, k);
    NoWrap(x + a - 1);
    Ceiling(x, a);
  }

  lemma NoWrap(x: nat)
    requires x < W32
    ensures x % W32 == x
  {}

  lemma Ceiling(x: nat, a: nat)
    requires a > 0
    ensures var r := (x + a - 1) / a * a; x <= r < x + a && r % a == 0 && (x % a == 0 ==> r == x)
  {
    var y := x + a - 1;
    var q := y / a;
    assert y == a * q + y % a;
    DivMod(q * a, a, q, 0);
    if x % a == 0 { DivMod(y, a, x / a, a - 1); }
  }

  /* Whether x is a multiple of a, as `(x & (a - 1)) == 0` tells. */
  predicate HasAlignment(x: nat, a: nat)
    requires a > 0
  {
    And(x, a - 1) == 0
  }

  lemma HasAlignmentOk(x: nat, a: nat)
    requires IsPowerOf2(a)
    ensures HasAlignment(x, a) <==> x % a == 0
  {
    var k := Exponent(a);
    LowMask(x, k);
  }

  /* A multiple of a coarser alignment is a multiple of a finer one. */
  lemma Finer(x: nat, a: nat, b: nat)
    requires IsPowerOf2(a) && IsPowerOf2(b) && a <= b && x % b == 0
    ensures x % a == 0 && b % a == 0
  {
    hide IsPowerOf2;
    var j := Exponent(a);
    var k := Exponent(b);
    if j > k { Pow2Monotone(k + 1, j); }
    hide Pow2;
    Pow2Add(j, k - j);
    var c, q := Pow2(k - j), x / b;
    assert b == a * c;
    assert x == a * (c * q) by { assert x == b * q; MulAssoc(a, c, q); }
    DivMod(x, a, c * q, 0);
    DivMod(b, a, c, 0);
  }
}
