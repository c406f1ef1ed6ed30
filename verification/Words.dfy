/** Powers of two and 32-bit words held in `nat`s. */
module Words {

  const W32: nat := 0x1_0000_0000

  function Pow2(k: nat): (r: nat)
    ensures r >= 1
  {
    if k == 0 then 1 else 2 * Pow2(k - 1)
  }

  lemma {:induction false} Pow2Add(a: nat, b: nat)
    ensures Pow2(a + b) == Pow2(a) * Pow2(b)
  {
    if a > 0 {
      Pow2Add(a - 1, b);
      assert Pow2(a + b) == 2 * Pow2(a - 1 + b) == 2 * (Pow2(a - 1) * Pow2(b));
    }
  }

  lemma {:induction false} Pow2Monotone(a: nat, b: nat)
    requires a <= b
    ensures Pow2(a) <= Pow2(b)
  {
    if a < b { Pow2Monotone(a, b - 1); }
  }

  lemma {:induction false} MulLe(a: nat, b: nat, q: nat)
    requires a <= b
    ensures a * q <= b * q
  {
    if a < b {
      MulLe(a, b - 1, q);
      assert b * q == (b - 1) * q + q;
    }
  }

  lemma MulLess(a: nat, b: nat, q: nat)
    requires a < b && q > 0
    ensures a * q < b * q
  {
    MulLe(a + 1, b, q);
    assert (a + 1) * q == a * q + q;
  }

  lemma MulAssoc(a: nat, b: nat, c: nat)
    ensures (a * b) * c == a * (b * c)
  {}

  lemma Pow2Values()
    ensures Pow2(1) == 2 && Pow2(2) == 4 && Pow2(3) == 8 && Pow2(4) == 16
    ensures Pow2(7) == 0x80 && Pow2(8) == 0x100 && Pow2(16) == 0x1_0000 && Pow2(24) == 0x100_0000
    ensures Pow2(31) == 0x8000_0000 && Pow2(32) == W32
  {
    assert Pow2(4) == 16;
    assert Pow2(8) == 0x100 by { Pow2Add(4, 4); }
    Pow2Add(8, 8);
    Pow2Add(16, 8);
    Pow2Add(16, 16);
  }

  /* Unsigned 32-bit subtraction, with its wrap-around. */
  function Sub32(a: nat, b: nat): (r: nat)
    requires a < W32 && b < W32
    ensures r < W32
  {
    if a >= b then a - b else W32 + a - b
  }

  /* Unsigned 32-bit left shift: bits shifted past the top are lost. */
  function Shl32(a: nat, k: nat): nat { a * Pow2(k) % W32 }

  /* ---- bitwise operations on words ---- */

  predicate Bit(a: nat, i: nat) {
    if i == 0 then a % 2 == 1 else Bit(a / 2, i - 1)
  }

  function Digit(b: bool): nat { if b then 1 else 0 }

  function And(a: nat, b: nat): nat {
    if a == 0 || b == 0 then 0 else 2 * And(a / 2, b / 2) + Digit(a % 2 == 1 && b % 2 == 1)
  }

  function Or(a: nat, b: nat): nat {
    if a == 0 then b else if b == 0 then a else 2 * Or(a / 2, b / 2) + Digit(a % 2 == 1 || b % 2 == 1)
  }

  /* a & ~b */
  function AndNot(a: nat, b: nat): nat {
    if a == 0 || b == 0 then a else 2 * AndNot(a / 2, b / 2) + Digit(a % 2 == 1 && b % 2 == 0)
  }

  lemma {:induction false} ZeroBits(i: nat)
    ensures !Bit(0, i)
  {
    if i > 0 { ZeroBits(i - 1); }
  }

  lemma {:induction false} BitAnd(a: nat, b: nat, i: nat)
    ensures Bit(And(a, b), i) <==> Bit(a, i) && Bit(b, i)
  {
    ZeroBits(i);
    if a != 0 && b != 0 && i > 0 {
      BitAnd(a / 2, b / 2, i - 1);
      assert And(a, b) / 2 == And(a / 2, b / 2);
    }
  }

  lemma {:induction false} AndCommutes(a: nat, b: nat)
    ensures And(a, b) == And(b, a)
  {
    if a != 0 && b != 0 { AndCommutes(a / 2, b / 2); }
  }

  lemma {:induction false} BitOr(a: nat, b: nat, i: nat)
    ensures Bit(Or(a, b), i) <==> Bit(a, i) || Bit(b, i)
  {
    ZeroBits(i);
    if a != 0 && b != 0 && i > 0 {
      BitOr(a / 2, b / 2, i - 1);
      assert Or(a, b) / 2 == Or(a / 2, b / 2);
    }
  }

  lemma {:induction false} BitAndNot(a: nat, b: nat, i: nat)
    ensures Bit(AndNot(a, b), i) <==> Bit(a, i) && !Bit(b, i)
  {
    ZeroBits(i);
    if a != 0 && b != 0 && i > 0 {
      BitAndNot(a / 2, b / 2, i - 1);
      assert AndNot(a, b) / 2 == AndNot(a / 2, b / 2);
    }
  }

  lemma {:induction false} BitPow2(k: nat, i: nat)
    ensures Bit(Pow2(k), i) <==> i == k
  {
    if k == 0 {
      if i > 0 { ZeroBits(i - 1); }
    } else if i > 0 {
      BitPow2(k - 1, i - 1);
      assert Pow2(k) / 2 == Pow2(k - 1);
    }
  }

  lemma {:induction false} OrBound(a: nat, b: nat, n: nat)
    requires a < Pow2(n) && b < Pow2(n)
    ensures Or(a, b) < Pow2(n)
  {
    if a != 0 && b != 0 { OrBound(a / 2, b / 2, n - 1); }
  }

  lemma {:induction false} AndBound(a: nat, b: nat)
    ensures And(a, b) <= a && AndNot(a, b) <= a
  {
    if a != 0 && b != 0 { AndBound(a / 2, b / 2); }
  }

  /* A word is zero iff none of its bits is set. */
  lemma {:induction false} SomeBit(a: nat, n: nat) returns (i: nat)
    requires 0 < a < Pow2(n)
    ensures i < n && Bit(a, i) && forall j | 0 <= j < i :: !Bit(a, j)
  {
    if a % 2 == 1 {
      i := 0;
    } else {
      i := SomeBit(a / 2, n - 1);
      i := i + 1;
      forall j | 0 <= j < i
        ensures !Bit(a, j)
      {
        if j > 0 { assert !Bit(a / 2, j - 1); }
      }
    }
  }

  /* The bits of a negated power of two. */
  lemma {:induction false} BitNegPow2(n: nat, k: nat, i: nat)
    requires k <= n
    ensures Pow2(k) <= Pow2(n)
    ensures Bit(Pow2(n) - Pow2(k), i) <==> k <= i < n
  {
    Pow2Monotone(k, n);
    if n == k {
      ZeroBits(i);
    } else if k == 0 {
      if i > 0 {
        assert (Pow2(n) - 1) / 2 == Pow2(n - 1) - 1;
        BitNegPow2(n - 1, 0, i - 1);
      }
    } else if i > 0 {
      assert (Pow2(n) - Pow2(k)) / 2 == Pow2(n - 1) - Pow2(k - 1);
      BitNegPow2(n - 1, k - 1, i - 1);
    }
  }

  lemma {:induction false} AndComplement(y: nat, n: nat)
    requires y < Pow2(n)
    ensures And(y, Pow2(n) - 1 - y) == 0
  {
    if n > 0 {
      assert (Pow2(n) - 1 - y) / 2 == Pow2(n - 1) - 1 - y / 2;
      AndComplement(y / 2, n - 1);
    }
  }

  /* x & -x is the least bit of x. */
  lemma {:induction false} AndNegation(x: nat, n: nat, j: nat)
    requires 0 < x < Pow2(n) && Bit(x, j)
    requires forall i | 0 <= i < j :: !Bit(x, i)
    ensures And(x, Pow2(n) - x) == Pow2(j)
  {
    var y := x / 2;
    if j == 0 {
      assert (Pow2(n) - x) / 2 == Pow2(n - 1) - 1 - y;
      AndComplement(y, n - 1);
    } else {
      assert !Bit(x, 0);
      assert (Pow2(n) - x) / 2 == Pow2(n - 1) - y;
      forall i | 0 <= i < j - 1
        ensures !Bit(y, i)
      {
        assert !Bit(x, i + 1);
      }
      AndNegation(y, n - 1, j - 1);
    }
  }

  /* `x & (1 << k)` */
  function AndBit(x: nat, k: nat): nat { And(x, Pow2(k)) }

  /* `x >> k` */
  function Shr(x: nat, k: nat): nat {
    if k == 0 then x else Shr(x / 2, k - 1)
  }

  lemma {:induction false} AndBitMeaning(x: nat, k: nat)
    ensures AndBit(x, k) == if Bit(x, k) then Pow2(k) else 0
  {
    if x == 0 {
      ZeroBits(k);
    } else if k == 0 {
      assert And(x, 1) == 2 * And(x / 2, 0) + Digit(x % 2 == 1);
    } else {
      assert Pow2(k) / 2 == Pow2(k - 1) && Pow2(k) % 2 == 0;
      AndBitMeaning(x / 2, k - 1);
      assert And(x, Pow2(k)) == 2 * And(x / 2, Pow2(k - 1));
    }
  }

  lemma {:induction false} BitShr(x: nat, s: nat, k: nat)
    ensures Bit(Shr(x, s), k) == Bit(x, s + k)
  {
    if s > 0 { BitShr(x / 2, s - 1, k); }
  }

  lemma {:induction false} ShrBounds(x: nat, k: nat)
    ensures Shr(x, k) * Pow2(k) <= x < Shr(x, k) * Pow2(k) + Pow2(k)
  {
    if k > 0 {
      ShrBounds(x / 2, k - 1);
      var q, p := Shr(x, k), Pow2(k - 1);
      assert q * Pow2(k) == 2 * (q * p);
    }
  }

  lemma {:induction false} ShrRange(a: nat, b: nat, x: nat, k: nat)
    requires a * Pow2(k) <= x < b * Pow2(k)
    ensures a <= Shr(x, k) < b
  {
    ShrBounds(x, k);
    var q, p := Shr(x, k), Pow2(k);
    assert (q + 1) * p == q * p + p;
    if q < a { MulLe(q + 1, a, p); }
    if b <= q { MulLe(b, q, p); }
  }

  /* Shifting right a word of n ones. */
  lemma {:induction false} ShrOnes(n: nat, k: nat)
    requires k <= n
    ensures Shr(Pow2(n) - 1, k) == Pow2(n - k) - 1
  {
    if k > 0 {
      assert (Pow2(n) - 1) / 2 == Pow2(n - 1) - 1;
      ShrOnes(n - 1, k - 1);
    }
  }

  function Xor(a: nat, b: nat): nat {
    if a == 0 then b else if b == 0 then a else 2 * Xor(a / 2, b / 2) + Digit((a % 2 == 1) != (b % 2 == 1))
  }

  /* The position of the highest bit set. */
  function Log2(x: nat): nat
    requires x > 0
  {
    if x == 1 then 0 else 1 + Log2(x / 2)
  }

  lemma {:induction false} Log2Bounds(x: nat)
    requires x > 0
    ensures Pow2(Log2(x)) <= x < Pow2(Log2(x) + 1)
  {
    if x > 1 { Log2Bounds(x / 2); }
  }
}
