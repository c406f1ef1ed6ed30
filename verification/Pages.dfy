/** Whole pages of memory. */
module Pages {
  import opened Words
  import opened Alignment
  import opened Sbrk

  predicate Paged(x: nat) { x % PAGESIZE == 0 }

  lemma PagedSum(a: nat, b: nat)
    requires Paged(a) && Paged(b)
    ensures Paged(a + b) && (a >= b ==> Paged(a - b))
  {}

  /* page_ceil: `(n + PAGE - 1) & ~(PAGE - 1)` on 32 bits */
  function PageCeil(n: nat): nat { AlignUp(n, PAGESIZE) }

  lemma PageIsPower()
    ensures PAGESIZE == Pow2(16) && IsPowerOf2(PAGESIZE)
  {
    Pow2Values();
    Pow2IsPower(16);
  }

  lemma PageCeilOk(n: nat)
    requires n < W32
    ensures Paged(PageCeil(n))
    ensures n <= W32 - PAGESIZE ==> n <= PageCeil(n) < n + PAGESIZE
    ensures n > W32 - PAGESIZE ==> PageCeil(n) == 0
  {
    PageIsPower();
    if n <= W32 - PAGESIZE {
      AlignUpOk(n, PAGESIZE);
    } else {
      AlignUpWraps(n, PAGESIZE);
      CeilingAtEnd(n);
    }
  }

  lemma CeilingAtEnd(n: nat)
    requires W32 - PAGESIZE < n < W32
    ensures CeilTo(n, PAGESIZE) == W32
  {}

  lemma OffsetAligned(n: int)
    ensures n >= 0 ==> (And(n, PAGESIZE - 1) == 0 <==> Paged(n))
  {
    PageIsPower();
    if n >= 0 { HasAlignmentOk(n, PAGESIZE); }
  }

  /* The rounding covers n exactly when it does not wrap. */
  lemma PageCeilCovers(n: nat)
    requires 0 < n < W32
    ensures PageCeil(n) >= n <==> n <= W32 - PAGESIZE
  {
    PageCeilOk(n);
  }
}
