/** The search of the region table, and what becomes of a range, with the 32-bit sums of the code: the end
    of an entry that goes up to 2^32 is zero there. */
module MmanSearch {
  import opened Words
  import opened Sbrk
  import opened Pages
  import opened MmanTable

  /* The bisection of first_overlap, between lo and hi. */
  function Bisect(t: seq<Region>, addr: nat, lo: nat, hi: nat): (i: nat)
    requires lo <= hi <= |t|
    ensures lo <= i <= hi
    decreases hi - lo
  {
    if lo == hi then lo
    else
      var mid := lo + (hi - lo) / 2;
      if t[mid].Stop() <= addr then Bisect(t, addr, mid + 1, hi) else Bisect(t, addr, lo, mid)
  }

  function FirstIndex(t: seq<Region>, addr: nat): (i: nat)
    ensures i <= |t|
  {
    Bisect(t, addr, 0, |t|)
  }

  /* Exactly the entries from i on end above addr. */
  ghost predicate IsFirst(t: seq<Region>, addr: nat, i: nat) {
    && i <= |t| && (forall j | 0 <= j < i :: t[j].End() <= addr)
    && forall j | i <= j < |t| :: t[j].End() > addr
  }

  /* Only the last entry can go up to 2^32. */
  lemma OnlyLast(t: seq<Region>, i: nat)
    requires Sorted(t) && AllOk(t, W32) && i < |t|
    ensures t[i].End() < W32 ==> t[i].Stop() == t[i].End()
    ensures t[i].End() >= W32 ==> i == |t| - 1 && t[i].End() == W32 && t[i].Stop() == 0
  {
    assert t[i] in t;
    if i + 1 < |t| {
      assert Ordered(t, i, i + 1);
      assert t[i + 1] in t;
    }
  }

  lemma {:induction false} BisectRight(t: seq<Region>, addr: nat, lo: nat, hi: nat)
    requires Sorted(t) && AllOk(t, W32) && lo <= hi <= |t|
    requires forall j | 0 <= j < lo :: t[j].End() <= addr
    requires forall j | hi <= j < |t| :: t[j].End() > addr
    ensures IsFirst(t, addr, Bisect(t, addr, lo, hi)) || (Bisect(t, addr, lo, hi) == |t| && !NoneAtEnd(t))
    decreases hi - lo
  {
    if lo < hi {
      var mid := lo + (hi - lo) / 2;
      OnlyLast(t, mid);
      assert t[mid] in t;
      if t[mid].End() == W32 {
        assert !NoneAtEnd(t);
      } else if t[mid].End() <= addr {
        forall j | lo <= j < mid ensures t[j].End() <= addr {
          assert Ordered(t, j, mid);
        }
        BisectRight(t, addr, mid + 1, hi);
      } else {
        forall j | mid < j < hi ensures t[j].End() > addr {
          assert Ordered(t, mid, j) && t[j] in t;
        }
        BisectRight(t, addr, lo, mid);
      }
    }
  }

  /* What the search finds: the first entry that ends above addr, or no entry at all although there is one. */
  lemma SearchFinds(t: seq<Region>, addr: nat)
    requires Sorted(t) && AllOk(t, W32)
    ensures IsFirst(t, addr, FirstIndex(t, addr)) || (FirstIndex(t, addr) == |t| && !NoneAtEnd(t))
  {
    BisectRight(t, addr, 0, |t|);
  }

  lemma {:induction false} AllPassed(t: seq<Region>, addr: nat, lo: nat, hi: nat)
    requires lo <= hi <= |t| && forall j | lo <= j < hi :: t[j].Stop() <= addr
    ensures Bisect(t, addr, lo, hi) == hi
    decreases hi - lo
  {
    if lo < hi { AllPassed(t, addr, lo + (hi - lo) / 2 + 1, hi); }
  }

  /* Within an entry that goes up to 2^32 the search never finds anything. */
  lemma LastMissed(t: seq<Region>, addr: nat)
    requires Sorted(t) && AllOk(t, W32) && t != [] && t[|t| - 1].End() == W32 && t[|t| - 1].base <= addr
    ensures FirstIndex(t, addr) == |t|
  {
    forall j | 0 <= j < |t| ensures t[j].Stop() <= addr {
      OnlyLast(t, j);
      if j < |t| - 1 { assert Ordered(t, j, |t| - 1); }
    }
    AllPassed(t, addr, 0, |t|);
  }

  /* The search is right at every address if and only if no entry goes up to 2^32. */
  lemma RightEverywhere(t: seq<Region>)
    requires Sorted(t) && AllOk(t, W32)
    ensures (forall addr: nat {:trigger FirstIndex(t, addr)} | addr < W32 :: IsFirst(t, addr, FirstIndex(t, addr)))
         <==> NoneAtEnd(t)
  {
    if NoneAtEnd(t) {
      forall addr: nat | addr < W32 ensures IsFirst(t, addr, FirstIndex(t, addr)) { SearchFinds(t, addr); }
    } else {
      var r :| r in t && r.End() >= W32;
      var i :| 0 <= i < |t| && t[i] == r;
      OnlyLast(t, i);
      LastMissed(t, r.base);
      assert RegionOk(r, W32);
      assert !IsFirst(t, r.base, FirstIndex(t, r.base));
    }
  }

  /* The search looks at nothing but ends. */
  lemma {:induction false} SameEnds(t: seq<Region>, u: seq<Region>, addr: nat, lo: nat, hi: nat)
    requires |t| == |u| && lo <= hi <= |t| && forall j | 0 <= j < |t| :: u[j].End() == t[j].End()
    ensures Bisect(u, addr, lo, hi) == Bisect(t, addr, lo, hi)
    decreases hi - lo
  {
    if lo < hi {
      var mid := lo + (hi - lo) / 2;
      assert u[mid].Stop() == t[mid].Stop();
      SameEnds(t, u, addr, mid + 1, hi);
      SameEnds(t, u, addr, lo, mid);
    }
  }

  /* ---- ranges ---- */

  /* Nothing is found in the range: it ends at 2^32, or the search for its start has missed. */
  predicate Misses(t: seq<Region>, start: nat, end: nat) { end == 0 || FirstIndex(t, start) == |t| }

  /* How far unmapping goes: an entry up to 2^32 that starts in the range goes as a whole. */
  function Reach(t: seq<Region>, end: nat): nat {
    if t != [] && t[|t| - 1].End() == W32 && t[|t| - 1].base < end then W32 else end
  }

  /* What unmapping [start, end) makes of an address, as the code does it. */
  function Cleared(t: seq<Region>, a: nat, start: nat, end: nat): Owner {
    if Misses(t, start, end) then OwnerAt(t, a) else Unmapped(OwnerAt(t, a), a, start, Reach(t, end))
  }

  /* The cursor of msync gets to the end of the range if all of it is live. */
  ghost predicate Seen(t: seq<Region>, start: nat, end: nat) {
    NoneAtEnd(t) || (FirstIndex(t, start) < |t| && end <= t[|t| - 1].base)
  }

  /* Of one entry, unmapping up to `end` in 32 bits takes as much as unmapping up to e. */
  predicate StopsAt(r: Region, end: nat, e: nat) {
    if r.End() < W32 then e == end || (e == W32 && r.End() <= end) else r.End() == W32 == e
  }

  lemma ReachStops(t: seq<Region>, k: nat, end: nat)
    requires Sorted(t) && AllOk(t, W32) && k < |t| && t[k].base < end
    ensures StopsAt(t[k], end, Reach(t, end))
  {
    OnlyLast(t, k);
    if k < |t| - 1 { assert Ordered(t, k, |t| - 1); }
  }

  lemma ReachDone(t: seq<Region>, k: nat, end: nat)
    requires Sorted(t) && AllOk(t, W32) && k < |t| && t[k].base >= end
    ensures t[k].base >= Reach(t, end)
  {
    if k < |t| - 1 {
      assert Ordered(t, k, |t| - 1);
      assert t[k] in t;
    }
  }

  lemma ReachPaged(t: seq<Region>, end: nat)
    requires Paged(end) && end < W32
    ensures Paged(Reach(t, end)) && end <= Reach(t, end) <= W32
  {}

  /* With no entry up to 2^32, unmapping does what it should. */
  lemma ClearedRight(t: seq<Region>, start: nat, end: nat)
    requires Sorted(t) && AllOk(t, W32) && NoneAtEnd(t) && start < end
    ensures forall a: nat {:trigger Cleared(t, a, start, end)} ::
        Cleared(t, a, start, end) == Unmapped(OwnerAt(t, a), a, start, end)
  {
    SearchFinds(t, start);
    assert t != [] ==> t[|t| - 1] in t;
    forall a: nat ensures Cleared(t, a, start, end) == Unmapped(OwnerAt(t, a), a, start, end) {
      OwnerHeld(t, a);
    }
  }

  /* ---- inputs ---- */

  function Page(base: nat, len: nat): Region { Region(base, len, R_ANON, false, 3, 0x22, Null, 0, 0) }

  /* One mapping and the last page of the address space: the search misses the mapping, so unmapping it does
     nothing. */
  lemma MissesOther()
    ensures var t := [Page(0x1_0000, 0x1_0000), Page(0xFFFF_0000, 0x1_0000)];
            && TableOk(t, W32) && OwnerAt(t, 0x1_0000).Live() && FirstIndex(t, 0x1_0000) == 2
            && Cleared(t, 0x1_0000, 0x1_0000, 0x2_0000) == OwnerAt(t, 0x1_0000)
  {
    var t := [Page(0x1_0000, 0x1_0000), Page(0xFFFF_0000, 0x1_0000)];
    assert t[1].Stop() == 0;
    AllPassed(t, 0x1_0000, 2, 2);
    assert !NoneAtEnd(t) by { assert t[1] in t; }
  }

  /* Two mappings and the last two pages: unmapping up to the last page frees that page as well. */
  lemma FreesTooMuch()
    ensures var t := [Page(0x1_0000, 0x1_0000), Page(0x2_0000, 0x1_0000), Page(0xFFFE_0000, 0x2_0000)];
            && TableOk(t, W32) && OwnerAt(t, 0xFFFF_0000).Live()
            && Cleared(t, 0xFFFF_0000, 0x1_0000, 0xFFFF_0000) == Pool
  {
    var t := [Page(0x1_0000, 0x1_0000), Page(0x2_0000, 0x1_0000), Page(0xFFFE_0000, 0x2_0000)];
    assert t[1].Stop() == 0x3_0000 && t[0].Stop() == 0x2_0000;
    assert Bisect(t, 0x1_0000, 0, 3) == Bisect(t, 0x1_0000, 0, 1);
    assert Bisect(t, 0x1_0000, 0, 1) == Bisect(t, 0x1_0000, 0, 0);
    assert !NoneAtEnd(t) by { assert t[2] in t; }
    forall i: nat, j: nat | i < j < 3 ensures Ordered(t, i, j) {}
    OwnerIs(t, 2, 0xFFFF_0000);
  }
}
