/** Searching emmalloc's free lists: the scan of the bitmask and the walk through one list. */
module EmScan {
  import opened Words
  import opened Rings
  import opened Alignment
  import opened Sbrk
  import opened Pages
  import opened EmBuckets
  import opened EmLists
  import opened EmFreeLists
  import opened EmShape
  import opened EmHeap
  import opened EmGrowth
  import opened EmSpans

  /* ---- the bitmask ---- */

  /* __builtin_ctzll */
  function Ctz(x: nat): nat
    requires x > 0
  {
    if x % 2 == 1 then 0 else 1 + Ctz(x / 2)
  }

  lemma {:induction false} CtzOk(x: nat)
    requires x > 0
    ensures Shr(x, Ctz(x)) % 2 == 1 && Shr(x, Ctz(x)) <= x
    ensures forall j: nat | j < Ctz(x) :: !Bit(x, j)
  {
    if x % 2 == 0 {
      CtzOk(x / 2);
      forall j: nat | j < Ctz(x) ensures !Bit(x, j) { assert j > 0 ==> !Bit(x / 2, j - 1); }
    }
  }

  lemma {:induction false} ShrShr(x: nat, a: nat, b: nat)
    ensures Shr(Shr(x, a), b) == Shr(x, a + b)
  {
    if a > 0 { ShrShr(x / 2, a - 1, b); }
  }

  /* `mask & ~(1 << i)` loses the lowest bit of `mask >> i`. */
  lemma {:induction false} ShrCleared(x: nat, i: nat)
    requires Shr(x, i) % 2 == 1
    ensures Shr(AndNot(x, Pow2(i)), i) == Shr(x, i) - 1
  {
    if i > 0 {
      if x == 0 { ShrBounds(0, i); }
      assert Pow2(i) / 2 == Pow2(i - 1) && AndNot(x, Pow2(i)) / 2 == AndNot(x / 2, Pow2(i - 1));
      ShrCleared(x / 2, i - 1);
    } else {
      assert AndNot(x, 1) == 2 * AndNot(x / 2, 0);
    }
  }

  /* Scanning on from bit i. */
  lemma NextBit(mask: nat, i: nat)
    requires i <= 64 && mask < W64 && Shr(mask, i) != 0
    ensures var c, m := Ctz(Shr(mask, i)), Shr(mask, i);
      && i + c < 64 && Bit(mask, i + c) && (forall j: nat {:trigger Bit(mask, j)} | i <= j < i + c :: !Bit(mask, j))
      && Shr(m, c) == Shr(mask, i + c) && Shr(m, c) % 2 == 1 && Shr(m, c) <= m
  {
    var m := Shr(mask, i);
    var c := Ctz(m);
    CtzOk(m);
    ShrShr(mask, i, c);
    BitShr(mask, i + c, 0);
    forall j: nat | i <= j < i + c ensures !Bit(mask, j) { BitShr(mask, i, j - i); }
    HighBits(mask, i + c);
  }

  lemma HighBits(mask: nat, j: nat)
    requires mask < W64 && Bit(mask, j)
    ensures j < 64
  {
    SixtyFour();
    if j >= 64 {
      Pow2Monotone(64, j);
      BitNeeds(mask, j);
    }
  }

  lemma {:induction false} BitNeeds(x: nat, j: nat)
    requires Bit(x, j)
    ensures x >= Pow2(j)
  {
    if j > 0 { BitNeeds(x / 2, j - 1); }
  }

  lemma NoMoreBits(mask: nat, i: nat)
    requires Shr(mask, i) == 0
    ensures forall j: nat {:trigger Bit(mask, j)} | i <= j :: !Bit(mask, j)
  {
    forall j: nat | i <= j ensures !Bit(mask, j) {
      BitShr(mask, i, j - i);
      ZeroBits(j - i);
    }
  }

  /* The two ways to go on after bit i. */
  lemma SkipBit(mask: nat, i: nat)
    requires Shr(mask, i) % 2 == 1
    ensures Shr(Shr(mask, i), 1) == Shr(mask, i + 1) && Shr(mask, i + 1) < Shr(mask, i)
  {
    ShrShr(mask, i, 1);
    assert Shr(Shr(mask, i), 1) == Shr(Shr(mask, i) / 2, 0);
  }

  lemma ClearBit(mask: nat, i: nat)
    requires Shr(mask, i) % 2 == 1
    ensures Shr(AndNot(mask, Pow2(i)), i) == Xor(Shr(mask, i), 1) < Shr(mask, i)
  {
    ShrCleared(mask, i);
    var m := Shr(mask, i);
    assert Xor(m, 1) == 2 * Xor(m / 2, 0);
  }

  lemma ClearedBits(mask: nat, i: nat, j: nat)
    ensures Bit(AndNot(mask, Pow2(i)), j) <==> Bit(mask, j) && j != i
  {
    BitAndNot(mask, Pow2(i), j);
    BitPow2(i, j);
  }

  /* `63 - clz` is the highest bit. */
  lemma {:induction false} Log2Bit(x: nat)
    requires x > 0
    ensures Bit(x, Log2(x)) && forall j: nat {:trigger Bit(x, j)} | j > Log2(x) :: !Bit(x, j)
  {
    if x == 1 {
      forall j: nat | j > 0 ensures !Bit(1, j) { ZeroBits(j - 1); }
    } else {
      Log2Bit(x / 2);
      forall j: nat | j > Log2(x) ensures !Bit(x, j) { assert !Bit(x / 2, j - 1); }
    }
  }

  /* A stale bit may be cleared. */
  lemma Unmarked(h: Heap, w: Bounds, b: nat)
    requires HeapOk(h, w) && b in h.rings && |h.rings[b]| == 1
    ensures HeapOk(h.(mask := AndNot(h.mask, Pow2(b))), w)
  {
    var h' := h.(mask := AndNot(h.mask, Pow2(b)));
    AndBound(h.mask, Pow2(b));
    forall c: nat | c in h'.rings && !Bit(h'.mask, c) ensures |h'.rings[c]| == 1 { ClearedBits(h.mask, b, c); }
    assert MaskOk(h'.mask, h'.rings);
    hide MaskOk; hide ListsOk; hide LinksOk;
  }

  /* ---- lists ---- */

  /* Where a walk through a ring is: at a member, or back at the sentinel. */
  function Visited(r: seq<nat>, i: nat): nat
    requires 0 < i <= |r|
  {
    if i == |r| then r[0] else r[i]
  }

  lemma RingHead(h: Heap, w: Bounds, b: nat)
    requires HeapOk(h, w) && b < NUM_FREE_BUCKETS
    ensures b in h.rings && |h.rings[b]| > 0 && h.rings[b][0] == Head(w.heads, b) && NoDup(h.rings[b])
    ensures Word(h.mem, Head(w.heads, b) + 8) == Visited(h.rings[b], 1)
  {
    assert BucketOk(h.rings, ListedOf(h.shape, h.loose), w.heads, b) && Ring(h.mem, h.rings[b]);
    Neighbours(h.mem, h.rings[b], 0);
  }

  /* Members of the list of a bucket are free regions of that size class. */
  lemma Member(h: Heap, w: Bounds, b: nat, i: nat)
    requires HeapOk(h, w) && b < NUM_FREE_BUCKETS && b in h.rings && 0 < i < |h.rings[b]|
    ensures var r, f := h.rings[b], h.rings[b][i];
      && FreeAt(h.shape, f) && f in ListedOf(h.shape, h.loose) && 16 <= h.shape[f].size < W32
      && BucketOf(h.shape[f].size) == b
      && f != Head(w.heads, b) && Word(h.mem, f + 8) == Visited(r, i + 1)
  {
    hide MarksPart; hide BlocksPart; hide ShapeOk; hide BucketOf; hide MaskOk;
    var l, f := ListedOf(h.shape, h.loose), h.rings[b][i];
    assert BucketOk(h.rings, l, w.heads, b) && Ring(h.mem, h.rings[b]) && MemberOk(l, b, f);
    assert Listed(h.rings, l, w.heads, f);
    Neighbours(h.mem, h.rings[b], i);
  }

  /* Every free region is a member. */
  lemma Membership(h: Heap, w: Bounds, f: nat) returns (b: nat, i: nat)
    requires HeapOk(h, w) && h.loose == {} && FreeAt(h.shape, f)
    ensures 16 <= h.shape[f].size < W32 && b == BucketOf(h.shape[f].size) && b < NUM_FREE_BUCKETS && b in h.rings
        && 0 < i < |h.rings[b]| && h.rings[b][i] == f
  {
    b, i := Position(h.rings, ListedOf(h.shape, h.loose), w.heads, f);
    assert BucketOk(h.rings, ListedOf(h.shape, h.loose), w.heads, b);
  }

  /* ---- requests ---- */

  const MALLOC_ALIGNMENT: nat := 16
  const MAX_ALLOC_SIZE: nat := 0xFFFF_FFC7

  predicate Accepted(alignment: nat, size: nat) { (alignment == 0 || IsPowerOf2(alignment)) && size <= MAX_ALLOC_SIZE }

  /* validate_alloc_alignment */
  function Aligned(alignment: nat): (r: nat)
    ensures r >= alignment && r >= MALLOC_ALIGNMENT && (r == alignment || r == MALLOC_ALIGNMENT)
  {
    if alignment > MALLOC_ALIGNMENT then alignment else MALLOC_ALIGNMENT
  }

  /* What has the validated alignment has the one asked for. */
  lemma AlignedAsAsked(x: nat, alignment: nat)
    requires IsPowerOf2(alignment) && x % Aligned(alignment) == 0
    ensures x % alignment == 0 && x % MALLOC_ALIGNMENT == 0
  {
    Pow2Values();
    Pow2IsPower(4);
    hide IsPowerOf2;
    if alignment > MALLOC_ALIGNMENT {
      Finer(x, MALLOC_ALIGNMENT, alignment);
    } else {
      Finer(x, alignment, MALLOC_ALIGNMENT);
    }
  }

  /* validate_alloc_size */
  function Rounded(size: nat): nat {
    if size > SMALLEST_ALLOCATION_SIZE then AlignUp(size, 4) else SMALLEST_ALLOCATION_SIZE
  }

  /* An accepted request stays what it is when it is validated again, and asks for no less than was asked. */
  lemma RequestOk(alignment: nat, size: nat)
    requires Accepted(alignment, size) && alignment < W32
    ensures Request(Aligned(alignment), Rounded(size)) && Rounded(size) <= MAX_ALLOC_SIZE + 1
    ensures if size <= SMALLEST_ALLOCATION_SIZE then Rounded(size) == SMALLEST_ALLOCATION_SIZE
            else size <= Rounded(size) < size + 4 && Rounded(size) % 4 == 0
    ensures alignment > 0 ==> Aligned(alignment) % alignment == 0
    ensures Aligned(Aligned(alignment)) == Aligned(alignment) && Rounded(Rounded(size)) == Rounded(size)
        && IsPowerOf2(Aligned(alignment))
  {
    Pow2Values();
    Pow2IsPower(2);
    Pow2IsPower(4);
    AlignUpOk(size, 4);
    AlignUpOk(Rounded(size), 4);
    if alignment > 0 { AlignedAsAsked(Aligned(alignment), alignment); }
  }

  /* claim_more_memory rounds the bytes of an accepted request up to pages without a wrap to zero exactly
     when they leave a page below 2^32. */
  lemma ClaimCovers(size: nat)
    requires SMALLEST_ALLOCATION_SIZE <= size <= MAX_ALLOC_SIZE + 1
    ensures size + 3 * REGION_SIZE < W32
    ensures PageCeil(size + 3 * REGION_SIZE) >= size + 3 * REGION_SIZE <==> size + 3 * REGION_SIZE + PAGESIZE <= W32
  {
    PageCeilCovers(size + 3 * REGION_SIZE);
  }

  /* So the check against MAX_ALLOC_SIZE does not stop every request that is too large to be claimed. */
  lemma ClaimWraps()
    ensures Accepted(MALLOC_ALIGNMENT, 0xFFFF_FF00) && Rounded(0xFFFF_FF00) == 0xFFFF_FF00
    ensures PageCeil(0xFFFF_FF00 + 3 * REGION_SIZE) == 0
  {
    Pow2Values();
    Pow2IsPower(2);
    Pow2IsPower(4);
    AlignUpOk(0xFFFF_FF00, 4);
    PageCeilOk(0xFFFF_FF00 + 3 * REGION_SIZE);
  }

  lemma TopBit(mask: nat)
    requires mask < W64
    ensures mask > 0 ==> Log2(mask) < NUM_FREE_BUCKETS
  {
    if mask > 0 {
      Log2Bit(mask);
      HighBits(mask, Log2(mask));
    }
  }

  /* The payload of a free region that ends at `end` has room for size bytes at the given alignment. */
  predicate Suits(f: nat, end: nat, alignment: nat, size: nat)
    requires alignment > 0
  {
    CeilTo(f + 4, alignment) + size + 4 <= end
  }

  predicate SuitsAt(s: Shape, f: nat, alignment: nat, size: nat)
    requires alignment > 0
  {
    f in s && Suits(f, End(s, f), alignment, size)
  }

  /* The test of attempt_allocate, in 32 bits. */
  predicate Accepts(f: nat, end: nat, alignment: nat, size: nat)
    requires 0 < alignment <= W32
  {
    (AlignUp(f + 4, alignment) + size) % W32 + 4 <= end
  }

  predicate AcceptsAt(s: Shape, f: nat, alignment: nat, size: nat)
    requires 0 < alignment <= W32
  {
    f in s && Accepts(f, End(s, f), alignment, size)
  }

  /* The end of the payload passes 2^32, and what is left of it after the wrap lies below the end of the region. */
  predicate Wraps(f: nat, end: nat, alignment: nat, size: nat)
    requires alignment > 0
  {
    W32 <= CeilTo(f + 4, alignment) + size && CeilTo(f + 4, alignment) + size + 4 <= end + W32
  }

  predicate WrapsAt(s: Shape, f: nat, alignment: nat, size: nat)
    requires alignment > 0
  {
    f in s && Wraps(f, End(s, f), alignment, size)
  }

  predicate Request(alignment: nat, size: nat) {
    IsPowerOf2(alignment) && 16 <= alignment < W32 && Quad(size) && SMALLEST_ALLOCATION_SIZE <= size < W32
  }

  /* The test accepts what suits, and wrongly so exactly what wraps. */
  lemma AcceptsExactly(f: nat, end: nat, alignment: nat, size: nat)
    requires Request(alignment, size) && f + 4 <= end < W32
    ensures Accepts(f, end, alignment, size) <==> Suits(f, end, alignment, size) || Wraps(f, end, alignment, size)
    ensures !(Suits(f, end, alignment, size) && Wraps(f, end, alignment, size))
    ensures (Accepts(f, end, alignment, size) <==> Suits(f, end, alignment, size)) <==> !Wraps(f, end, alignment, size)
  {
    AlignUpWraps(f + 4, alignment);
    hide CeilTo; hide AlignUp; hide IsPowerOf2;
    WrapSum(CeilTo(f + 4, alignment), size);
  }

  lemma WrapSum(x: nat, y: nat)
    requires x <= W32 && y < W32
    ensures ((if x < W32 then x else 0) + y) % W32 == if x + y < W32 then x + y else x + y - W32
  {}

  /* A request for 0x6000_0000 bytes is accepted by a free region of a quarter of the address space. */
  lemma AcceptsTooSmall()
    ensures Request(MALLOC_ALIGNMENT, 0x6000_0000) && Rounded(0x6000_0000) == 0x6000_0000 <= MAX_ALLOC_SIZE
    ensures Accepts(0xB000_0000, 0xC000_0000, MALLOC_ALIGNMENT, 0x6000_0000)
        && !Suits(0xB000_0000, 0xC000_0000, MALLOC_ALIGNMENT, 0x6000_0000)
  {
    Pow2Values();
    Pow2IsPower(2);
    Pow2IsPower(4);
    AlignUpOk(0x6000_0000, 4);
    AcceptsExactly(0xB000_0000, 0xC000_0000, MALLOC_ALIGNMENT, 0x6000_0000);
  }

  /* Bucket b is marked only if it holds a region, and then its last one has been tried. */
  predicate Tried(h: Heap, b: nat, alignment: nat, size: nat)
    requires 0 < alignment <= W32
  {
    b in h.rings && Bit(h.mask, b) ==>
      |h.rings[b]| > 1 && !AcceptsAt(h.shape, h.rings[b][|h.rings[b]| - 1], alignment, size)
  }

  ghost predicate TriedFrom(h: Heap, b: int, c: int, alignment: nat, size: nat)
    requires 0 < alignment <= W32
  {
    forall i: nat {:trigger Tried(h, i, alignment, size)} | b <= i < c :: Tried(h, i, alignment, size)
  }

  ghost predicate AllTried(h: Heap, b: nat, alignment: nat, size: nat)
    requires 0 < alignment <= W32
  {
    forall i: nat {:trigger h.rings[b][i]} | b in h.rings && 0 < i < |h.rings[b]| ::
      !AcceptsAt(h.shape, h.rings[b][i], alignment, size)
  }

  /* The same for the members before the i-th. */
  ghost predicate TriedUpTo(h: Heap, b: nat, n: nat, alignment: nat, size: nat)
    requires 0 < alignment <= W32
  {
    b in h.rings && 0 < n <= |h.rings[b]| && forall i: nat {:trigger h.rings[b][i]} | 0 < i < n ::
      !AcceptsAt(h.shape, h.rings[b][i], alignment, size)
  }

  /* The region that the scan looks at in bucket b, the first one of its list, is accepted. */
  predicate FirstAccepts(h: Heap, b: nat, alignment: nat, size: nat)
    requires 0 < alignment <= W32
  {
    b in h.rings && |h.rings[b]| > 1 && AcceptsAt(h.shape, h.rings[b][1], alignment, size)
  }

  /* The scan from bucket `from` on accepts f. */
  ghost predicate Picks(h: Heap, from: int, f: nat, alignment: nat, size: nat)
    requires 0 < alignment <= W32
  {
    exists b: nat {:trigger FirstAccepts(h, b, alignment, size)} :: from <= b < NUM_FREE_BUCKETS
      && FirstAccepts(h, b, alignment, size)
      && h.rings[b][1] == f && NoneAccepted(h, from, b, alignment, size)
  }

  ghost predicate NoneAccepted(h: Heap, from: int, b: int, alignment: nat, size: nat)
    requires 0 < alignment <= W32
  {
    forall c: nat {:trigger FirstAccepts(h, c, alignment, size)} | from <= c < b :: !FirstAccepts(h, c, alignment, size)
  }

  /* If the scan accepts a region, whether that suits or wraps decides the outcome; if it suits, the payload is at its
     first aligned address. */
  ghost predicate ScanDecides(h: Heap, alignment: nat, size: nat, ptr: nat, overrun: bool) {
    && 0 < alignment <= W32 && size < W32
    && forall f: nat {:trigger Picks(h, Bucket(size), f, alignment, size)} |
          Picks(h, Bucket(size), f, alignment, size) ::
        (overrun <==> WrapsAt(h.shape, f, alignment, size)) && (ptr != 0 <==> SuitsAt(h.shape, f, alignment, size))
          && (ptr != 0 ==> ptr == CeilTo(f + 4, alignment)) && (ptr != 0 || overrun)
  }

  /* If it accepts none, the outcome is open. */
  lemma Undecided(h: Heap, alignment: nat, size: nat)
    requires ScanDecides(h, alignment, size, 0, false)
    ensures forall ptr: nat, overrun {:trigger ScanDecides(h, alignment, size, ptr, overrun)} ::
        ScanDecides(h, alignment, size, ptr, overrun)
  {}

  /* No free region is accepted; no free region wraps. */
  ghost predicate NoAccept(s: Shape, alignment: nat, size: nat)
    requires 0 < alignment <= W32
  {
    forall f: nat {:trigger FreeAt(s, f)} | FreeAt(s, f) :: !AcceptsAt(s, f, alignment, size)
  }

  ghost predicate NoWrapping(s: Shape, alignment: nat, size: nat)
    requires alignment > 0
  {
    forall f: nat {:trigger FreeAt(s, f)} | FreeAt(s, f) :: !WrapsAt(s, f, alignment, size)
  }

  /* What a refusal means: no free region has a size class whose least payload suffices at any place, and
     a region that would do is not of the largest size class. */
  ghost predicate Exhausted(s: Shape, alignment: nat, size: nat)
    requires alignment > 0
  {
    forall f {:trigger FreeAt(s, f)} | FreeAt(s, f) ::
      && 16 <= s[f].size < W32
      && (var b := BucketOf(s[f].size); b >= 0 ==> MinPayload(b) < size + alignment)
      && (SuitsAt(s, f, alignment, size) ==> exists g {:trigger FreeAt(s, g)} ::
           FreeAt(s, g) && 16 <= s[g].size < W32 && BucketOf(s[g].size) > BucketOf(s[f].size))
  }

  /* A payload that has room for the padding too suits anywhere. */
  lemma RoomSuits(s: Shape, f: nat, alignment: nat, size: nat)
    requires f in s && Request(alignment, size) && s[f].size >= size + alignment + 8
    ensures SuitsAt(s, f, alignment, size)
  {
    Ceiling(f + 4, alignment);
  }

  /* What suits is accepted; what is accepted and does not suit wraps. */
  lemma SuitsAccepted(h: Heap, w: Bounds, f: nat, alignment: nat, size: nat)
    requires HeapOk(h, w) && FreeAt(h.shape, f) && Request(alignment, size)
    ensures AcceptsAt(h.shape, f, alignment, size) <==>
            SuitsAt(h.shape, f, alignment, size) || WrapsAt(h.shape, f, alignment, size)
    ensures !(SuitsAt(h.shape, f, alignment, size) && WrapsAt(h.shape, f, alignment, size))
  {
    assert RegOk(h.shape, f) && RegOk(h.shape, End(h.shape, f)) && End(h.shape, End(h.shape, f)) <= w.limit;
    AcceptsExactly(f, End(h.shape, f), alignment, size);
  }

  /* What suits has payload enough, so its bucket is no lower than that of the request. */
  lemma SuitsBucket(s: Shape, f: nat, alignment: nat, size: nat)
    requires f in s && Request(alignment, size) && 16 <= s[f].size < W32 && SuitsAt(s, f, alignment, size)
    ensures Bucket(size) <= BucketOf(s[f].size)
  {
    Ceiling(f + 4, alignment);
    BucketMonotone(size, s[f].size - 8);
  }

  lemma HigherBucket(b: nat, size: nat)
    requires SMALLEST_ALLOCATION_SIZE <= size < W32 && b < NUM_FREE_BUCKETS && MinPayload(b) >= size
    ensures b >= Bucket(size)
  {
    BucketInterval(size);
    hide Bucket; hide MinPayload;
    if b < Bucket(size) { LeastGrows(b, Bucket(size)); }
  }

  lemma LeastGrows(b: nat, c: int)
    requires b < c < NUM_FREE_BUCKETS
    ensures MinPayload(b) < MinPayload(c)
  {
    MinPayloadMonotone(b + 1, c);
    MinPayloadStep(b);
  }

  /* After the scan and the walk through the bucket of the highest bit, nothing is left to try. */
  lemma NothingLeft(h: Heap, w: Bounds, alignment: nat, size: nat)
    requires HeapOk(h, w) && h.loose == {} && Request(alignment, size)
    requires TriedFrom(h, Bucket(size), NUM_FREE_BUCKETS, alignment, size)
    requires h.mask > 0 ==> AllTried(h, Log2(h.mask), alignment, size)
    ensures Exhausted(h.shape, alignment, size)
  {
    hide HeapOk; hide IsPowerOf2; hide Bucket; hide MinPayload; hide Log2;
    var s := h.shape;
    forall f | FreeAt(s, f) ensures
      && 16 <= s[f].size < W32
      && (var b := BucketOf(s[f].size); b >= 0 ==> MinPayload(b) < size + alignment)
      && (SuitsAt(s, f, alignment, size) ==> exists g {:trigger FreeAt(s, g)} ::
           FreeAt(s, g) && 16 <= s[g].size < W32 && BucketOf(s[g].size) > BucketOf(s[f].size))
    {
      var b, i := Membership(h, w, f);
      MarkedBucket(h, w, b);
      TooSmall(h, w, b, alignment, size);
      if SuitsAt(s, f, alignment, size) { BetterBucket(h, w, f, b, i, alignment, size); }
    }
  }

  lemma MarkedBucket(h: Heap, w: Bounds, b: nat)
    requires HeapOk(h, w) && b in h.rings && |h.rings[b]| > 1
    ensures Bit(h.mask, b) && 0 < h.mask < W64 && b <= Log2(h.mask) < NUM_FREE_BUCKETS
  {
    assert h.mask == 0 ==> !Bit(h.mask, b) by { ZeroBits(b); }
    Log2Bit(h.mask);
    HighBits(h.mask, Log2(h.mask));
  }

  lemma TooSmall(h: Heap, w: Bounds, b: nat, alignment: nat, size: nat)
    requires HeapOk(h, w) && Request(alignment, size)
    requires TriedFrom(h, Bucket(size), NUM_FREE_BUCKETS, alignment, size) && b < NUM_FREE_BUCKETS && b in h.rings
        && |h.rings[b]| > 1 && Bit(h.mask, b)
    ensures MinPayload(b) < size + alignment
  {
    hide HeapOk; hide IsPowerOf2; hide Bucket; hide MinPayload;
    if MinPayload(b) >= size + alignment {
      HigherBucket(b, size);
      assert Tried(h, b, alignment, size);
      var k: nat := |h.rings[b]| - 1;
      Member(h, w, b, k);
      var f := h.rings[b][k];
      BucketInterval(h.shape[f].size - 8);
      RoomSuits(h.shape, f, alignment, size);
      SuitsAccepted(h, w, f, alignment, size);
    }
  }

  lemma BetterBucket(h: Heap, w: Bounds, f: nat, b: nat, i: nat, alignment: nat, size: nat)
    requires HeapOk(h, w) && h.loose == {} && Request(alignment, size) && FreeAt(h.shape, f)
    requires TriedFrom(h, Bucket(size), NUM_FREE_BUCKETS, alignment, size) && 0 < h.mask
        && AllTried(h, Log2(h.mask), alignment, size)
    requires 16 <= h.shape[f].size < W32 && b == BucketOf(h.shape[f].size) && b in h.rings && 0 < i < |h.rings[b]|
        && h.rings[b][i] == f
    requires b <= Log2(h.mask) < NUM_FREE_BUCKETS && SuitsAt(h.shape, f, alignment, size)
    ensures exists g {:trigger FreeAt(h.shape, g)} ::
        FreeAt(h.shape, g) && 16 <= h.shape[g].size < W32 && BucketOf(h.shape[g].size) > b
  {
    hide HeapOk; hide IsPowerOf2; hide Bucket; hide MinPayload; hide Log2; hide Suits; hide Accepts;
    var c := Log2(h.mask);
    SuitsBucket(h.shape, f, alignment, size);
    SuitsAccepted(h, w, f, alignment, size);
    Log2Bit(h.mask);
    RingHead(h, w, c);
    assert Tried(h, c, alignment, size);
    Member(h, w, c, 1);
  }

  /* Buckets whose bits are clear need no trying. */
  lemma SkippedTried(h: Heap, from: int, b: nat, c: nat, alignment: nat, size: nat)
    requires 0 < alignment <= W32 && TriedFrom(h, from, b, alignment, size)
        && forall j: nat {:trigger Bit(h.mask, j)} | b <= j < c :: !Bit(h.mask, j)
    ensures TriedFrom(h, from, c, alignment, size)
  {
    forall i: nat | from <= i < c ensures Tried(h, i, alignment, size) {
      if i >= b { assert !Bit(h.mask, i); }
    }
  }

  /* Trying bucket b leaves those before it as tried as they were. */
  lemma StillTried(h: Heap, h': Heap, from: int, b: nat, stale: bool, alignment: nat, size: nat)
    requires 0 < alignment <= W32 && TriedFrom(h, from, b, alignment, size) && Tried(h', b, alignment, size)
    requires b in h.rings && b in h'.rings && h'.rings == h.rings[b := h'.rings[b]] && h'.shape == h.shape
    requires h'.mask == if stale then AndNot(h.mask, Pow2(b)) else h.mask
    ensures TriedFrom(h', from, b, alignment, size) && TriedFrom(h', from, b + 1, alignment, size)
  {
    hide AndNot; hide Bit; hide AcceptsAt;
    forall i: nat | from <= i < b + 1 ensures Tried(h', i, alignment, size) {
      ClearedBits(h.mask, b, i);
      assert i < b ==> Tried(h, i, alignment, size);
    }
  }

  lemma HeapMask(h: Heap, w: Bounds)
    requires HeapOk(h, w)
    ensures h.mask < W64
  {}

  /* ---- which region the scan accepts ---- */

  /* The buckets from b on are as they were. */
  predicate SameAt(h: Heap, h': Heap, c: nat) { c in h.rings && c in h'.rings && h'.rings[c] == h.rings[c] }

  ghost predicate SameFrom(h: Heap, h': Heap, b: nat) {
    h'.shape == h.shape && forall c: nat {:trigger SameAt(h, h', c)} | b <= c < NUM_FREE_BUCKETS :: SameAt(h, h', c)
  }

  lemma SameBefore(h: Heap, w: Bounds, b: nat)
    requires HeapOk(h, w)
    ensures SameFrom(h, h, b)
  {
    forall c: nat | b <= c < NUM_FREE_BUCKETS ensures SameAt(h, h, c) { RingHead(h, w, c); }
  }

  lemma SameAfter(h: Heap, h1: Heap, h': Heap, b: nat)
    requires SameFrom(h, h1, b) && h'.shape == h1.shape && b in h1.rings && b in h'.rings
        && h'.rings == h1.rings[b := h'.rings[b]]
    ensures SameFrom(h, h', b + 1) && (h'.rings == h1.rings ==> SameFrom(h, h', b))
  {
    forall c: nat | b <= c < NUM_FREE_BUCKETS && (c > b || h'.rings == h1.rings) ensures SameAt(h, h', c) {
      assert SameAt(h, h1, c);
    }
  }

  lemma NoneYetAccepted(h: Heap, h1: Heap, b: int, alignment: nat, size: nat)
    requires 0 < alignment <= W32
    ensures NoneAccepted(h, b, b, alignment, size) && TriedFrom(h1, b, b, alignment, size)
  {}

  lemma NoneNext(h: Heap, from: int, b: nat, alignment: nat, size: nat)
    requires 0 < alignment <= W32 && NoneAccepted(h, from, b, alignment, size) && !FirstAccepts(h, b, alignment, size)
    ensures NoneAccepted(h, from, b + 1, alignment, size)
  {}

  /* Buckets whose bits are clear hold nothing. */
  lemma SkippedNone(h: Heap, h1: Heap, w: Bounds, from: int, b: nat, c: nat, alignment: nat, size: nat)
    requires 0 < alignment <= W32 && HeapOk(h1, w) && SameFrom(h, h1, b) && NoneAccepted(h, from, b, alignment, size)
        && c <= NUM_FREE_BUCKETS
    requires forall j: nat {:trigger Bit(h1.mask, j)} | b <= j < c :: !Bit(h1.mask, j)
    ensures NoneAccepted(h, from, c, alignment, size) && (b <= c ==> SameFrom(h, h1, c))
  {
    hide AcceptsAt;
    forall j: nat | from <= j < c ensures !FirstAccepts(h, j, alignment, size) {
      if j >= b {
        assert SameAt(h, h1, j) && !Bit(h1.mask, j);
        assert |h1.rings[j]| == 1;
      }
    }
    forall j: nat | c <= j < NUM_FREE_BUCKETS && b <= c ensures SameAt(h, h1, j) {}
  }

  lemma SameFirst(h: Heap, h1: Heap, b: nat, alignment: nat, size: nat)
    requires 0 < alignment <= W32 && SameFrom(h, h1, b) && b < NUM_FREE_BUCKETS
    ensures b in h.rings && b in h1.rings && h1.rings[b] == h.rings[b]
        && (FirstAccepts(h, b, alignment, size) <==> FirstAccepts(h1, b, alignment, size))
  {
    assert SameAt(h, h1, b);
  }

  /* Where the scan stops is what it accepts. */
  lemma PicksHere(h: Heap, from: int, b: nat, alignment: nat, size: nat) returns (at: nat)
    requires 0 < alignment <= W32 && from <= b < NUM_FREE_BUCKETS && FirstAccepts(h, b, alignment, size)
        && NoneAccepted(h, from, b, alignment, size)
    ensures b in h.rings && |h.rings[b]| > 1 && at == h.rings[b][1] && Picks(h, from, at, alignment, size)
  {
    at := h.rings[b][1];
  }

  lemma PicksTwice(h: Heap, from: int, f: nat, g: nat, alignment: nat, size: nat)
    requires 0 < alignment <= W32 && Picks(h, from, f, alignment, size) && Picks(h, from, g, alignment, size)
    ensures f == g
  {
    hide AcceptsAt;
    var b: nat :| from <= b < NUM_FREE_BUCKETS && FirstAccepts(h, b, alignment, size) && h.rings[b][1] == f
      && NoneAccepted(h, from, b, alignment, size);
    var c: nat :| from <= c < NUM_FREE_BUCKETS && FirstAccepts(h, c, alignment, size) && h.rings[c][1] == g
      && NoneAccepted(h, from, c, alignment, size);
    NoneBefore(h, from, b, c, alignment, size);
    NoneBefore(h, from, c, b, alignment, size);
  }

  lemma NoneBefore(h: Heap, from: int, b: nat, c: nat, alignment: nat, size: nat)
    requires 0 < alignment <= W32 && from <= b && FirstAccepts(h, b, alignment, size)
        && NoneAccepted(h, from, c, alignment, size)
    ensures c <= b
  {}

  /* The scan accepts at most one region; it is free, and it either suits or wraps. */
  lemma PicksOnly(h: Heap, w: Bounds, alignment: nat, size: nat)
    requires HeapOk(h, w) && Request(alignment, size)
    ensures forall f, g {:trigger Picks(h, Bucket(size), f, alignment, size),
        Picks(h, Bucket(size), g, alignment, size)}
              | Picks(h, Bucket(size), f, alignment, size) && Picks(h, Bucket(size), g, alignment, size) :: f == g
    ensures forall f {:trigger Picks(h, Bucket(size), f, alignment, size)} | Picks(h, Bucket(size), f, alignment,
        size) ::
              FreeAt(h.shape, f) && (SuitsAt(h.shape, f, alignment, size) <==> !WrapsAt(h.shape, f, alignment, size))
    ensures NoneAccepted(h, Bucket(size), NUM_FREE_BUCKETS, alignment, size) ==>
        forall f {:trigger Picks(h, Bucket(size), f, alignment, size)} :: !Picks(h, Bucket(size), f, alignment, size)
  {
    hide AcceptsAt; hide SuitsAt; hide WrapsAt; hide HeapOk; hide Bucket;
    forall f, g | Picks(h, Bucket(size), f, alignment, size) && Picks(h, Bucket(size), g, alignment, size)
      ensures f == g {
      PicksTwice(h, Bucket(size), f, g, alignment, size);
    }
    forall f | Picks(h, Bucket(size), f, alignment, size)
      ensures FreeAt(h.shape, f) && (SuitsAt(h.shape, f, alignment, size) <==> !WrapsAt(h.shape, f, alignment, size)) {
      var b: nat :| Bucket(size) <= b < NUM_FREE_BUCKETS && FirstAccepts(h, b, alignment, size) && h.rings[b][1] == f
        && NoneAccepted(h, Bucket(size), b, alignment, size);
      Member(h, w, b, 1);
      SuitsAccepted(h, w, f, alignment, size);
    }
  }

  /* What is not accepted does not wrap. */
  lemma NoneWraps(h: Heap, w: Bounds, alignment: nat, size: nat)
    requires HeapOk(h, w) && Request(alignment, size)
    ensures NoAccept(h.shape, alignment, size) ==> NoWrapping(h.shape, alignment, size)
  {
    hide AcceptsAt; hide SuitsAt; hide WrapsAt; hide HeapOk;
    if NoAccept(h.shape, alignment, size) {
      forall f: nat | FreeAt(h.shape, f) ensures !WrapsAt(h.shape, f, alignment, size) {
        SuitsAccepted(h, w, f, alignment, size);
      }
    }
  }

  lemma SuitsSome(h: Heap, w: Bounds, f: nat, alignment: nat, size: nat)
    requires HeapOk(h, w) && Request(alignment, size) && FreeAt(h.shape, f)
    ensures SuitsAt(h.shape, f, alignment, size) ==> !NoAccept(h.shape, alignment, size)
    ensures WrapsAt(h.shape, f, alignment, size) ==> !NoWrapping(h.shape, alignment, size)
  {
    hide AcceptsAt; hide SuitsAt; hide WrapsAt; hide HeapOk;
    SuitsAccepted(h, w, f, alignment, size);
  }

  /* ---- claimed memory ---- */

  /* Every free region besides the claimed one is what it was. */
  lemma ClaimedWraps(s: Shape, s': Shape, lo: nat, alignment: nat, size: nat)
    requires alignment > 0 && OnlyNewFree(s, s', lo) && NoWrapping(s, alignment, size)
        && CeilTo(lo + 4, alignment) + size < W32
    ensures NoWrapping(s', alignment, size)
  {
    hide CeilTo;
    forall f: nat | FreeAt(s', f) ensures !WrapsAt(s', f, alignment, size) {
      if f != lo { assert FreeAt(s, f) && !WrapsAt(s, f, alignment, size); }
    }
  }

  lemma OthersRefuse(s: Shape, s': Shape, lo: nat, alignment: nat, size: nat)
    requires 0 < alignment <= W32 && OnlyNewFree(s, s', lo) && NoAccept(s, alignment, size)
    ensures forall f: nat {:trigger FreeAt(s', f)} | FreeAt(s', f) && f != lo :: !AcceptsAt(s', f, alignment, size)
  {
    hide Accepts;
    forall f: nat | FreeAt(s', f) && f != lo ensures !AcceptsAt(s', f, alignment, size) {
      assert FreeAt(s, f) && !AcceptsAt(s, f, alignment, size);
    }
  }

  /* If nothing was accepted before, the claimed region is what the scan accepts, or it accepts nothing. */
  lemma ClaimedPicks(h: Heap, w: Bounds, s: Shape, lo: nat, alignment: nat, size: nat)
    requires HeapOk(h, w) && Request(alignment, size) && OnlyNewFree(s, h.shape, lo) && NoAccept(s, alignment, size)
        && FreeAt(h.shape, lo) && Foremost(h, lo)
    requires size + 8 <= h.shape[lo].size
    ensures if AcceptsAt(h.shape, lo, alignment, size) then Picks(h, Bucket(size), lo, alignment, size)
        else NoAccept(h.shape, alignment, size)
  {
    OthersRefuse(s, h.shape, lo, alignment, size);
    hide AcceptsAt; hide OnlyNewFree; hide HeapOk; hide NoAccept;
    if AcceptsAt(h.shape, lo, alignment, size) {
      var b: nat := BucketOf(h.shape[lo].size);
      BucketMonotone(size, h.shape[lo].size - 8);
      BucketInterval(h.shape[lo].size - 8);
      hide Bucket; hide MinPayload;
      forall c: nat | Bucket(size) <= c < b ensures !FirstAccepts(h, c, alignment, size) {
        if c in h.rings && |h.rings[c]| > 1 { Member(h, w, c, 1); }
      }
      var at := PicksHere(h, Bucket(size), b, alignment, size);
    } else {
      assert NoAccept(h.shape, alignment, size) by {
        forall f: nat | FreeAt(h.shape, f) ensures !AcceptsAt(h.shape, f, alignment, size) {
          assert f != lo ==> !AcceptsAt(h.shape, f, alignment, size);
        }
      }
    }
  }

  /* A claimed region for which the sum wraps is accepted. */
  lemma ClaimedAccepted(h: Heap, w: Bounds, lo: nat, alignment: nat, size: nat)
    requires HeapOk(h, w) && Request(alignment, size) && FreeAt(h.shape, lo) && size + 8 <= h.shape[lo].size
    ensures W32 <= CeilTo(lo + 4, alignment) + size <==> WrapsAt(h.shape, lo, alignment, size)
  {
    assert RegOk(h.shape, lo) && RegOk(h.shape, End(h.shape, lo)) && End(h.shape, End(h.shape, lo)) <= w.limit;
    AlignUpWraps(lo + 4, alignment);
  }
}
