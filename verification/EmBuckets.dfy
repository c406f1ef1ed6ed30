/** emmalloc's 64 size classes. */
module EmBuckets {
  import opened Words

  const NUM_FREE_BUCKETS: nat := 64
  const SMALLEST_ALLOCATION_SIZE: nat := 8

  /* __builtin_clz */
  function Clz(x: nat): int
    requires x > 0
  {
    31 - Log2(x)
  }

  /* compute_free_list_bucket */
  function Bucket(s: nat): int
    requires s < W32
  {
    if s < 128 then s / 8 - 1
    else
      var clz := Clz(s);
      if clz > 19 then
        ClzBounds(s);
        110 - 4 * clz + Xor(Shr(s, 29 - clz), 4)
      else
        var i := 71 - 2 * clz + Xor(Shr(s, 30 - clz), 2);
        if i < NUM_FREE_BUCKETS - 1 then i else NUM_FREE_BUCKETS - 1
  }

  /* n * p for the few n that occur. */
  function Times(n: nat, p: nat): nat {
    if n == 2 then 2 * p else if n == 3 then 3 * p else if n == 4 then 4 * p else if n == 5 then 5 * p
    else if n == 6 then 6 * p else if n == 7 then 7 * p else 8 * p
  }

  /* The smallest payload of each bucket. */
  function MinPayload(b: nat): nat {
    if b <= 14 then 8 * (b + 1)
    else if b <= 33 then Times(4 + (b + 14) % 4, Pow2((b + 14) / 4 - 2))
    else Times(2 + (b - 9) % 2, Pow2((b - 9) / 2 - 1))
  }

  lemma TimesIs(n: nat, p: nat)
    requires 2 <= n <= 8
    ensures Times(n, p) == n * p
  {}

  lemma BetweenTimes(s: nat, t: nat, p: nat)
    requires 2 <= t < 8 && t * p <= s < t * p + p
    ensures Times(t, p) <= s < Times(t + 1, p)
  {
    TimesIs(t, p);
    TimesIs(t + 1, p);
    assert (t + 1) * p == t * p + p;
  }

  lemma TopBits(t: nat)
    ensures 4 <= t < 8 ==> Xor(t, 4) == t - 4
    ensures 2 <= t < 4 ==> Xor(t, 2) == t - 2
  {
    if 4 <= t < 8 {
      assert t / 2 == 2 || t / 2 == 3;
    } else if 2 <= t < 4 {
      assert t / 2 == 1;
    }
  }

  lemma ClzBounds(s: nat)
    requires 128 <= s < W32
    ensures var k := 31 - Clz(s); 7 <= k <= 31 && Pow2(k) <= s < 2 * Pow2(k)
  {
    Pow2Values();
    Log2Bounds(s);
    var k := Log2(s);
    if k < 7 { Pow2Monotone(k + 1, 7); }
    if k > 31 { Pow2Monotone(32, k); }
  }

  lemma TopThree(s: nat, k: nat)
    requires k >= 2 && Pow2(k) <= s < 2 * Pow2(k)
    ensures var t, p := Shr(s, k - 2), Pow2(k - 2); 4 <= t < 8 && Times(t, p) <= s < Times(t + 1, p)
  {
    Quarter(k);
    hide Pow2; hide Times; hide Shr;
    ShrRange(4, 8, s, k - 2);
    ShrBounds(s, k - 2);
    BetweenTimes(s, Shr(s, k - 2), Pow2(k - 2));
  }

  lemma Quarter(k: nat)
    requires k >= 2
    ensures Pow2(k) == 4 * Pow2(k - 2)
  {
    assert Pow2(k - 1) == 2 * Pow2(k - 2);
  }

  /* Sizes with highest bit k < 12: four buckets for each k. */
  lemma FineBuckets(s: nat, k: nat, t: nat, b: nat)
    requires 7 <= k <= 11 && Pow2(k) <= s < 2 * Pow2(k) && t == Shr(s, k - 2) && b == 4 * k + t - 18
    ensures 4 <= t < 8 && 14 <= b <= 33 && MinPayload(b) <= s < MinPayload(b + 1)
  {
    hide MinPayload; hide Times; hide Shr; hide Pow2;
    TopThree(s, k);
    FineBounds(k, t, Pow2(k - 2));
  }

  lemma FineBounds(k: nat, t: nat, p: nat)
    requires 7 <= k <= 11 && 4 <= t < 8 && p == Pow2(k - 2)
    ensures var b := 4 * k - 14 + (t - 4); MinPayload(b) <= Times(t, p) && Times(t + 1, p) <= MinPayload(b + 1)
  {
    var b := 4 * k - 14 + (t - 4);
    assert (b + 14) / 4 == k && (b + 14) % 4 == t - 4;
    assert Pow2(5) == 32 && Pow2(9) == 512 && Pow2(10) == 1024 && Pow2(11) == 2048;
    if t < 7 {
      assert (b + 15) / 4 == k && (b + 15) % 4 == t - 3;
    } else {
      assert (b + 15) / 4 == k + 1 && (b + 15) % 4 == 0;
      assert Pow2(k - 1) == 2 * p;
    }
  }

  /* Sizes with highest bit k >= 12: two buckets for each k, and one for all from 2^27. */
  lemma CoarseBuckets(s: nat, k: nat)
    requires 12 <= k <= 31 && Pow2(k) <= s < 2 * Pow2(k)
    ensures var t := Shr(s, k - 1); 2 <= t < 4 && var b := 2 * k + 9 + (t - 2);
            && (b < 63 ==> 33 <= b && MinPayload(b) <= s < MinPayload(b + 1))
            && (b >= 63 ==> MinPayload(63) <= s)
  {
    hide MinPayload; hide Times; hide Shr;
    var p := Pow2(k - 1);
    ShrRange(2, 4, s, k - 1);
    ShrBounds(s, k - 1);
    var t := Shr(s, k - 1);
    CoarseBounds(k, t, p);
    BetweenTimes(s, t, p);
    hide MinPayload; hide Times; hide Shr;
    LastBucket();
    if k >= 27 { Pow2Monotone(27, k); }
  }

  lemma CoarseBounds(k: nat, t: nat, p: nat)
    requires 12 <= k && 2 <= t < 4 && p == Pow2(k - 1)
    ensures var b := 2 * k + 9 + (t - 2); MinPayload(b) <= Times(t, p) && Times(t + 1, p) <= MinPayload(b + 1)
  {
    CoarseLow(k, t);
    CoarseHigh(k, t);
  }

  lemma CoarseLow(k: nat, t: nat)
    requires 12 <= k && 2 <= t < 4
    ensures MinPayload(2 * k + 9 + (t - 2)) <= Times(t, Pow2(k - 1))
  {
    if k == 12 && t == 2 { Corner(); } else { CoarseAt(2 * k + 9 + (t - 2), k, t - 2); }
  }

  lemma CoarseHigh(k: nat, t: nat)
    requires 12 <= k && 2 <= t < 4
    ensures Times(t + 1, Pow2(k - 1)) == MinPayload(2 * k + 9 + (t - 2) + 1)
  {
    hide MinPayload;
    if t == 2 {
      CoarseAt(2 * k + 10, k, 1);
    } else {
      CoarseAt(2 * k + 11, k + 1, 0);
      assert Pow2(k) == 2 * Pow2(k - 1);
    }
  }

  lemma CoarseAt(b: nat, k: nat, r: nat)
    requires k > 0 && r < 2 && b == 2 * k + 9 + r && b >= 34
    ensures MinPayload(b) == Times(2 + r, Pow2(k - 1))
  {
    assert (b - 9) / 2 == k && (b - 9) % 2 == r;
    hide Pow2; hide Times;
  }

  /* Where the two formulas meet, and the last bucket. */
  lemma Corner()
    ensures MinPayload(33) == 3584 && Pow2(11) == 2048 && MinPayload(34) == 6144
  {
    assert Pow2(9) == 512;
  }

  lemma LastBucket()
    ensures MinPayload(63) == Pow2(27)
  {
    assert Pow2(27) == 2 * Pow2(26);
    hide Pow2;
  }

  lemma BucketInterval(s: nat)
    requires SMALLEST_ALLOCATION_SIZE <= s < W32
    ensures 0 <= Bucket(s) < NUM_FREE_BUCKETS && MinPayload(Bucket(s)) <= s
    ensures Bucket(s) == NUM_FREE_BUCKETS - 1 || s < MinPayload(Bucket(s) + 1)
  {
    if s < 128 {
      assert MinPayload(15) == 160 by { assert Pow2(5) == 32; }
    } else {
      ClzBounds(s);
      var k := 31 - Clz(s);
      if k <= 11 { FineInterval(s, k); } else { CoarseInterval(s, k); }
      hide MinPayload; hide Bucket;
    }
  }

  lemma FineInterval(s: nat, k: nat)
    requires 128 <= s < W32 && k == 31 - Clz(s) && 7 <= k <= 11 && Pow2(k) <= s < 2 * Pow2(k)
    ensures 0 <= Bucket(s) < NUM_FREE_BUCKETS && MinPayload(Bucket(s)) <= s < MinPayload(Bucket(s) + 1)
  {
    hide MinPayload; hide Shr; hide Xor; hide Log2; hide Pow2; hide Clz;
    var t := Shr(s, k - 2);
    TopThree(s, k);
    FineBuckets(s, k, t, 4 * k + t - 18);
    TopBits(t);
  }

  lemma CoarseInterval(s: nat, k: nat)
    requires 128 <= s < W32 && k == 31 - Clz(s) && 12 <= k <= 31 && Pow2(k) <= s < 2 * Pow2(k)
    ensures 0 <= Bucket(s) < NUM_FREE_BUCKETS && MinPayload(Bucket(s)) <= s
    ensures Bucket(s) == NUM_FREE_BUCKETS - 1 || s < MinPayload(Bucket(s) + 1)
  {
    hide MinPayload; hide Shr; hide Xor; hide Log2; hide Pow2; hide Clz;
    CoarseBuckets(s, k);
    TopBits(Shr(s, k - 1));
  }

  lemma MinPayloadStep(b: nat)
    requires b < 63
    ensures MinPayload(b) < MinPayload(b + 1)
  {
    if b < 14 {
    } else if b < 33 {
      var k, t := (b + 14) / 4, 4 + (b + 14) % 4;
      FineBounds(k, t, Pow2(k - 2));
      TimesGrows(t, Pow2(k - 2));
    } else {
      var k, t := (b - 9) / 2, 2 + (b - 9) % 2;
      CoarseBounds(k, t, Pow2(k - 1));
      TimesGrows(t, Pow2(k - 1));
    }
  }

  lemma TimesGrows(t: nat, p: nat)
    requires 2 <= t < 8 && p > 0
    ensures Times(t, p) < Times(t + 1, p)
  {}

  lemma {:induction false} MinPayloadMonotone(i: nat, j: nat)
    requires i <= j < NUM_FREE_BUCKETS
    ensures MinPayload(i) <= MinPayload(j)
  {
    if i < j {
      MinPayloadMonotone(i, j - 1);
      MinPayloadStep(j - 1);
    }
  }

  /* A payload is in bucket b exactly when it lies in the interval of b. */
  lemma BucketCorrect(s: nat, b: nat)
    requires SMALLEST_ALLOCATION_SIZE <= s < W32 && b < NUM_FREE_BUCKETS
    ensures Bucket(s) == b <==> MinPayload(b) <= s && (b == NUM_FREE_BUCKETS - 1 || s < MinPayload(b + 1))
  {
    BucketInterval(s);
    var i := Bucket(s);
    if i < b { MinPayloadMonotone(i + 1, b); }
    if b < i { MinPayloadMonotone(b + 1, i); }
  }

  /* Larger payloads never go to lower buckets, so a higher bucket means a larger payload. */
  lemma BucketMonotone(s: nat, t: nat)
    requires SMALLEST_ALLOCATION_SIZE <= s < W32 && SMALLEST_ALLOCATION_SIZE <= t < W32
    ensures s <= t ==> Bucket(s) <= Bucket(t)
    ensures Bucket(s) < Bucket(t) ==> s < t
  {
    BucketInterval(s);
    BucketInterval(t);
    hide Bucket; hide MinPayload;
    if s <= t && Bucket(t) < Bucket(s) { MinPayloadMonotone(Bucket(t) + 1, Bucket(s)); }
    if t <= s && Bucket(s) < Bucket(t) { MinPayloadMonotone(Bucket(s) + 1, Bucket(t)); }
  }
}
