/** Requests and chunk sizes. */
module DlRequest {
  import opened Words
  import opened Alignment
  import opened DlChunk
  import opened DlBinMap
  import opened DlSmallBins

  const CHUNK_OVERHEAD: nat := 4
  const MIN_REQUEST: nat := 11
  const MAX_SMALL_REQUEST: nat := 236
  const MAX_REQUEST: nat := 0xFFFF_FFC0
  const MAX_SIZE_T: nat := 0xFFFF_FFFF

  /* pad_request */
  function PadRequest(req: nat): nat { (req + CHUNK_OVERHEAD + 15) / 16 * 16 }

  /* request2size */
  function Request2Size(req: nat): nat { if req < MIN_REQUEST then MIN_CHUNK_SIZE else PadRequest(req) }

  /* What pad_request and request2size promise. */
  lemma RequestSizes(bytes: nat)
    ensures Request2Size(bytes) % 16 == 0 && Request2Size(bytes) >= MIN_CHUNK_SIZE
    ensures bytes + CHUNK_OVERHEAD <= Request2Size(bytes) < bytes + CHUNK_OVERHEAD + 16
    ensures bytes > MAX_SMALL_REQUEST ==> Request2Size(bytes) == PadRequest(bytes) && !IsSmall(PadRequest(bytes))
    ensures bytes <= MAX_SMALL_REQUEST ==> Request2Size(bytes) <= 240
    ensures bytes < MAX_REQUEST ==> Request2Size(bytes) < W32
  {}

  predicate IsSmall(s: nat) { s / 8 < NBINS }

  lemma SmallSizes(s: nat)
    requires s % 16 == 0
    ensures s == SmallSize(SmallIndex(s))
    ensures IsSmall(s) <==> s < SMALL_LIMIT
  {}

  /* chunk2mem, mem2chunk */
  function Chunk2Mem(p: Ptr): Ptr { p + 8 }

  function Mem2Chunk(mem: Ptr): Ptr
    requires mem >= 8
  {
    mem - 8
  }

  const HALF_W32: nat := 0x8000_0000

  /* What `a` is after k rounds of `a <<= 1`, from 32 on. */
  function Doubled(k: nat): nat { if k == 0 then 32 else Doubled(k - 1) * 2 % W32 }

  lemma {:induction false} DoubledIs(k: nat)
    ensures Doubled(k) == if k <= 26 then Pow2(k + 5) else 0
    ensures Doubled(k) <= HALF_W32
  {
    if k > 0 {
      DoubledIs(k - 1);
      DoubleOnce(k, Doubled(k - 1));
    } else {
      Pow2Values();
    }
  }

  lemma DoubleOnce(k: nat, x: nat)
    requires k > 0 && x == if k <= 27 then Pow2(k + 4) else 0
    ensures x * 2 % W32 == (if k <= 26 then Pow2(k + 5) else 0) <= HALF_W32
  {
    Pow2Values();
    if k <= 26 { Pow2Monotone(k + 5, 31); }
    assert Pow2(k + 5) == 2 * Pow2(k + 4);
    hide Pow2;
    if k <= 26 { NoWrap(x * 2); }
  }

  /* `while (a < alignment) a <<= 1` ends exactly for alignments of at most 2^31. */
  lemma DoublingEnds(alignment: nat)
    ensures (exists k: nat {:trigger Doubled(k)} :: Doubled(k) >= alignment) <==> alignment <= HALF_W32
  {
    if alignment <= HALF_W32 {
      DoubledIs(26);
      Pow2Values();
      assert Doubled(26) >= alignment;
    }
    forall k: nat ensures Doubled(k) <= HALF_W32 { DoubledIs(k); }
  }

  /* So it never ends for the next alignment. */
  lemma NeverEnds()
    ensures forall k: nat {:trigger Doubled(k)} :: Doubled(k) < HALF_W32 + 1
  {
    forall k: nat ensures Doubled(k) < HALF_W32 + 1 { DoubledIs(k); }
  }

  /* The steps from 32 up to 2^31, and the one after that. */
  lemma DoublingStep(k: nat)
    requires k <= 26
    ensures Doubled(0) == 32 && 32 <= Doubled(k) <= HALF_W32 && IsPowerOf2(Doubled(k))
    ensures Doubled(k + 1) == Doubled(k) * 2 % W32
    ensures if k < 26 then Doubled(k + 1) == 2 * Doubled(k) else Doubled(k) == HALF_W32 && Doubled(k + 1) == 0
  {
    DoubledIs(k);
    DoubledIs(k + 1);
    Pow2Values();
    Pow2IsPower(k + 5);
    if k >= 1 { Pow2Monotone(5, k + 5); }
    hide And;
  }

  lemma PowerTest(a: nat)
    requires MIN_CHUNK_SIZE <= a < W32
    ensures IsPowerOf2(a) <==> And(a, a - 1) == 0
    ensures IsPowerOf2(a) ==> a <= HALF_W32
    ensures IsPowerOf2(MIN_CHUNK_SIZE)
  {
    Pow2Values();
    Pow2IsPower(4);
    hide And;
    if IsPowerOf2(a) { AtMostHalf(a); }
  }

  /* The alignment that internal_memalign works with; `hangs` tells that the loop has come to zero, where it stays. */
  method RoundAlignment(alignment: nat) returns (a: nat, hangs: bool)
    requires alignment < W32
    ensures hangs <==> alignment > HALF_W32
    ensures !hangs ==> IsPowerOf2(a) && alignment <= a && MIN_CHUNK_SIZE <= a <= HALF_W32
    ensures IsPowerOf2(alignment) && alignment >= MIN_CHUNK_SIZE ==> a == alignment
    ensures !hangs && a > MIN_CHUNK_SIZE && a != alignment ==> a / 2 < alignment
  {
    hide And; hide IsPowerOf2; hide Pow2; hide Doubled;
    a, hangs := if alignment < MIN_CHUNK_SIZE then MIN_CHUNK_SIZE else alignment, false;
    PowerTest(a);
    if And(a, a - 1) != 0 {
      var b := 32;
      ghost var k: nat := 0;
      DoublingStep(0);
      while b < a
        invariant b == Doubled(k) && k <= 26 && b / 2 < a && 32 <= b
        decreases 27 - k
      {
        DoublingStep(k);
        b := b * 2 % W32;
        k := k + 1;
        if b == 0 { return 0, true; }
      }
      DoublingStep(k);
      a := b;
    }
  }

  lemma AtMostHalf(a: nat)
    requires IsPowerOf2(a) && a < W32
    ensures a <= HALF_W32
  {
    Pow2Values();
    var k := Exponent(a);
    if k >= 32 { Pow2Monotone(32, k); } else { Pow2Monotone(k, 31); }
  }

  /* The spot is a whole number of minimal chunks away. */
  lemma AlignedSpot(p: Ptr, al: nat)
    requires IsPowerOf2(al) && MIN_CHUNK_SIZE <= al && p % 16 == 8 && p + 8 + al <= W32 && (p + 8) % al != 0
    ensures al <= W32 && AlignUp(p + 8, al) >= p + 24 && AlignUp(p + 8, al) - 8 >= p + MIN_CHUNK_SIZE
        && (AlignUp(p + 8, al) - 8 - p) % 16 == 0
  {
    hide AlignUp; hide IsPowerOf2;
    AlignUpOk(p + 8, al);
    SixteenDivides(AlignUp(p + 8, al), al);
    SpotArith(p, AlignUp(p + 8, al));
  }

  lemma SixteenDivides(x: nat, al: nat)
    requires IsPowerOf2(al) && 16 <= al && x % al == 0
    ensures x % 16 == 0
  {
    Pow2Values();
    Pow2IsPower(4);
    Finer(x, 16, al);
  }

  lemma SpotArith(p: nat, a: nat)
    requires p % 16 == 8 && a % 16 == 0 && a > p + 8
    ensures a - 8 - p >= 16 && (a - 8 - p) % 16 == 0
  {
    Sixteens(a, p + 8);
  }

  lemma Sixteens(a: nat, b: nat)
    requires a % 16 == 0 && b % 16 == 0
    ensures (a - b) % 16 == 0 && (a > b ==> a - b >= 16)
  {
    assert a - b == 16 * (a / 16 - b / 16);
  }

  function Min(a: int, b: int): (r: int)
    ensures r <= a && r <= b && (r == a || r == b)
  {
    if a < b then a else b
  }

  /* The bit search of the small path finds a bin beyond idx. */
  lemma NextSmallBin(m: BinMap, idx: nat)
    requires idx < NBINS && Shr(m, idx) != 0 && !Marked(m, idx)
    ensures LeftInSmall(m, idx) != 0 && LeastBit(LeftInSmall(m, idx)) > 0
    ensures var i := Bit2Idx(LeastBit(LeftInSmall(m, idx)));
            idx < i < NBINS && Marked(m, i) && forall j {:trigger Marked(m, j)} | idx < j < i :: !Marked(m, j)
  {
    hide LeftInSmall; hide LeastBit; hide Bit2Idx; hide Marked;
    var j := WordNonZero(m, idx);
    LeftInSmallMeaning(m, idx, j);
    EmptyMap(LeftInSmall(m, idx));
    LeastMarked(LeftInSmall(m, idx));
    var i := Bit2Idx(LeastBit(LeftInSmall(m, idx)));
    LeftInSmallMeaning(m, idx, i);
    forall k | idx < k < i ensures !Marked(m, k) { LeftInSmallMeaning(m, idx, k); }
  }
}
