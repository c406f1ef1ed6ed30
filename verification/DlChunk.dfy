/** The head word of a chunk: its size, with CINUSE_BIT and PINUSE_BIT in the low bits that an
    aligned size leaves free.  Elsewhere a head is kept unpacked; the lemmas here show that the
    C macros on packed words act on the fields. */
module DlChunk {
  import opened Words

  type Ptr = nat

  const MIN_CHUNK_SIZE: nat := 16

  datatype Head = Head(size: nat, cinuse: bool, pinuse: bool) {
    /* The word in memory. */
    function Word(): nat { size + 2 * Digit(cinuse) + Digit(pinuse) }
  }

  const FENCEPOST_HEAD: Head := Head(4, true, true)

  /* chunksize: `head & ~FLAG_BITS` */
  function ChunkSizeOf(word: nat): nat { AndNot(word, 7) }

  lemma FieldsOfWord(h: Head)
    requires h.size % 8 == 0
    ensures ChunkSizeOf(h.Word()) == h.size
    ensures AndBit(h.Word(), 0) != 0 <==> h.pinuse
    ensures AndBit(h.Word(), 1) != 0 <==> h.cinuse
  {
    var w := h.Word();
    AndBitMeaning(w, 0);
    AndBitMeaning(w, 1);
    ClearLow3(w, h.size / 8);
  }

  lemma ClearLow3(w: nat, a: nat)
    requires w / 8 == a
    ensures AndNot(w, 7) == 8 * a
  {
    AndNotStep(w, 7);
    AndNotStep(w / 2, 3);
    AndNotStep(w / 4, 1);
    assert w / 2 / 2 == w / 4 && w / 4 / 2 == w / 8;
  }

  lemma AndNotStep(a: nat, b: nat)
    requires b % 2 == 1
    ensures AndNot(a, b) == 2 * AndNot(a / 2, b / 2)
  {}

  /* `head |= PINUSE_BIT` and `head &= ~PINUSE_BIT` */
  lemma PinuseUpdates(h: Head)
    requires h.size % 8 == 0
    ensures Or(h.Word(), 1) == h.(pinuse := true).Word()
    ensures AndNot(h.Word(), 1) == h.(pinuse := false).Word()
  {
    var w := h.Word();
    if w > 0 { assert Or(w, 1) == 2 * Or(w / 2, 0) + 1; }
    AndNotStep(w, 1);
  }
}
