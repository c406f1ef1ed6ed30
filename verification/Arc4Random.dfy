/** arc4random: a key-erasing generator with a reserve, and bounded uniform numbers. */
module Arc4Random {
  import opened Words
  import opened RandomStream
  import opened ChaCha20

  /* chacha20_rng with len == RNG_RESERVE_LEN */
  function ChaCha(): Generator {
    Generator((k: Key) => KeyStream(k, RNG_RESERVE_LEN), (k: Key) => NextKey(k))
  }

  /** What getentropy does: it fills the key, or fails and leaves it alone. */
  datatype Entropy = Delivered(bytes: seq<byte>) | Failed

  function ZeroKey(): (k: seq<byte>)
    ensures |k| == CHACHA20_KEYBYTES
  {
    seq(CHACHA20_KEYBYTES, _ => 0)
  }

  /* The key of a generator once it has been seeded.  The build defines NDEBUG, so a failure goes unnoticed. */
  function Seed(entropy: Entropy): seq<byte> { if entropy.Delivered? then entropy.bytes else ZeroKey() }

  lemma PatchedIs(s: seq<byte>, o: seq<byte>, at: nat, b: seq<byte>)
    requires at + |b| <= |o| == |s|
    requires forall i | 0 <= i < |s| :: s[i] == if at <= i < at + |b| then b[i - at] else o[i]
    ensures s == Patched(o, at, b)
  {}

  lemma SameBytes(s: seq<byte>, t: seq<byte>)
    requires |s| == |t| && forall i | 0 <= i < |s| :: s[i] == t[i]
    ensures s == t
  {}

  /* ---- rng_state and arc4random_buf ---- */

  class RngState {
    var initialized: bool
    var off: nat
    const key: array<byte>
    const reserve: array<byte>

    ghost predicate Valid() reads this, key, reserve {
      && key.Length == CHACHA20_KEYBYTES && reserve.Length == RNG_RESERVE_LEN && off <= RNG_RESERVE_LEN
      && (forall i | 0 <= i < (if initialized then off else RNG_RESERVE_LEN) :: reserve[i] == 0)
      && (!initialized ==> forall i | 0 <= i < CHACHA20_KEYBYTES :: key[i] == 0)
    }

    /* The part of the reserve already handed out holds zeros, so this is all there is. */
    ghost function State(): Rng reads this, key, reserve
      requires Valid()
    {
      Rng(key[..], reserve[off..])
    }

    /* The zeroed thread-local state. */
    constructor ()
      ensures Valid() && !initialized && fresh(key) && fresh(reserve) && key != reserve
    {
      initialized, off := false, 0;
      key := new byte[CHACHA20_KEYBYTES](_ => 0);
      reserve := new byte[RNG_RESERVE_LEN](_ => 0);
    }

    /* The first use takes the key from getentropy, whether or not that fails. */
    method Initialize(entropy: Entropy)
      requires Valid() && |Seed(entropy)| == CHACHA20_KEYBYTES
      modifies this, key
      ensures Valid() && initialized
      ensures State() == if old(initialized) then old(State()) else Rng(Seed(entropy), [])
    {
      if !initialized {
        if entropy.Delivered? {
          forall i | 0 <= i < CHACHA20_KEYBYTES { key[i] := entropy.bytes[i]; }
        }
        off := RNG_RESERVE_LEN;
        initialized := true;
        assert key[..] == Seed(entropy);
      }
    }

    /* n bytes of the run s are in the buffer, which was o. */
    ghost predicate Filled(buffer: array<byte>, o: seq<byte>, s: Rng, n: nat) reads this, key, reserve, buffer {
      && Valid() && buffer != key && buffer != reserve && key != reserve && initialized
      && n <= |o| && State() == Draw(ChaCha(), s, n).1 && buffer[..] == Patched(o, 0, Draw(ChaCha(), s, n).0)
    }

    /* Blocks that fit are generated straight into the buffer. */
    method WholeBlocks(buffer: array<byte>, at0: nat, remaining0: nat, ghost o: seq<byte>, ghost s: Rng)
        returns (at: nat, remaining: nat)
      requires Filled(buffer, o, s, at0) && off == RNG_RESERVE_LEN && at0 + remaining0 <= buffer.Length
      modifies key, buffer
      ensures Filled(buffer, o, s, at) && at + remaining == at0 + remaining0 && remaining < RNG_RESERVE_LEN && at >= at0
    {
      hide Draw; hide Patched; hide KeyStream; hide NextKey;
      at, remaining := at0, remaining0;
      while remaining >= RNG_RESERVE_LEN
        invariant off == RNG_RESERVE_LEN && at + remaining == at0 + remaining0 && at >= at0
        invariant Filled(buffer, o, s, at)
      {
        ghost var k := key[..];
        assert State() == Rng(k, []);
        DrawBlock(ChaCha(), k);
        DrawTwice(ChaCha(), s, at, RNG_RESERVE_LEN);
        PatchMore(o, 0, Draw(ChaCha(), s, at).0, KeyStream(k, RNG_RESERVE_LEN));
        ChaCha20.Rng(buffer, at, RNG_RESERVE_LEN, key);
        assert State() == Rng(NextKey(k), []);
        at := at + RNG_RESERVE_LEN;
        remaining := remaining - RNG_RESERVE_LEN;
      }
    }

    method RefillReserve()
      requires Valid() && initialized && off == RNG_RESERVE_LEN && key != reserve
      modifies key, reserve, `off
      ensures Valid() && off == 0 && State() == Rng(NextKey(old(key[..])), KeyStream(old(key[..]), RNG_RESERVE_LEN))
    {
      ghost var k := key[..];
      PatchAll(reserve[..], KeyStream(k, RNG_RESERVE_LEN));
      ChaCha20.Rng(reserve, 0, RNG_RESERVE_LEN, key);
      off := 0;
    }

    /* Bytes leave the reserve, and zeros take their place. */
    method TakeReserve(buffer: array<byte>, at: nat, partial: nat)
      requires Valid() && initialized && off + partial <= RNG_RESERVE_LEN && at + partial <= buffer.Length
      requires buffer != key && buffer != reserve && key != reserve
      modifies buffer, reserve, `off
      ensures Valid() && off == old(off) + partial && State() == Draw(ChaCha(), old(State()), partial).1
      ensures buffer[..] == Patched(old(buffer[..]), at, Draw(ChaCha(), old(State()), partial).0)
    {
      ghost var o, r := buffer[..], reserve[off..];
      forall i | 0 <= i < partial { buffer[at + i] := reserve[off + i]; }
      PatchedIs(buffer[..], o, at, r[..partial]);
      forall i | 0 <= i < partial { reserve[off + i] := 0; }
      off := off + partial;
      SameBytes(reserve[off..], r[partial..]);
    }

    /* arc4random_buf; `entropy` is what getentropy would do. */
    method Buf(buffer: array<byte>, len: nat, entropy: Entropy)
      requires Valid() && len <= buffer.Length && |Seed(entropy)| == CHACHA20_KEYBYTES
      requires buffer != key && buffer != reserve && key != reserve
      modifies this, key, reserve, buffer
      ensures Valid() && initialized
      ensures var s := if old(initialized) then old(State()) else Rng(Seed(entropy), []);
              State() == Draw(ChaCha(), s, len).1 && buffer[..] == Patched(old(buffer[..]), 0, Draw(ChaCha(), s, len).0)
    {
      hide Patched; hide KeyStream; hide NextKey; hide Draw; hide ChaCha;
      Initialize(entropy);
      ghost var s, o := State(), buffer[..];
      DrawNone(ChaCha(), s);
      PatchNone(o, 0);
      var at, remaining := 0, len;
      while remaining > 0
        invariant 0 <= remaining && at + remaining == len
        invariant Filled(buffer, o, s, at)
        decreases remaining
      {
        if off == RNG_RESERVE_LEN {
          at, remaining := WholeBlocks(buffer, at, remaining, o, s);
          if remaining == 0 { break; }
        }
        at, remaining := FromReserve(buffer, at, remaining, o, s);
      }
    }

    /* In every process whose getentropy fails, the generator delivers these same bytes. */
    static method WithoutEntropy(n: nat) returns (a: array<byte>)
      ensures fresh(a) && a[..] == Draw(ChaCha(), Rng(ZeroKey(), []), n).0
    {
      hide Patched; hide Draw; hide ChaCha;
      var g := new RngState();
      a := new byte[n];
      PatchAll(a[..], Draw(ChaCha(), Rng(ZeroKey(), []), n).0);
      g.Buf(a, n, Failed);
    }

    /* As much as the reserve has, which is filled first if it is used up. */
    method FromReserve(buffer: array<byte>, at0: nat, remaining0: nat, ghost o: seq<byte>, ghost s: Rng)
        returns (at: nat, remaining: nat)
      requires Filled(buffer, o, s, at0) && at0 + remaining0 <= buffer.Length && remaining0 > 0
      modifies key, reserve, `off, buffer
      ensures Filled(buffer, o, s, at) && at + remaining == at0 + remaining0 && remaining < remaining0
    {
      hide Patched; hide KeyStream; hide NextKey; hide Draw; hide ChaCha;
      if off == RNG_RESERVE_LEN { NextReserve(remaining0); }
      var partial := RNG_RESERVE_LEN - off;
      if remaining0 < partial { partial := remaining0; }
      DrawTwice(ChaCha(), s, at0, partial);
      PatchMore(o, 0, Draw(ChaCha(), s, at0).0, Draw(ChaCha(), State(), partial).0);
      TakeReserve(buffer, at0, partial);
      at, remaining := at0 + partial, remaining0 - partial;
    }

    /* arc4random: four bytes of the stream as a word. */
    method Next(entropy: Entropy) returns (v: bv32)
      requires Valid() && key != reserve && |Seed(entropy)| == CHACHA20_KEYBYTES
      modifies this, key, reserve
      ensures Valid() && initialized
      ensures var s := if old(initialized) then old(State()) else Rng(Seed(entropy), []);
              State() == Draw(ChaCha(), s, 4).1 && v == WordOf(Draw(ChaCha(), s, 4).0, 0)
    {
      hide Draw; hide ChaCha; hide WordOf;
      var b := new byte[4];
      ghost var s := if initialized then State() else Rng(Seed(entropy), []);
      PatchAll(b[..], Draw(ChaCha(), s, 4).0);
      Buf(b, 4, entropy);
      v := WordOf(b[..], 0);
    }

    method NextReserve(ghost n: nat)
      requires Valid() && initialized && off == RNG_RESERVE_LEN && key != reserve
      modifies key, reserve, `off
      ensures Valid() && off == 0
      ensures forall m: nat {:trigger Draw(ChaCha(), State(), m)} | 0 < m <= n ::
          Draw(ChaCha(), State(), m) == Draw(ChaCha(), old(State()), m)
    {
      hide KeyStream; hide NextKey; hide Draw;
      DrawRefilled(ChaCha(), State(), n);
      RefillReserve();
    }
  }
}
