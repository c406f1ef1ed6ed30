/** A random byte stream made of generator blocks, read through a reserve.  Everything here holds
    for every generator that turns a key into a block and the next key. */
module RandomStream {
  type byte = bv8

  const RNG_RESERVE_LEN: nat := 512
  const KEYBYTES: nat := 32

  type Key = s: seq<byte> | |s| == KEYBYTES witness seq(KEYBYTES, _ => 0)

  type Reserve = s: seq<byte> | |s| == RNG_RESERVE_LEN witness seq(RNG_RESERVE_LEN, _ => 0)

  datatype Generator = Generator(block: Key -> Reserve, next: Key -> Key)

  /** What is left of the reserve, and the key of the next block. */
  datatype Rng = Rng(key: Key, tail: seq<byte>)

  /* The key k blocks on. */
  function KeyAfter(g: Generator, key: Key, k: nat): Key
    decreases k
  {
    if k == 0 then key else KeyAfter(g, g.next(key), k - 1)
  }

  /* Byte i of the infinite stream that starts with the block of `key`. */
  function StreamByte(g: Generator, key: Key, i: nat): byte {
    g.block(KeyAfter(g, key, i / RNG_RESERVE_LEN))[i % RNG_RESERVE_LEN]
  }

  /* Byte i of what the generator has yet to deliver. */
  function Upcoming(g: Generator, s: Rng, i: nat): byte {
    if i < |s.tail| then s.tail[i] else StreamByte(g, s.key, i - |s.tail|)
  }

  /* n bytes are taken. */
  function Draw(g: Generator, s: Rng, n: nat): (r: (seq<byte>, Rng))
    ensures |r.0| == n && |r.1.tail| <= (if n <= |s.tail| then |s.tail| else RNG_RESERVE_LEN)
    decreases n, if s.tail == [] then 1 else 0
  {
    if n <= |s.tail| then (s.tail[..n], Rng(s.key, s.tail[n..]))
    else
      var rest := Draw(g, Rng(g.next(s.key), g.block(s.key)), n - |s.tail|);
      (s.tail + rest.0, rest.1)
  }

  lemma FirstBlock(g: Generator, key: Key, i: nat)
    ensures i < RNG_RESERVE_LEN ==> StreamByte(g, key, i) == g.block(key)[i]
    ensures i >= RNG_RESERVE_LEN ==> StreamByte(g, key, i) == StreamByte(g, g.next(key), i - RNG_RESERVE_LEN)
  {
    if i >= RNG_RESERVE_LEN {
      var j := i - RNG_RESERVE_LEN;
      assert i / RNG_RESERVE_LEN == j / RNG_RESERVE_LEN + 1 && i % RNG_RESERVE_LEN == j % RNG_RESERVE_LEN;
    }
  }

  /* Refilling the reserve does not change what is to come. */
  lemma Refill(g: Generator, s: Rng, i: nat)
    requires i >= |s.tail|
    ensures Upcoming(g, Rng(g.next(s.key), g.block(s.key)), i - |s.tail|) == Upcoming(g, s, i)
  {
    FirstBlock(g, s.key, i - |s.tail|);
  }

  /* A draw delivers the next n bytes of the stream and leaves those after them. */
  lemma {:induction false} DrawReadsStream(g: Generator, s: Rng, n: nat, i: nat)
    ensures i < n ==> Draw(g, s, n).0[i] == Upcoming(g, s, i)
    ensures Upcoming(g, Draw(g, s, n).1, i) == Upcoming(g, s, n + i)
    decreases n, if s.tail == [] then 1 else 0
  {
    if n > |s.tail| {
      var t, k := Rng(g.next(s.key), g.block(s.key)), n - |s.tail|;
      DrawReadsStream(g, t, k, i);
      Refill(g, s, n + i);
      if |s.tail| <= i < n {
        DrawReadsStream(g, t, k, i - |s.tail|);
        Refill(g, s, i);
      }
    }
  }

  /* n bytes and then m bytes are n + m bytes, and leave the same state. */
  lemma {:induction false} DrawTwice(g: Generator, s: Rng, n: nat, m: nat)
    ensures var first := Draw(g, s, n); var second := Draw(g, first.1, m);
            Draw(g, s, n + m) == (first.0 + second.0, second.1)
    decreases n, if s.tail == [] then 1 else 0
  {
    if n > |s.tail| {
      var t, k := Rng(g.next(s.key), g.block(s.key)), n - |s.tail|;
      DrawTwice(g, t, k, m);
      assert (k + m) + |s.tail| == n + m;
      assert s.tail + (Draw(g, t, k).0 + Draw(g, Draw(g, t, k).1, m).0) == (s.tail + Draw(g, t, k).0)
        + Draw(g, Draw(g, t, k).1, m).0;
    } else if n + m > |s.tail| {
      assert s.tail == s.tail[..n] + s.tail[n..];
      var t := Rng(s.key, s.tail[n..]);
      var rest := Draw(g, Rng(g.next(s.key), g.block(s.key)), n + m - |s.tail|);
      assert n + m - |s.tail| == m - |t.tail|;
      assert s.tail + rest.0 == s.tail[..n] + (t.tail + rest.0);
    } else {
      assert s.tail[..n + m] == s.tail[..n] + s.tail[n..][..m];
    }
  }

  lemma DrawNone(g: Generator, s: Rng)
    ensures Draw(g, s, 0) == ([], s)
  {}

  lemma DrawBlock(g: Generator, k: Key)
    ensures Draw(g, Rng(k, []), RNG_RESERVE_LEN) == (g.block(k), Rng(g.next(k), []))
  {
    var b := g.block(k);
    assert b[..RNG_RESERVE_LEN] == b && b[RNG_RESERVE_LEN..] == [];
    assert [] + b == b;
  }

  /* With an empty reserve it makes no difference whether the next block is already there. */
  lemma DrawRefilled(g: Generator, s: Rng, n: nat)
    requires s.tail == []
    ensures forall m: nat {:trigger Draw(g, s, m)} | 0 < m <= n ::
        Draw(g, Rng(g.next(s.key), g.block(s.key)), m) == Draw(g, s, m)
  {
    forall m: nat | 0 < m <= n ensures Draw(g, Rng(g.next(s.key), g.block(s.key)), m) == Draw(g, s, m) {
      var rest := Draw(g, Rng(g.next(s.key), g.block(s.key)), m);
      assert [] + rest.0 == rest.0;
    }
  }

  /* Requests of sizes ns, one after the other. */
  function Requests(g: Generator, s: Rng, ns: seq<nat>): (r: seq<seq<byte>>)
    ensures |r| == |ns|
    decreases |ns|
  {
    if ns == [] then [] else [Draw(g, s, ns[0]).0] + Requests(g, Draw(g, s, ns[0]).1, ns[1..])
  }

  function Sum(ns: seq<nat>): nat { if ns == [] then 0 else ns[0] + Sum(ns[1..]) }

  /* Over a whole run, every byte handed out is the stream byte at its place in the run. */
  lemma {:induction false} RunReadsStream(g: Generator, s: Rng, ns: seq<nat>, k: nat, i: nat)
    requires k < |ns| && i < ns[k]
    ensures |Requests(g, s, ns)[k]| == ns[k]
    ensures Requests(g, s, ns)[k][i] == Upcoming(g, s, Sum(ns[..k]) + i)
    decreases |ns|
  {
    if k == 0 {
      DrawReadsStream(g, s, ns[0], i);
    } else {
      RunReadsStream(g, Draw(g, s, ns[0]).1, ns[1..], k - 1, i);
      assert ns[..k][1..] == ns[1..][..k - 1];
      DrawReadsStream(g, s, ns[0], Sum(ns[1..][..k - 1]) + i);
    }
  }
}
