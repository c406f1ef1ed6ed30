/** The ChaCha20 generator as the library uses it: the state is permuted in place from block to
    block, the first half block becomes the next key. */
module ChaCha20 {
  const CHACHA20_KEYBYTES: nat := KEYBYTES
  const CHACHA20_BLOCKBYTES: nat := 64

  import opened RandomStream

  /* ROTL32 by the four amounts in use. */
  function RotL16(x: bv32): bv32 { (x << 16) | (x >> 16) }
  function RotL12(x: bv32): bv32 { (x << 12) | (x >> 20) }
  function RotL8(x: bv32): bv32 { (x << 8) | (x >> 24) }
  function RotL7(x: bv32): bv32 { (x << 7) | (x >> 25) }
  function Add(x: bv32, y: bv32): bv32 { x + y }
  function Xor(x: bv32, y: bv32): bv32 { x ^ y }

  /* ---- the permutation ---- */

  datatype Quad = Quad(a: bv32, b: bv32, c: bv32, d: bv32)

  /* CHACHA20_QUARTERROUND */
  function QuarterRound(q: Quad): Quad {
    var a := Add(q.a, q.b);
    var d := RotL16(Xor(q.d, a));
    var c := Add(q.c, d);
    var b := RotL12(Xor(q.b, c));
    var a' := Add(a, b);
    var d' := RotL8(Xor(d, a'));
    var c' := Add(c, d');
    Quad(a', RotL7(Xor(b, c')), c', d')
  }

  /* ---- the state ---- */

  type State = s: seq<bv32> | |s| == 16 witness seq(16, _ => 0)

  predicate Distinct(i: nat, j: nat, k: nat, l: nat) {
    i < 16 && j < 16 && k < 16 && l < 16 && i != j && i != k && i != l && j != k && j != l && k != l
  }

  function PutQuad(s: State, i: nat, j: nat, k: nat, l: nat, q: Quad): State
    requires Distinct(i, j, k, l)
  {
    s[i := q.a][j := q.b][k := q.c][l := q.d]
  }

  function OnState(s: State, i: nat, j: nat, k: nat, l: nat): State
    requires Distinct(i, j, k, l)
  {
    PutQuad(s, i, j, k, l, QuarterRound(Quad(s[i], s[j], s[k], s[l])))
  }

  /* Four column rounds and four diagonal rounds. */
  function DoubleRound(s: State): State {
    var s := OnState(OnState(OnState(OnState(s, 0, 4, 8, 12), 1, 5, 9, 13), 2, 6, 10, 14), 3, 7, 11, 15);
    OnState(OnState(OnState(OnState(s, 0, 5, 10, 15), 1, 6, 11, 12), 2, 7, 8, 13), 3, 4, 9, 14)
  }

  function Rounds(s: State, n: nat): State
    decreases n, s
  {
    if n == 0 then s else Rounds(DoubleRound(s), n - 1)
  }

  /* ---- blocks and keys ---- */

  function WordOf(b: seq<byte>, i: nat): bv32
    requires i + 4 <= |b|
  {
    (b[i] as bv32) | ((b[i + 1] as bv32) << 8) | ((b[i + 2] as bv32) << 16) | ((b[i + 3] as bv32) << 24)
  }

  function ByteOf(w: bv32, i: nat): byte
    requires i < 4
  {
    match i
    case 0 => (w & 0xFF) as bv8
    case 1 => ((w >> 8) & 0xFF) as bv8
    case 2 => ((w >> 16) & 0xFF) as bv8
    case _ => ((w >> 24) & 0xFF) as bv8
  }

  /* Bytes and words are little-endian, and each is made of the other. */
  lemma WordBytes(b: seq<byte>, i: nat)
    requires i + 4 <= |b|
    ensures forall k: nat | k < 4 :: ByteOf(WordOf(b, i), k) == b[i + k]
  {
    SplitBytes(b[i], b[i + 1], b[i + 2], b[i + 3]);
  }

  lemma SplitBytes(x0: byte, x1: byte, x2: byte, x3: byte)
    ensures var w := (x0 as bv32) | ((x1 as bv32) << 8) | ((x2 as bv32) << 16) | ((x3 as bv32) << 24);
      && (w & 0xFF) as bv8 == x0 && ((w >> 8) & 0xFF) as bv8 == x1 && ((w >> 16) & 0xFF) as bv8 == x2
      && ((w >> 24) & 0xFF) as bv8 == x3
  {}

  lemma BytesWord(b: seq<byte>, i: nat, w: bv32)
    requires i + 4 <= |b| && forall k: nat | k < 4 :: b[i + k] == ByteOf(w, k)
    ensures WordOf(b, i) == w
  {
    assert b[i + 0] == ByteOf(w, 0) && b[i + 1] == ByteOf(w, 1) && b[i + 2] == ByteOf(w, 2) && b[i + 3] == ByteOf(w, 3);
    JoinBytes(w);
  }

  lemma JoinBytes(w: bv32)
    ensures (((w & 0xFF) as bv8) as bv32) | ((((w >> 8) & 0xFF) as bv8) as bv32 << 8)
          | ((((w >> 16) & 0xFF) as bv8) as bv32 << 16) | ((((w >> 24) & 0xFF) as bv8) as bv32 << 24) == w
  {}

  function BlockBytes(s: State): (r: seq<byte>)
    ensures |r| == CHACHA20_BLOCKBYTES
  {
    seq(CHACHA20_BLOCKBYTES, i requires 0 <= i < 64 => ByteOf(s[i / 4], i % 4))
  }

  function AddStates(s: State, t: State): State { seq(16, i requires 0 <= i < 16 => Add(s[i], t[i])) }

  /* chacha20_init */
  function InitState(key: seq<byte>): State
    requires |key| == CHACHA20_KEYBYTES
  {
    [0x61707865, 0x3320646e, 0x79622d32, 0x6b206574] + seq(8, i requires 0 <= i < 8 => WordOf(key, 4 * i))
      + [0, 0, 0, 0]
  }

  /* What chacha20_update makes of the state: permuted, the counter one up. */
  function NextState(s: State): State {
    CountUp(Rounds(s, 10))
  }

  function CountUp(r: State): State { r[12 := Add(r[12], 1)] }

  /* What chacha20_update puts out. */
  function Output(s: State): (r: seq<byte>)
    ensures |r| == CHACHA20_BLOCKBYTES
  {
    BlockBytes(AddStates(s, Rounds(s, 10)))
  }

  function Blocks(s: State, len: nat): (r: seq<byte>)
    ensures |r| == len
    decreases len, s
  {
    if len == 0 then [] else if len < CHACHA20_BLOCKBYTES then Output(s)[..len]
    else Output(s) + Blocks(NextState(s), len - CHACHA20_BLOCKBYTES)
  }

  /* The next key is output that is never handed out. */
  function NextKey(key: seq<byte>): (r: seq<byte>)
    requires |key| == CHACHA20_KEYBYTES
    ensures |r| == CHACHA20_KEYBYTES
  {
    Output(InitState(key))[..CHACHA20_KEYBYTES]
  }

  function KeyStream(key: seq<byte>, len: nat): (r: seq<byte>)
    requires |key| == CHACHA20_KEYBYTES
    ensures |r| == len
  {
    Blocks(NextState(InitState(key)), len)
  }

  lemma {:induction false} BlocksAppend(s: State, n: nat, len: nat)
    ensures Blocks(s, 64 * n + len) == Blocks(s, 64 * n) + Blocks(StateAfter(s, n), len)
    decreases n
  {
    hide Output; hide NextState;
    if n == 0 {
      assert Blocks(s, 64 * n + len) == Blocks(s, 64 * n) + Blocks(s, len);
    } else {
      BlocksAppend(NextState(s), n - 1, len);
      assert 64 * n + len - 64 == 64 * (n - 1) + len;
      assert Blocks(s, 64 * n + len) == Output(s)
        + (Blocks(NextState(s), 64 * (n - 1)) + Blocks(StateAfter(s, n), len));
      assert Blocks(s, 64 * n) == Output(s) + Blocks(NextState(s), 64 * (n - 1));
    }
  }

  function StateAfter(s: State, n: nat): State
    decreases n
  {
    if n == 0 then s else StateAfter(NextState(s), n - 1)
  }

  lemma {:induction false} StateAfterStep(s: State, n: nat)
    ensures StateAfter(s, n + 1) == NextState(StateAfter(s, n))
    decreases n
  {
    hide NextState;
    if n > 0 { StateAfterStep(NextState(s), n - 1); }
  }

  /* ---- in place ---- */

  /* b written over s at offset `at` */
  ghost function Patched(s: seq<byte>, at: nat, b: seq<byte>): (r: seq<byte>)
    requires at + |b| <= |s|
    ensures |r| == |s|
  {
    s[..at] + b + s[at + |b|..]
  }

  lemma PatchAll(s: seq<byte>, b: seq<byte>)
    requires |b| == |s|
    ensures Patched(s, 0, b) == b
  {}

  lemma PatchNone(s: seq<byte>, at: nat)
    requires at <= |s|
    ensures Patched(s, at, []) == s
  {}

  /* memcpy(&out[at], tmp, n) */
  method Copy(out: array<byte>, at: nat, tmp: array<byte>, n: nat)
    requires n <= tmp.Length && at + n <= out.Length && out != tmp
    modifies out
    ensures out[..] == Patched(old(out[..]), at, tmp[..n])
  {
    forall i | 0 <= i < n { out[at + i] := tmp[i]; }
  }

  lemma PatchMore(s: seq<byte>, at: nat, b: seq<byte>, c: seq<byte>)
    requires at + |b| + |c| <= |s|
    ensures Patched(Patched(s, at, b), at + |b|, c) == Patched(s, at, b + c)
  {}

  lemma PatchOver(s: seq<byte>, at: nat, b: seq<byte>, c: seq<byte>)
    requires at + |c| <= |s| && |b| <= |c|
    ensures Patched(Patched(s, at, b), at, c) == Patched(s, at, c)
  {}

  method QuarterRoundAt(st: array<bv32>, i: nat, j: nat, k: nat, l: nat)
    requires st.Length == 16 && Distinct(i, j, k, l)
    modifies st
    ensures st[..] == OnState(old(st[..]), i, j, k, l)
  {
    hide RotL16; hide RotL12; hide RotL8; hide RotL7; hide Add; hide Xor;
    ghost var s := st[..];
    st[i] := Add(st[i], st[j]);
    st[l] := RotL16(Xor(st[l], st[i]));
    st[k] := Add(st[k], st[l]);
    st[j] := RotL12(Xor(st[j], st[k]));
    st[i] := Add(st[i], st[j]);
    st[l] := RotL8(Xor(st[l], st[i]));
    st[k] := Add(st[k], st[l]);
    st[j] := RotL7(Xor(st[j], st[k]));
    assert Quad(st[i], st[j], st[k], st[l]) == QuarterRound(Quad(s[i], s[j], s[k], s[l]));
    assert st[..] == PutQuad(s, i, j, k, l, Quad(st[i], st[j], st[k], st[l]));
  }

  /* CHACHA20_ROUNDS */
  method RoundsInPlace(st: array<bv32>)
    requires st.Length == 16
    modifies st
    ensures st[..] == Rounds(old(st[..]), 10)
  {
    hide OnState;
    ghost var s := st[..];
    var i := 0;
    while i < 20
      invariant i % 2 == 0 && i <= 20
      invariant Rounds(s, 10) == Rounds(st[..], (20 - i) / 2)
    {
      ghost var before := st[..];
      QuarterRoundAt(st, 0, 4, 8, 12);
      QuarterRoundAt(st, 1, 5, 9, 13);
      QuarterRoundAt(st, 2, 6, 10, 14);
      QuarterRoundAt(st, 3, 7, 11, 15);
      QuarterRoundAt(st, 0, 5, 10, 15);
      QuarterRoundAt(st, 1, 6, 11, 12);
      QuarterRoundAt(st, 2, 7, 8, 13);
      QuarterRoundAt(st, 3, 4, 9, 14);
      assert st[..] == DoubleRound(before);
      i := i + 2;
    }
  }

  /* chacha20_update, writing at offset `at` */
  method Update(out: array<byte>, at: nat, st: array<bv32>)
    requires st.Length == 16 && at + CHACHA20_BLOCKBYTES <= out.Length
    modifies st, out
    ensures st[..] == NextState(old(st[..]))
    ensures out[..] == Patched(old(out[..]), at, Output(old(st[..])))
  {
    hide Rounds; hide ByteOf; hide Add;
    ghost var s, o := st[..], out[..];
    var ks := new bv32[16](i requires 0 <= i < 16 reads st => st[i]);
    RoundsInPlace(st);
    for i := 0 to 16
      invariant forall j | 0 <= j < 16 :: ks[j] == if j < i then Add(s[j], st[j]) else s[j]
      invariant st[..] == Rounds(s, 10) && out[..] == o
    {
      ks[i] := Add(ks[i], st[i]);
    }
    ghost var b := Output(s);
    assert ks[..] == AddStates(s, Rounds(s, 10));
    forall i | 0 <= i < CHACHA20_BLOCKBYTES { out[at + i] := ByteOf(ks[i / 4], i % 4); }
    st[12] := Add(st[12], 1);
    assert out[..] == Patched(o, at, b);
  }

  /* chacha20_rng, writing at offset `at`; the output must have room for one block. */
  method Rng(out: array<byte>, at: nat, len: nat, key: array<byte>)
    requires key.Length == CHACHA20_KEYBYTES && CHACHA20_BLOCKBYTES <= len && at + len <= out.Length && out != key
    modifies out, key
    ensures key[..] == NextKey(old(key[..]))
    ensures out[..] == Patched(old(out[..]), at, KeyStream(old(key[..]), len))
  {
    hide Output; hide NextState; hide InitState; hide Blocks;
    ghost var k, o := key[..], out[..];
    var st := new bv32[16];
    Init(st, key);
    Update(out, at, st);
    forall i | 0 <= i < CHACHA20_KEYBYTES { key[i] := out[at + i]; }
    assert key[..] == NextKey(k);
    assert st[..] == NextState(InitState(k));
    assert out[..] == Patched(o, at, Output(InitState(k)));
    Fill(out, at, len, st);
    PatchOver(o, at, Output(InitState(k)), KeyStream(k, len));
  }

  /* Whole blocks straight into the output, and the beginning of one more. */
  method Fill(out: array<byte>, at: nat, len: nat, st: array<bv32>)
    requires st.Length == 16 && at + len <= out.Length
    modifies out, st
    ensures out[..] == Patched(old(out[..]), at, Blocks(old(st[..]), len))
  {
    hide Output; hide NextState; hide Patched;
    ghost var s: State, o := st[..], out[..];
    var off, left := 0, len;
    PatchNone(o, at);
    ghost var n := 0;
    while left >= CHACHA20_BLOCKBYTES
      invariant 0 <= left && off == 64 * n && off + left == len && st[..] == StateAfter(s, n)
      invariant out[..] == Patched(o, at, Blocks(s, off))
    {
      NextBlock(s, n);
      Update(out, at + off, st);
      StateAfterStep(s, n);
      PatchMore(o, at, Blocks(s, off), Output(StateAfter(s, n)));
      left := left - CHACHA20_BLOCKBYTES;
      off := off + CHACHA20_BLOCKBYTES;
      n := n + 1;
    }
    if left > 0 {
      var tmp := new byte[CHACHA20_BLOCKBYTES];
      PatchAll(tmp[..], Output(st[..]));
      Update(tmp, 0, st);
      BlocksAppend(s, n, left);
      Copy(out, at + off, tmp, left);
      PatchMore(o, at, Blocks(s, off), tmp[..left]);
    }
  }

  lemma NextBlock(s: State, n: nat)
    ensures Blocks(s, 64 * n + 64) == Blocks(s, 64 * n) + Output(StateAfter(s, n))
  {
    BlocksAppend(s, n, 64);
    var t := StateAfter(s, n);
    assert Blocks(NextState(t), 0) == [];
    assert Blocks(t, 64) == Output(t);
  }

  /* chacha20_init */
  method Init(st: array<bv32>, key: array<byte>)
    requires st.Length == 16 && key.Length == CHACHA20_KEYBYTES
    modifies st
    ensures st[..] == InitState(key[..])
  {
    st[0], st[1], st[2], st[3] := 0x61707865, 0x3320646e, 0x79622d32, 0x6b206574;
    forall i | 0 <= i < 8 { st[4 + i] := WordOf(key[..], 4 * i); }
    st[12], st[13], st[14], st[15] := 0, 0, 0, 0;
    hide WordOf;
  }
}
