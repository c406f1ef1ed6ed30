/** Writing mappings back to their files. */
module MmanSync {
  import opened Words
  import opened MmanTable
  import opened MmanFiles
  import opened MmanRefs

  const PROT_WRITE: nat := 2

  function Peek(bytes: map<nat, byte>, a: nat): byte { if a in bytes then bytes[a] else 0 }

  function DataAt(data: seq<byte>, at: nat, a: nat): byte
    requires at <= a < at + |data|
  {
    data[a - at]
  }

  /* data stored from `at` on */
  function Poke(bytes: map<nat, byte>, at: nat, data: seq<byte>): map<nat, byte> {
    bytes + (map a: nat | at <= a < at + |data| :: DataAt(data, at, a))
  }

  lemma PokeAt(bytes: map<nat, byte>, at: nat, data: seq<byte>, a: nat)
    ensures Peek(Poke(bytes, at, data), a) == if at <= a < at + |data| then data[a - at] else Peek(bytes, a)
    ensures a in Poke(bytes, at, data) ==> a in bytes || at <= a < at + |data|
  {}

  /* n bytes of memory from a on */
  function Span(bytes: map<nat, byte>, a: nat, n: nat): (r: seq<byte>)
    ensures |r| == n
  {
    seq(n, i requires 0 <= i => Peek(bytes, a + i))
  }

  lemma SpanMore(bytes: map<nat, byte>, a: nat, m: nat, n: nat)
    ensures Span(bytes, a, m) + Span(bytes, a + m, n) == Span(bytes, a, m + n)
  {}

  /* k bytes of memory from lo on have been written to file f at place `at`. */
  ghost predicate Written(c: map<nat, seq<byte>>, c': map<nat, seq<byte>>, f: nat, at: nat, bytes: map<nat, byte>,
      lo: nat, k: nat) {
    f in c && c' == c[f := WriteAt(c[f], at, Span(bytes, lo, k))]
  }

  lemma WrittenMore(c: map<nat, seq<byte>>, c': map<nat, seq<byte>>, f: nat, at: nat, bytes: map<nat, byte>, lo: nat,
      k: nat, m: nat, n: nat)
    requires Written(c, c', f, at, bytes, lo, k) && f in c' && n <= m
    ensures Written(c, c'[f := WriteAt(c'[f], at + k, Span(bytes, lo + k, m)[..n])], f, at, bytes, lo, k + n)
  {
    assert Span(bytes, lo + k, m)[..n] == Span(bytes, lo + k, n);
    WriteMore(c[f], at, Span(bytes, lo, k), Span(bytes, lo + k, n));
    SpanMore(bytes, lo, k, n);
  }

  lemma WrittenNone(c: map<nat, seq<byte>>, f: nat, at: nat, bytes: map<nat, byte>, lo: nat)
    requires f in c
    ensures Written(c, c, f, at, bytes, lo, 0)
  {
    assert c[f := c[f]] == c;
  }

  /* The file behind each reference. */
  function Target(frefs: map<nat, FileRef>, open: map<int, nat>): map<nat, nat> {
    map id | id in frefs && frefs[id].fd in open :: open[frefs[id].fd]
  }

  predicate Writable(r: Region) { r.kind == R_FILE && r.fref.Ref? && And(r.prot, PROT_WRITE) != 0 }

  /* The part of r in [start, end) that the file backs, by the code's 32-bit ends. */
  function SyncStart(r: Region, start: nat): nat { Max(r.base, start) }

  function SyncEnd(r: Region, end: nat): nat { Min(Min(r.Stop(), end), (r.base + r.dataLen) % W32) }

  function Extent(r: Region, start: nat, end: nat): nat {
    var lo, hi := SyncStart(r, start), SyncEnd(r, end);
    if lo < hi then hi - lo else 0
  }

  /* File contents once the first k backed bytes of [start, end) in r have been written back. */
  function FlushTo(content: map<nat, seq<byte>>, target: map<nat, nat>, bytes: map<nat, byte>, r: Region, start: nat,
      k: nat): map<nat, seq<byte>> {
    if Writable(r) && k > 0 && r.fref.id in target && target[r.fref.id] in content then
      var f, lo := target[r.fref.id], SyncStart(r, start);
      content[f := WriteAt(content[f], r.off + (lo - r.base), Span(bytes, lo, k))]
    else content
  }

  /* File contents once all of them have. */
  function Flush1(content: map<nat, seq<byte>>, target: map<nat, nat>, bytes: map<nat, byte>, r: Region, start: nat,
      end: nat): map<nat, seq<byte>> {
    FlushTo(content, target, bytes, r, start, Extent(r, start, end))
  }

  /* Writing the first k bytes back is what FlushTo says. */
  lemma WrittenFlush(c: map<nat, seq<byte>>, c': map<nat, seq<byte>>, target: map<nat, nat>, bytes: map<nat, byte>,
      r: Region, start: nat, k: nat)
    requires Writable(r) && r.fref.id in target
    requires var lo := SyncStart(r, start); Written(c, c', target[r.fref.id], r.off + (lo - r.base), bytes, lo, k)
    ensures c' == FlushTo(c, target, bytes, r, start, k)
  {
    if k == 0 { assert c[target[r.fref.id] := c[target[r.fref.id]]] == c; }
  }

  lemma NothingToFlush(c: map<nat, seq<byte>>, target: map<nat, nat>, bytes: map<nat, byte>, r: Region, start: nat,
      end: nat)
    requires !Writable(r)
    ensures Flush1(c, target, bytes, r, start, end) == c == FlushTo(c, target, bytes, r, start, 0)
  {}

  function FlushAll(content: map<nat, seq<byte>>, target: map<nat, nat>, bytes: map<nat, byte>, t: seq<Region>,
      start: nat, end: nat): map<nat, seq<byte>>
    decreases |t|
  {
    if t == [] then content
    else FlushAll(Flush1(content, target, bytes, t[0], start, end), target, bytes, t[1..], start, end)
  }

  lemma {:induction false} FlushNext(content: map<nat, seq<byte>>, target: map<nat, nat>, bytes: map<nat, byte>,
      t: seq<Region>, k: nat, start: nat, end: nat)
    requires k < |t|
    ensures FlushAll(content, target, bytes, t[..k + 1], start, end)
         == Flush1(FlushAll(content, target, bytes, t[..k], start, end), target, bytes, t[k], start, end)
    decreases |t|
  {
    hide Flush1;
    if k == 0 {
      assert t[..1] == [t[0]] && t[..1][1..] == [] && t[..0] == [];
    } else {
      assert t[..k + 1][1..] == t[1..][..k] && t[..k][1..] == t[1..][..k - 1];
      FlushNext(Flush1(content, target, bytes, t[0], start, end), target, bytes, t[1..], k - 1, start, end);
    }
  }

  lemma {:induction false} FlushNone(content: map<nat, seq<byte>>, target: map<nat, nat>, bytes: map<nat, byte>,
      t: seq<Region>, start: nat, end: nat)
    requires forall r | r in t :: !Writable(r) || r.End() <= start || end <= r.base
    ensures FlushAll(content, target, bytes, t, start, end) == content
    decreases |t|
  {
    if t != [] {
      assert t[0] in t;
      FlushNone(content, target, bytes, t[1..], start, end);
    }
  }

  lemma {:induction false} FlushSplit(content: map<nat, seq<byte>>, target: map<nat, nat>, bytes: map<nat, byte>,
      s: seq<Region>, t: seq<Region>, start: nat, end: nat)
    ensures FlushAll(content, target, bytes, s + t, start, end)
         == FlushAll(FlushAll(content, target, bytes, s, start, end), target, bytes, t, start, end)
    decreases |s|
  {
    hide Flush1;
    if s == [] {
      assert s + t == t;
    } else {
      assert (s + t)[1..] == s[1..] + t;
      FlushSplit(Flush1(content, target, bytes, s[0], start, end), target, bytes, s[1..], t, start, end);
    }
  }

  /* ---- what reaches the files ---- */

  /* r backs byte pos of file f with memory in [start, end), at address a. */
  predicate Backs(target: map<nat, nat>, r: Region, start: nat, end: nat, a: nat, f: nat, pos: nat) {
    && Writable(r) && r.fref.id in target && target[r.fref.id] == f
    && SyncStart(r, start) <= a < SyncEnd(r, end) && pos == r.off + (a - r.base)
  }

  /* An entry below 2^32 is written back as far as the file backs it; of an entry that goes up to 2^32 nothing is. */
  lemma BacksExactly(target: map<nat, nat>, r: Region, start: nat, end: nat, a: nat, f: nat, pos: nat)
    requires RegionOk(r, W32)
    ensures r.End() < W32 ==>
              (Backs(target, r, start, end, a, f, pos) <==>
               r.kind == R_FILE && r.fref.Ref? && And(r.prot, PROT_WRITE) != 0
               && r.fref.id in target && target[r.fref.id] == f
               && start <= a < end && r.base <= a < r.base + r.dataLen && r.Holds(a) && pos == r.off + (a - r.base))
    ensures r.End() == W32 ==> !Backs(target, r, start, end, a, f, pos)
  {
    assert r.End() < W32 && r.dataLen <= r.len ==> (r.base + r.dataLen) % W32 == r.base + r.dataLen;
  }

  /* A byte that nothing in the range backs is left alone. */
  lemma Flush1Other(content: map<nat, seq<byte>>, target: map<nat, nat>, bytes: map<nat, byte>, r: Region, start: nat,
      end: nat, f: nat, pos: nat)
    requires f in content && pos < |content[f]|
    requires forall a: nat :: !Backs(target, r, start, end, a, f, pos)
    ensures var c := Flush1(content, target, bytes, r, start, end);
            f in c && pos < |c[f]| && c[f][pos] == content[f][pos]
  {
    var lo, hi := SyncStart(r, start), SyncEnd(r, end);
    if Writable(r) && lo < hi && r.fref.id in target && target[r.fref.id] == f {
      var off := r.off + (lo - r.base);
      if off <= pos < off + (hi - lo) { assert Backs(target, r, start, end, lo + (pos - off), f, pos); }
    }
  }

  lemma Flush1Byte(content: map<nat, seq<byte>>, target: map<nat, nat>, bytes: map<nat, byte>, r: Region, start: nat,
      end: nat, a: nat, f: nat, pos: nat)
    requires f in content && Backs(target, r, start, end, a, f, pos)
    ensures var c := Flush1(content, target, bytes, r, start, end);
        f in c && pos < |c[f]| && c[f][pos] == Peek(bytes, a)
  {}

  lemma Flush1Grows(content: map<nat, seq<byte>>, target: map<nat, nat>, bytes: map<nat, byte>, r: Region, start: nat,
      end: nat, f: nat)
    requires f in content
    ensures var c := Flush1(content, target, bytes, r, start, end); f in c && |c[f]| >= |content[f]|
  {}

  lemma {:induction false} FlushOthers(content: map<nat, seq<byte>>, target: map<nat, nat>, bytes: map<nat, byte>,
      t: seq<Region>, start: nat, end: nat, f: nat, pos: nat)
    requires f in content && pos < |content[f]|
    requires forall r, a: nat | r in t :: !Backs(target, r, start, end, a, f, pos)
    ensures var c := FlushAll(content, target, bytes, t, start, end);
        f in c && pos < |c[f]| && c[f][pos] == content[f][pos]
    decreases |t|
  {
    hide Flush1; hide Backs;
    if t != [] {
      assert t[0] in t;
      Flush1Other(content, target, bytes, t[0], start, end, f, pos);
      FlushOthers(Flush1(content, target, bytes, t[0], start, end), target, bytes, t[1..], start, end, f, pos);
    }
  }

  /* A file byte that one address alone backs ends up with what memory holds there. */
  lemma {:induction false} FlushedByte(content: map<nat, seq<byte>>, target: map<nat, nat>, bytes: map<nat, byte>,
      t: seq<Region>, start: nat, end: nat,
                                       i: nat, a: nat, f: nat, pos: nat)
    requires f in content && i < |t| && Backs(target, t[i], start, end, a, f, pos)
    requires forall j, x: nat | 0 <= j < |t| && Backs(target, t[j], start, end, x, f, pos) :: j == i
    ensures var c := FlushAll(content, target, bytes, t, start, end);
        f in c && pos < |c[f]| && c[f][pos] == Peek(bytes, a)
    decreases |t|
  {
    hide Flush1; hide Backs;
    if i == 0 {
      Flush1Byte(content, target, bytes, t[0], start, end, a, f, pos);
      var c := Flush1(content, target, bytes, t[0], start, end);
      forall r, x: nat | r in t[1..] ensures !Backs(target, r, start, end, x, f, pos) {
        var j :| 0 <= j < |t[1..]| && t[1..][j] == r;
        assert t[j + 1] == r;
      }
      FlushOthers(c, target, bytes, t[1..], start, end, f, pos);
    } else {
      Flush1Grows(content, target, bytes, t[0], start, end, f);
      forall j, x: nat | 0 <= j < |t[1..]| && Backs(target, t[1..][j], start, end, x, f, pos) ensures j == i - 1 {
        assert t[j + 1] == t[1..][j];
      }
      FlushedByte(Flush1(content, target, bytes, t[0], start, end), target, bytes, t[1..], start, end, i - 1, a, f,
        pos);
    }
  }

  /* ---- when writes fail ---- */

  /* Of each of the first n entries some of the backed bytes have been written back, from the start on. */
  function FlushSome(content: map<nat, seq<byte>>, target: map<nat, nat>, bytes: map<nat, byte>, t: seq<Region>,
      start: nat, ks: seq<nat>): map<nat, seq<byte>>
    requires |ks| <= |t|
    decreases |ks|
  {
    if ks == [] then content
    else
      var n := |ks| - 1;
      FlushTo(FlushSome(content, target, bytes, t, start, ks[..n]), target, bytes, t[n], start, ks[n])
  }

  predicate Within(t: seq<Region>, start: nat, end: nat, ks: seq<nat>)
    requires |ks| <= |t|
  {
    forall j | 0 <= j < |ks| :: ks[j] <= Extent(t[j], start, end)
  }

  /* c' is what writes that may have failed have made of c: Partly says how many entries they got to. */
  ghost predicate Partly(c: map<nat, seq<byte>>, c': map<nat, seq<byte>>, target: map<nat, nat>, bytes: map<nat, byte>,
      t: seq<Region>, n: nat, start: nat, end: nat) {
    exists ks: seq<nat> ::
      |ks| == n <= |t| && Within(t, start, end, ks) && c' == FlushSome(c, target, bytes, t, start, ks)
  }

  ghost predicate Partial(c: map<nat, seq<byte>>, c': map<nat, seq<byte>>, target: map<nat, nat>,
      bytes: map<nat, byte>, t: seq<Region>, start: nat, end: nat) {
    exists n: nat :: Partly(c, c', target, bytes, t, n, start, end)
  }

  lemma PartlyNext(c: map<nat, seq<byte>>, c1: map<nat, seq<byte>>, target: map<nat, nat>, bytes: map<nat, byte>,
      t: seq<Region>, n: nat, start: nat, end: nat, k: nat)
    requires Partly(c, c1, target, bytes, t, n, start, end) && n < |t| && k <= Extent(t[n], start, end)
    ensures Partly(c, FlushTo(c1, target, bytes, t[n], start, k), target, bytes, t, n + 1, start, end)
  {
    hide Extent; hide FlushTo;
    var ks: seq<nat> :|
      |ks| == n <= |t| && Within(t, start, end, ks) && c1 == FlushSome(c, target, bytes, t, start, ks);
    assert (ks + [k])[..n] == ks;
    assert Within(t, start, end, ks + [k]);
  }

  lemma {:induction false} PartlyNone(c: map<nat, seq<byte>>, target: map<nat, nat>, bytes: map<nat, byte>,
      t: seq<Region>, n: nat, start: nat, end: nat)
    requires n <= |t|
    ensures Partly(c, c, target, bytes, t, n, start, end)
  {
    if n == 0 {
      assert Within(t, start, end, []) && c == FlushSome(c, target, bytes, t, start, []);
    } else {
      PartlyNone(c, target, bytes, t, n - 1, start, end);
      PartlyNext(c, c, target, bytes, t, n - 1, start, end, 0);
    }
  }

  /* Whatever fails, a file byte is what it was or what memory holds at an address that backs it. */
  lemma PartialBytes(c: map<nat, seq<byte>>, c': map<nat, seq<byte>>, target: map<nat, nat>, bytes: map<nat, byte>,
      t: seq<Region>, start: nat, end: nat, f: nat, pos: nat)
    requires Partial(c, c', target, bytes, t, start, end) && f in c && pos < |c[f]|
    ensures f in c' && pos < |c'[f]|
    ensures c'[f][pos] == c[f][pos]
         || exists r, a: nat :: r in t && Backs(target, r, start, end, a, f, pos) && c'[f][pos] == Peek(bytes, a)
  {
    var n: nat :| Partly(c, c', target, bytes, t, n, start, end);
    var ks: seq<nat> :|
      |ks| == n <= |t| && Within(t, start, end, ks) && c' == FlushSome(c, target, bytes, t, start, ks);
    SomeBytes(c, target, bytes, t, start, end, ks, f, pos);
  }

  lemma {:induction false} SomeBytes(c: map<nat, seq<byte>>, target: map<nat, nat>, bytes: map<nat, byte>,
      t: seq<Region>, start: nat, end: nat, ks: seq<nat>, f: nat, pos: nat)
    requires |ks| <= |t| && Within(t, start, end, ks) && f in c && pos < |c[f]|
    ensures var c' := FlushSome(c, target, bytes, t, start, ks);
            && f in c' && pos < |c'[f]|
            && (c'[f][pos] == c[f][pos]
                || exists r, a: nat ::
                     r in t && Backs(target, r, start, end, a, f, pos) && c'[f][pos] == Peek(bytes, a))
    decreases |ks|
  {
    if ks != [] {
      var n := |ks| - 1;
      SomeBytes(c, target, bytes, t, start, end, ks[..n], f, pos);
      FlushToByte(FlushSome(c, target, bytes, t, start, ks[..n]), target, bytes, t[n], start, end, ks[n], f, pos);
    }
  }

  lemma FlushToByte(c: map<nat, seq<byte>>, target: map<nat, nat>, bytes: map<nat, byte>, r: Region, start: nat,
      end: nat, k: nat, f: nat, pos: nat)
    requires k <= Extent(r, start, end) && f in c && pos < |c[f]|
    ensures var c' := FlushTo(c, target, bytes, r, start, k);
            && f in c' && pos < |c'[f]|
            && (c'[f][pos] == c[f][pos]
                || exists a: nat :: Backs(target, r, start, end, a, f, pos) && c'[f][pos] == Peek(bytes, a))
  {
    var lo := SyncStart(r, start);
    if Writable(r) && k > 0 && r.fref.id in target && target[r.fref.id] == f {
      var off := r.off + (lo - r.base);
      if off <= pos < off + k { assert Backs(target, r, start, end, lo + (pos - off), f, pos); }
    }
  }

  /* ---- what a program stores into a mapping ---- */

  /* No file can tell what is stored where no entry has a reference. */
  lemma {:induction false} PrivateStores(content: map<nat, seq<byte>>, target: map<nat, nat>, bytes: map<nat, byte>,
      stored: map<nat, byte>, t: seq<Region>, start: nat, end: nat)
    requires AllOk(t, W32)
    requires forall r, a: nat {:trigger r.Holds(a)} |
        r in t && r.Holds(a) && Peek(stored, a) != Peek(bytes, a) :: r.fref == Null
    ensures FlushAll(content, target, stored, t, start, end) == FlushAll(content, target, bytes, t, start, end)
    decreases |t|
  {
    if t != [] {
      var r := t[0];
      assert r in t && RegionOk(r, W32);
      PrivateFlush(content, target, bytes, stored, r, start, Extent(r, start, end), end);
      PrivateStores(Flush1(content, target, bytes, r, start, end), target, bytes, stored, t[1..], start, end);
    }
  }

  lemma PrivateFlush(content: map<nat, seq<byte>>, target: map<nat, nat>, bytes: map<nat, byte>,
      stored: map<nat, byte>, r: Region, start: nat, k: nat, end: nat)
    requires RegionOk(r, W32) && k <= Extent(r, start, end)
    requires forall a: nat {:trigger r.Holds(a)} | r.Holds(a) && Peek(stored, a) != Peek(bytes, a) :: r.fref == Null
    ensures FlushTo(content, target, stored, r, start, k) == FlushTo(content, target, bytes, r, start, k)
  {
    if Writable(r) && k > 0 {
      var lo := SyncStart(r, start);
      forall i: nat | i < k ensures Span(stored, lo, k)[i] == Span(bytes, lo, k)[i] { assert r.Holds(lo + i); }
      SameBytes(Span(stored, lo, k), Span(bytes, lo, k));
    }
  }

  /* The same when writes fail, wherever they do. */
  lemma PrivatePartial(content: map<nat, seq<byte>>, content': map<nat, seq<byte>>, target: map<nat, nat>,
      bytes: map<nat, byte>, stored: map<nat, byte>, t: seq<Region>, start: nat, end: nat)
    requires AllOk(t, W32) && Partial(content, content', target, stored, t, start, end)
    requires forall r, a: nat {:trigger r.Holds(a)} |
        r in t && r.Holds(a) && Peek(stored, a) != Peek(bytes, a) :: r.fref == Null
    ensures Partial(content, content', target, bytes, t, start, end)
  {
    var n: nat :| Partly(content, content', target, stored, t, n, start, end);
    var ks: seq<nat> :|
      |ks| == n <= |t| && Within(t, start, end, ks) && content' == FlushSome(content, target, stored, t, start, ks);
    PrivateSome(content, target, bytes, stored, t, start, end, ks);
    assert Partly(content, content', target, bytes, t, n, start, end);
  }

  lemma {:induction false} PrivateSome(content: map<nat, seq<byte>>, target: map<nat, nat>, bytes: map<nat, byte>,
      stored: map<nat, byte>, t: seq<Region>, start: nat, end: nat, ks: seq<nat>)
    requires AllOk(t, W32) && |ks| <= |t| && Within(t, start, end, ks)
    requires forall r, a: nat {:trigger r.Holds(a)} |
        r in t && r.Holds(a) && Peek(stored, a) != Peek(bytes, a) :: r.fref == Null
    ensures FlushSome(content, target, stored, t, start, ks) == FlushSome(content, target, bytes, t, start, ks)
    decreases |ks|
  {
    if ks != [] {
      var n := |ks| - 1;
      PrivateSome(content, target, bytes, stored, t, start, end, ks[..n]);
      assert t[n] in t && RegionOk(t[n], W32);
      PrivateFlush(FlushSome(content, target, bytes, t, start, ks[..n]), target, bytes, stored, t[n], start, ks[n],
        end);
    }
  }

  /* The first k of the bytes stored at place `at` of a mapping that shows n bytes of its file lie within those. */
  function Shown(data: seq<byte>, at: nat, n: nat): (r: seq<byte>)
    ensures at + |data| <= n ==> r == data
    ensures n <= at ==> r == []
    ensures at < n < at + |data| ==> r == data[..n - at]
  {
    if at + |data| <= n then data else if n <= at then [] else data[..n - at]
  }

  /* Writing a whole mapping back after a store into it is one write to the file, at the place of the store. */
  lemma SharedStore(content: map<nat, seq<byte>>, target: map<nat, nat>, bytes: map<nat, byte>, r: Region, start: nat,
      end: nat, f: nat, at: nat, data: seq<byte>)
    requires RegionOk(r, W32) && r.End() < W32 && Writable(r) && r.fref.id in target && target[r.fref.id] == f
        && f in content
    requires start <= r.base && r.End() <= end
    requires r.dataLen > 0 ==> r.off + r.dataLen <= |content[f]|
    requires forall a: nat {:trigger Peek(bytes, a)} | r.base <= a < r.base + r.dataLen ::
        Peek(bytes, a)
          == if at <= a - r.base < at + |data| then data[a - r.base - at] else content[f][r.off + (a - r.base)]
    ensures Flush1(content, target, bytes, r, start, end)
         == content[f := WriteAt(content[f], r.off + at, Shown(data, at, r.dataLen))]
  {
    var n, c := r.dataLen, content[f];
    assert Extent(r, start, end) == n && SyncStart(r, start) == r.base;
    if n == 0 {
      assert content[f := c] == content;
    } else {
      forall i: nat | i < n
        ensures Span(bytes, r.base, n)[i] == if at <= i < at + |data| then data[i - at] else c[r.off + i]
      {
        assert Span(bytes, r.base, n)[i] == Peek(bytes, r.base + i);
      }
      WrittenThrough(c, r.off, Span(bytes, r.base, n), at, data);
    }
  }

  /* Writing back bytes of which only those of data are new. */
  lemma WrittenThrough(c: seq<byte>, off: nat, s: seq<byte>, at: nat, data: seq<byte>)
    requires s != [] && off + |s| <= |c|
    requires forall i: nat {:trigger s[i]} | i < |s| ::
        s[i] == if at <= i < at + |data| then data[i - at] else c[off + i]
    ensures WriteAt(c, off, s) == WriteAt(c, off + at, Shown(data, at, |s|))
  {
    var d := Shown(data, at, |s|);
    hide Shown; hide WriteAt;
    WriteLength(c, off, s);
    if d == [] {
      forall i: nat | i < |c| ensures WriteAt(c, off, s)[i] == c[i] { WriteByte(c, off, s, i); }
      SameBytes(WriteAt(c, off, s), c);
      NothingWritten(c, off + at);
    } else {
      WriteLength(c, off + at, d);
      forall i: nat | i < |c| ensures WriteAt(c, off, s)[i] == WriteAt(c, off + at, d)[i] {
        WriteByte(c, off, s, i);
        WriteByte(c, off + at, d, i);
      }
      SameBytes(WriteAt(c, off, s), WriteAt(c, off + at, d));
    }
  }

  /* Where a range is that of one entry, no other one is written back. */
  lemma FlushAlone(content: map<nat, seq<byte>>, target: map<nat, nat>, bytes: map<nat, byte>, t: seq<Region>, i: nat)
    requires Sorted(t) && i < |t|
    ensures FlushAll(content, target, bytes, t, t[i].base, t[i].End())
         == Flush1(content, target, bytes, t[i], t[i].base, t[i].End())
  {
    hide Flush1;
    var r := t[i];
    forall s | s in t[..i] ensures s.End() <= r.base {
      var j: nat :| j < |t[..i]| && t[..i][j] == s;
      assert Ordered(t, j, i);
    }
    forall s | s in t[i + 1..] ensures r.End() <= s.base {
      var j: nat :| j < |t[i + 1..]| && t[i + 1..][j] == s;
      assert Ordered(t, i, i + 1 + j);
    }
    FlushNone(content, target, bytes, t[..i], r.base, r.End());
    FlushNext(content, target, bytes, t, i, r.base, r.End());
    var c := Flush1(content, target, bytes, r, r.base, r.End());
    FlushNone(c, target, bytes, t[i + 1..], r.base, r.End());
    FlushSplit(content, target, bytes, t[..i + 1], t[i + 1..], r.base, r.End());
    assert t[..i + 1] + t[i + 1..] == t;
  }

  /* An entry without a reference leaves the files alone when its range is unmapped or synced, whatever fails. */
  lemma PartialAlone(c: map<nat, seq<byte>>, c': map<nat, seq<byte>>, target: map<nat, nat>, bytes: map<nat, byte>,
      t: seq<Region>, i: nat)
    requires Sorted(t) && i < |t| && t[i].fref == Null
    requires Partial(c, c', target, bytes, t, t[i].base, t[i].End())
    ensures c' == c
  {
    var n: nat :| Partly(c, c', target, bytes, t, n, t[i].base, t[i].End());
    var ks: seq<nat> :| |ks| == n <= |t| && Within(t, t[i].base, t[i].End(), ks)
      && c' == FlushSome(c, target, bytes, t, t[i].base, ks);
    SomeAlone(c, target, bytes, t, i, ks);
  }

  lemma FlushToAlone(c: map<nat, seq<byte>>, target: map<nat, nat>, bytes: map<nat, byte>, r: Region, start: nat,
      end: nat, k: nat)
    requires r.fref == Null || r.End() <= start || end <= r.base
    requires k <= Extent(r, start, end)
    ensures FlushTo(c, target, bytes, r, start, k) == c
  {}

  lemma {:induction false} SomeAlone(c: map<nat, seq<byte>>, target: map<nat, nat>, bytes: map<nat, byte>,
      t: seq<Region>, i: nat, ks: seq<nat>)
    requires Sorted(t) && i < |t| && t[i].fref == Null && |ks| <= |t| && Within(t, t[i].base, t[i].End(), ks)
    ensures FlushSome(c, target, bytes, t, t[i].base, ks) == c
    decreases |ks|
  {
    if ks != [] {
      var n := |ks| - 1;
      SomeAlone(c, target, bytes, t, i, ks[..n]);
      hide FlushSome;
      assert n < i ==> Ordered(t, n, i);
      assert i < n ==> Ordered(t, i, n);
      FlushToAlone(c, target, bytes, t[n], t[i].base, t[i].End(), ks[n]);
    }
  }
}
