/** Files and descriptors as the mmap emulation sees them.  The operating system's choices come in as
    a script of answers; where the script ends, calls succeed in full. */
module MmanFiles {
  type byte = bv8

  /** What the system does with one read or write: interrupt it, fail it, or carry it out, possibly
      in part, but never for nothing. */
  datatype Answer = Interrupt | Fail | AtMost(limit: nat)

  datatype Moved = Interrupted | Failed | Done(n: nat)

  type Script = seq<Answer>

  function Rest(s: Script): Script { if s == [] then [] else s[1..] }

  /* Reads and writes may fall short or be interrupted, but do not fail. */
  ghost predicate NoFail(s: Script) { Fail !in s }

  /* How many of n bytes are moved. */
  function Outcome(s: Script, n: nat): (m: Moved)
    ensures m.Done? ==> m.n <= n && (n > 0 ==> m.n > 0)
    ensures s == [] ==> m == Done(n)
    ensures NoFail(s) ==> !m.Failed? && NoFail(Rest(s))
  {
    if s == [] then Done(n)
    else match s[0]
      case Interrupt => Interrupted
      case Fail => Failed
      case AtMost(k) => if n <= k + 1 then Done(n) else Done(k + 1)
  }

  /* A file after data is written at off; a gap reads as zeros. */
  function WriteAt(f: seq<byte>, off: nat, data: seq<byte>): (r: seq<byte>) {
    if data == [] then f
    else
      seq(if |f| < off + |data| then off + |data| else |f|,
          i requires 0 <= i => if off <= i < off + |data| then data[i - off] else if i < |f| then f[i] else 0)
  }

  lemma WriteLength(f: seq<byte>, off: nat, data: seq<byte>)
    requires data != []
    ensures |WriteAt(f, off, data)| == if |f| < off + |data| then off + |data| else |f|
  {}

  lemma WriteByte(f: seq<byte>, off: nat, data: seq<byte>, i: nat)
    requires data != [] && i < |WriteAt(f, off, data)|
    ensures WriteAt(f, off, data)[i] == if off <= i < off + |data| then data[i - off] else if i < |f| then f[i] else 0
  {}

  lemma NothingWritten(f: seq<byte>, off: nat)
    ensures WriteAt(f, off, []) == f
  {}

  lemma WriteMore(f: seq<byte>, off: nat, a: seq<byte>, b: seq<byte>)
    ensures WriteAt(WriteAt(f, off, a), off + |a|, b) == WriteAt(f, off, a + b)
  {
    if a == [] {
      assert a + b == b;
    } else if b == [] {
      assert a + b == a;
    } else {
      WriteMoreBytes(f, off, a, b);
    }
  }

  lemma WriteMoreBytes(f: seq<byte>, off: nat, a: seq<byte>, b: seq<byte>)
    requires a != [] && b != []
    ensures WriteAt(WriteAt(f, off, a), off + |a|, b) == WriteAt(f, off, a + b)
  {
    hide WriteAt;
    var m := WriteAt(f, off, a);
    WriteLength(f, off, a);
    WriteLength(m, off + |a|, b);
    WriteLength(f, off, a + b);
    SameBytes(WriteAt(m, off + |a|, b), WriteAt(f, off, a + b)) by {
      forall i: nat | i < |WriteAt(f, off, a + b)| ensures WriteAt(m, off + |a|, b)[i] == WriteAt(f, off, a + b)[i] {
        WriteMoreByte(f, off, a, b, i);
      }
    }
  }

  lemma SameBytes(x: seq<byte>, y: seq<byte>)
    requires |x| == |y| && forall i: nat | i < |x| :: x[i] == y[i]
    ensures x == y
  {}

  lemma WriteMoreByte(f: seq<byte>, off: nat, a: seq<byte>, b: seq<byte>, i: nat)
    requires a != [] && b != [] && i < |WriteAt(f, off, a + b)| && i < |WriteAt(WriteAt(f, off, a), off + |a|, b)|
    ensures WriteAt(WriteAt(f, off, a), off + |a|, b)[i] == WriteAt(f, off, a + b)[i]
  {
    hide WriteAt;
    var m := WriteAt(f, off, a);
    WriteLength(f, off, a);
    WriteByte(m, off + |a|, b, i);
    WriteByte(f, off, a + b, i);
    if i < |m| { WriteByte(f, off, a, i); }
  }

  /* The bytes of a file from off on, as far as it goes, but at most n. */
  function ReadAt(f: seq<byte>, off: nat, n: nat): (r: seq<byte>)
    ensures |r| == if off + n <= |f| then n else if off <= |f| then |f| - off else 0
    ensures forall i | 0 <= i < |r| :: r[i] == f[off + i]
  {
    if off >= |f| then [] else if off + n <= |f| then f[off..off + n] else f[off..]
  }

  class Files {
    /* Open descriptors and the files they lead to. */
    var open: map<int, nat>
    var content: map<nat, seq<byte>>

    ghost predicate Valid() reads this {
      && (forall fd | fd in open :: fd >= 0)
      && forall fd | fd in open :: open[fd] in content
    }

    constructor (open: map<int, nat>, content: map<nat, seq<byte>>)
      requires forall fd | fd in open :: fd >= 0 && open[fd] in content
      ensures Valid() && this.open == open && this.content == content
    {
      this.open, this.content := open, content;
    }

    /* pread */
    method PRead(fd: int, n: nat, off: nat, script: Script) returns (m: Moved, data: seq<byte>)
      requires Valid()
      ensures fd !in open ==> m == Failed
      ensures fd in open ==> m == Outcome(script, |ReadAt(content[open[fd]], off, n)|)
      ensures m.Done? ==> fd in open && data == ReadAt(content[open[fd]], off, m.n) && |data| == m.n
    {
      if fd !in open { return Failed, []; }
      var all := ReadAt(content[open[fd]], off, n);
      m := Outcome(script, |all|);
      data := if m.Done? then all[..m.n] else [];
    }

    /* pwrite */
    method PWrite(fd: int, data: seq<byte>, off: nat, script: Script) returns (m: Moved)
      requires Valid() && fd in open
      modifies `content
      ensures Valid() && m == Outcome(script, |data|)
      ensures content == if m.Done? then old(content)[open[fd] := WriteAt(old(content[open[fd]]), off, data[..m.n])]
          else old(content)
    {
      m := Outcome(script, |data|);
      if m.Done? {
        content := content[open[fd] := WriteAt(content[open[fd]], off, data[..m.n])];
      }
    }

    /* dup; `newfd` is the descriptor the system picks, negative if it has none left. */
    method Dup(fd: int, newfd: int) returns (r: int)
      requires Valid() && newfd !in open
      modifies `open
      ensures Valid()
      ensures r >= 0 <==> newfd >= 0 && fd in old(open)
      ensures r >= 0 ==> r == newfd && open == old(open)[r := old(open)[fd]]
      ensures r < 0 ==> open == old(open)
    {
      if newfd < 0 || fd !in open { return -1; }
      open := open[newfd := open[fd]];
      r := newfd;
    }

    /* close */
    method Close(fd: int)
      requires Valid() && fd in open
      modifies `open
      ensures Valid() && open == old(open) - {fd}
    {
      open := open - {fd};
    }
  }
}
