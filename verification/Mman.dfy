/** mmap, munmap and msync over linear memory. */
module Mman {
  import opened Words
  import opened Alignment
  import opened Sbrk
  import opened Pages
  import opened MmanTable
  import opened MmanSearch
  import opened MmanFiles
  import opened MmanRefs
  import opened MmanSync

  const PTRDIFF_MAX: nat := 0x7FFF_FFFF

  const PROT_EXEC: nat := 4

  const MAP_SHARED: nat := 1
  const MAP_PRIVATE: nat := 2
  const MAP_SHARED_VALIDATE: nat := 3
  const MAP_FIXED: nat := 0x10
  const MAP_ANON: nat := 0x20
  const MAP_GROWSDOWN: nat := 0x100
  const MAP_HUGETLB: nat := 0x4_0000
  const MAP_FIXED_NOREPLACE: nat := 0x10_0000

  const MS_ASYNC: nat := 1
  const MS_INVALIDATE: nat := 2
  const MS_SYNC: nat := 4

  datatype Option<T> = None | Some(value: T)

  datatype Errno = EINVAL | ENOMEM | EBADF | EIO

  /** `Aborted`: sbrk was called with a negative increment. */
  datatype MapResult = Mapped(base: nat) | MapFailed(errno: Errno) | Aborted

  /** What the surroundings decide during one call: whether realloc and malloc succeed, by how many pages
      they make memory grow, whether memory can grow further, the descriptor that dup finds, and the
      outcomes of reads and writes. */
  datatype Env = Env(granted: bool, tablePages: nat, available: bool, frefGranted: bool, frefPages: nat, newfd: int,
    script: Script)

  class Mapper {
    const memory: LinearMemory
    const files: Files

    var regs: array<Region>
    var nregs: nat
    var frefs: map<nat, FileRef>
    var nextFref: nat
    /* The contents of linear memory; what was never written is zero. */
    var bytes: map<nat, byte>

    function Table(): seq<Region> reads this, regs
      requires nregs <= regs.Length
    {
      regs[..nregs]
    }

    ghost predicate Valid() reads this, regs, memory, files {
      && nregs <= regs.Length && memory.Valid() && files.Valid()
      && TableOk(Table(), memory.size)
      && FrefsIn(Table(), frefs, files.open, nextFref)
      && forall a | a in bytes :: a < memory.size
    }

    constructor (memory: LinearMemory, files: Files)
      requires memory.Valid() && files.Valid()
      ensures Valid() && this.memory == memory && this.files == files && Table() == []
    {
      this.memory, this.files := memory, files;
      regs := new Region[0];
      nregs, frefs, nextFref, bytes := 0, map[], 0, map[];
    }

    /* ---- the table in its array ---- */

    /* first_overlap: what the search finds in 32 bits, and that this is the first entry that ends above addr
       while no entry goes up to 2^32. */
    method FirstOverlap(addr: nat) returns (lo: nat)
      requires nregs <= regs.Length && Sorted(Table()) && AllOk(Table(), W32)
      ensures lo == FirstIndex(Table(), addr)
      ensures IsFirst(Table(), addr, lo) || (lo == nregs && !NoneAtEnd(Table()))
    {
      hide Sorted; hide AllOk; hide NoneAtEnd; hide IsFirst;
      lo := 0;
      var hi := nregs;
      ghost var t := Table();
      while lo < hi
        invariant lo <= hi <= nregs && Bisect(t, addr, lo, hi) == FirstIndex(t, addr)
      {
        var mid := lo + (hi - lo) / 2;
        assert t[mid] == regs[mid];
        if regs[mid].Stop() <= addr {
          lo := mid + 1;
        } else {
          hi := mid;
        }
      }
      SearchFinds(t, addr);
    }

    /* reserve; `granted` is whether realloc succeeds, and `pages` by how much it makes memory grow. */
    method Reserve(extra: nat, granted: bool, pages: nat) returns (ok: bool)
      requires Valid()
      modifies `regs, memory
      ensures Valid() && Table() == old(Table()) && (regs == old(regs) || fresh(regs))
          && memory.size >= old(memory.size)
      ensures ok ==> nregs + extra <= regs.Length
      ensures ok <==> nregs + extra <= old(regs.Length) || granted
      ensures nregs + extra <= old(regs.Length) || pages == 0 ==> memory.size == old(memory.size)
    {
      hide FrefsIn; hide TableOk;
      if nregs + extra <= regs.Length { return true; }
      OthersGrow(pages, true);
      if !granted { return false; }
      var newcap := if regs.Length != 0 then 2 * regs.Length else 16;
      while newcap < nregs + extra
        invariant newcap > 0
        decreases nregs + extra - newcap
      {
        newcap := 2 * newcap;
      }
      ghost var t := Table();
      var newregs := new Region[newcap](i requires 0 <= i reads this, regs => if i < nregs
        && i < regs.Length then regs[i] else Freed(0, 0));
      regs := newregs;
      assert Table() == t;
      ok := true;
    }

    /* insert_at */
    method InsertAt(i: nat, r: Region)
      requires i <= nregs < regs.Length
      modifies regs, `nregs
      ensures nregs == old(nregs) + 1 <= regs.Length && Table() == old(Table())[..i] + [r] + old(Table())[i..]
    {
      ghost var t := Table();
      forall j | i <= j < nregs { regs[j + 1] := regs[j]; }
      regs[i] := r;
      nregs := nregs + 1;
      InsertedSeq(t, Table(), i, r);
    }

    /* remove_at */
    method RemoveAt(i: nat)
      requires i < nregs <= regs.Length
      modifies regs, `nregs
      ensures nregs == old(nregs) - 1 && Table() == old(Table())[..i] + old(Table())[i + 1..]
    {
      ghost var t := Table();
      forall j | i <= j < nregs - 1 { regs[j] := regs[j + 1]; }
      nregs := nregs - 1;
      RemovedSeq(t, Table(), i);
    }

    /* Entry i takes in the next one. */
    method TakeIn(i: nat)
      requires i + 1 < nregs <= regs.Length
      modifies regs, `nregs
      ensures nregs == old(nregs) - 1 && Table() == Joined(old(Table()), i)
    {
      ghost var t := Table();
      assert t[i] == regs[i] && t[i + 1] == regs[i + 1];
      regs[i] := regs[i].(len := regs[i].len + regs[i + 1].len, dirty := regs[i].dirty || regs[i + 1].dirty);
      JoinedIs(t, i);
      assert Table() == t[i := regs[i]];
      RemoveAt(i + 1);
    }

    /* coalesce_around */
    method CoalesceAround(start: nat, end: nat)
      requires nregs <= regs.Length && memory.size <= W32 && Sorted(Table()) && AllOk(Table(), memory.size)
          && (NoneAtEnd(Table()) ==> AbutWithin(Table(), start, end))
      modifies regs, `nregs
      ensures nregs <= regs.Length && TableOk(Table(), memory.size)
      ensures SameMeaning(old(Table()), Table())
    {
      hide RegionOk; hide Sorted; hide AbutWithin; hide SameMeaning; hide AllOk; hide NoneAtEnd; hide FirstIndex;
      hide IsFirst; hide Joined; hide Coalesced; hide Merging;
      SameItself(Table());
      ghost var t0, below := Table(), NoneAtEnd(Table());
      MoreRoom(t0, memory.size, W32);
      var i: nat := FirstOverlap(start);
      assert Table() == t0;
      if below { StartMerging(t0, i, start, end); }
      if i > 0 { i := i - 1; }
      while i + 1 < nregs && regs[i].base <= end
        invariant i <= nregs <= regs.Length && Sorted(Table()) && AllOk(Table(), memory.size)
            && (below ==> Merging(Table(), i, start, end))
        invariant SameMeaning(t0, Table())
        decreases nregs - i
      {
        ghost var t := Table();
        assert t[i] == regs[i] && t[i + 1] == regs[i + 1];
        MoreRoom(t, memory.size, W32);
        OnlyLast(t, i);
        if regs[i].kind == R_FREE && regs[i + 1].kind == R_FREE && regs[i].Stop() == regs[i + 1].base {
          TakeIn(i);
          JoinStep(t0, t, i, start, end, memory.size, below);
        } else {
          if below { MergingNext(t, i, start, end); }
          i := i + 1;
        }
      }
      if below { MergingDone(Table(), i, start, end); }
      SameLastPage(t0, Table(), memory.size);
    }

    /* ---- unmapping ---- */

    /* fref_release */
    method FrefRelease(fref: Fref)
      requires files.Valid()
      requires fref.Ref? ==> fref.id in frefs && frefs[fref.id].refs > 0 && frefs[fref.id].fd in files.open
      modifies `frefs, files`open
      ensures files.Valid()
      ensures fref == Null ==> frefs == old(frefs) && files.open == old(files.open)
      ensures fref.Ref? ==>
          frefs == Recount(old(frefs), fref.id, 0) && files.open == Reopened(old(frefs), old(files.open), fref.id, 0)
    {
      if fref.Ref? {
        var f := frefs[fref.id];
        frefs := frefs[fref.id := FileRef(f.fd, f.refs - 1)];
        if f.refs - 1 == 0 {
          files.Close(f.fd);
          frefs := frefs - {fref.id};
        }
      }
    }

    /* writeback: the backed bytes of [start, end), each to its own place in the file; after an error
       only the first k of them. */
    method Writeback(r: Region, start0: nat, end0: nat, script0: Script)
        returns (ok: bool, script: Script, ghost k: nat)
      requires files.Valid() && Writable(r) && r.fref.id in frefs && frefs[r.fref.id].fd in files.open
      requires r.base <= start0 && end0 <= r.End()
      modifies files`content
      ensures files.Valid()
      ensures var lo, hi := start0, Min(end0, (r.base + r.dataLen) % W32);
              && k <= (if lo < hi then hi - lo else 0) && (ok ==> k == if lo < hi then hi - lo else 0)
              && Written(old(files.content), files.content, files.open[frefs[r.fref.id].fd], r.off
                   + (lo - r.base), bytes, lo, k)
      ensures NoFail(script0) ==> ok && NoFail(script)
    {
      hide Written; hide Span; hide WriteAt;
      ok, script, k := true, script0, 0;
      var end := Min(end0, (r.base + r.dataLen) % W32);
      ghost var f, c := files.open[frefs[r.fref.id].fd], files.content;
      ghost var at: nat := r.off + (start0 - r.base);
      WrittenNone(c, f, at, bytes, start0);
      if start0 >= end { return; }
      var body, remaining, off := start0, end - start0, r.off + (start0 - r.base);
      while remaining > 0
        invariant files.Valid() && body == start0 + k && off == at + k && k + remaining == end - start0
            && remaining >= 0
        invariant Written(c, files.content, f, at, bytes, start0, k)
        invariant NoFail(script0) ==> NoFail(script)
        decreases |script|, remaining
      {
        ghost var before := files.content;
        var n := files.PWrite(frefs[r.fref.id].fd, Span(bytes, body, remaining), off, script);
        script := Rest(script);
        if n.Interrupted? { continue; }
        if n.Failed? { ok := false; return; }
        WrittenMore(c, before, f, at, bytes, start0, k, remaining, n.n);
        remaining, off, body, k := remaining - n.n, off + n.n, body + n.n, k + n.n;
      }
    }

    /* One entry of the table falls into the pieces that unmapping leaves of it: those that unmapping
       [start, e) would leave without any wrapping. */
    method UnmapEntry(i: nat, start: nat, end: nat, ghost e: nat) returns (n: nat)
      requires nregs <= regs.Length && files.Valid() && FrefsIn(Table(), frefs, files.open, nextFref)
      requires i < nregs && start < end && start < e && Touched(Table()[i], start, e) && StopsAt(Table()[i], end, e)
      requires Table()[i].base > 0 && Table()[i].len > 0 && (Table()[i].kind != R_FILE ==> Table()[i].fref == Null)
      requires nregs - 1 + |Unmap1(Table()[i], start, e)| <= regs.Length
      modifies regs, `nregs, `frefs, files`open
      ensures nregs <= regs.Length && files.Valid() && FrefsIn(Table(), frefs, files.open, nextFref)
      ensures Table() == Splice(old(Table()), i, Unmap1(old(Table())[i], start, e))
      ensures n == |Unmap1(old(Table())[i], start, e)|
      ensures Released(old(frefs), old(files.open), frefs, files.open)
    {
      hide FrefsIn; hide Counted; hide Opened;
      ghost var t := Table();
      var r := regs[i];
      assert r == t[i];
      UnmapFrefs(t, i, frefs, files.open, nextFref, start, e);
      CountedReleases(frefs, files.open, r.fref, Pieces(r, start, e));
      CountedOne(frefs, files.open, r.fref);
      if Max(r.base, start) == r.base && Min(r.Stop(), end) == r.Stop() {
        UnmapWhole(i, start, e);
        n := 1;
      } else if Max(r.base, start) == r.base {
        UnmapHead(i, start, end);
        n := 2;
      } else if Min(r.Stop(), end) == r.Stop() {
        UnmapTail(i, start, e);
        n := 2;
      } else {
        UnmapMiddle(i, start, end);
        n := 3;
      }
    }

    ghost predicate CanUnmap(i: nat, start: nat, end: nat) reads this, regs, files {
      && nregs <= regs.Length && files.Valid() && i < nregs && start < end
      && var r := regs[i];
        && Touched(r, start, end) && r.len > 0 && (r.kind != R_FILE ==> r.fref == Null)
        && nregs - 1 + |Unmap1(r, start, end)| <= regs.Length
        && (r.fref.Ref? ==> r.fref.id in frefs && frefs[r.fref.id].refs > 0 && frefs[r.fref.id].fd in files.open)
    }

    /* Whole region unmapped. */
    method UnmapWhole(i: nat, ghost start: nat, ghost end: nat)
      requires CanUnmap(i, start, end) && start <= regs[i].base && regs[i].End() <= end
      modifies regs, `frefs, files`open
      ensures files.Valid() && Table() == Splice(old(Table()), i, Unmap1(old(regs[i]), start, end))
      ensures frefs == Counted(old(frefs), old(regs[i].fref), 0)
          && files.open == Opened(old(frefs), old(files.open), old(regs[i].fref), 0)
    {
      ghost var t := Table();
      if regs[i].kind == R_FILE { FrefRelease(regs[i].fref); }
      regs[i] := regs[i].(kind := R_FREE, dirty := true, fref := Null);
      assert Table() == t[..i] + [regs[i]] + t[i + 1..];
    }

    /* Head unmapped; tail survives. */
    method UnmapHead(i: nat, ghost start: nat, end: nat)
      requires CanUnmap(i, start, end) && start <= regs[i].base && end < regs[i].End()
      modifies regs, `nregs
      ensures nregs <= regs.Length && Table() == Splice(old(Table()), i, Unmap1(old(regs[i]), start, end))
    {
      ghost var t := Table();
      var r := regs[i];
      var tail := TailOf(r, end);
      regs[i] := r.(len := end - r.base, kind := R_FREE, dirty := true, fref := Null);
      InsertAt(i + 1, tail);
      assert Table() == t[..i] + [regs[i], tail] + t[i + 1..];
    }

    /* Tail unmapped; head survives. */
    method UnmapTail(i: nat, start: nat, ghost end: nat)
      requires CanUnmap(i, start, end) && 0 < regs[i].base < start && regs[i].End() <= end && regs[i].End() <= W32
      modifies regs, `nregs
      ensures nregs <= regs.Length && Table() == Splice(old(Table()), i, Unmap1(old(regs[i]), start, end))
    {
      ghost var t := Table();
      var r := regs[i];
      regs[i] := HeadOf(r, start);
      InsertAt(i + 1, Freed(start, (r.Stop() + W32 - start) % W32));
      assert Table() == t[..i] + [HeadOf(r, start), Freed(start, r.End() - start)] + t[i + 1..];
    }

    lemma Inserted(t: seq<Region>, i: nat, a: Region, b: Region, c: Region)
      requires i < |t|
      ensures var u := t[i := a];
        var v := u[..i + 1] + [b] + u[i + 1..];
        v[..i + 2] + [c] + v[i + 2..] == Splice(t, i, [a, b, c])
    {}

    /* Middle unmapped; head and tail survive. */
    method UnmapMiddle(i: nat, start: nat, end: nat)
      requires CanUnmap(i, start, end) && regs[i].base < start && end < regs[i].End()
      modifies regs, `nregs, `frefs
      ensures nregs <= regs.Length && Table() == Splice(old(Table()), i, Unmap1(old(regs[i]), start, end))
      ensures frefs == Counted(old(frefs), old(regs[i].fref), 2)
          && files.open == Opened(old(frefs), files.open, old(regs[i].fref), 2)
    {
      ghost var t := Table();
      var r := regs[i];
      var tail := TailOf(r, end);
      if tail.kind == R_FILE && tail.fref.Ref? {
        var f := frefs[tail.fref.id];
        frefs := frefs[tail.fref.id := FileRef(f.fd, f.refs + 1)];
      }
      regs[i] := HeadOf(r, start);
      InsertAt(i + 1, Freed(start, end - start));
      InsertAt(i + 2, tail);
      Inserted(t, i, HeadOf(r, start), Freed(start, end - start), tail);
    }

    /* unmap_range, with `end` zero for a range up to 2^32: does to the page map what Cleared says, and that is
       what it should while no entry goes up to 2^32.  Each entry cut at `start` or at the end of what is
       reached needs a slot, so two always do.  Without errors, what the mappings held is in their files. */
    method UnmapRange(start: nat, end: nat, script0: Script) returns (script: Script)
      requires Valid() && Range(start, end)
      requires nregs + Cuts(Table(), start) + Cuts(Table(), Reach(Table(), end)) <= regs.Length
      modifies regs, `nregs, `frefs, files
      ensures Valid()
      ensures forall a: nat :: OwnerAt(Table(), a) == Cleared(old(Table()), a, start, end)
      ensures Released(old(frefs), old(files.open), frefs, files.open)
      ensures if Misses(old(Table()), start, end) then
                SameMeaning(old(Table()), Table()) && frefs == old(frefs) && files.open == old(files.open)
                && files.content == old(files.content)
              else
                forall id: nat {:trigger RefCount(Table(), id)} ::
                  RefCount(Table(), id) == RefCount(UnmapAll(old(Table()), start, Reach(old(Table()), end)), id)
      ensures Partial(old(files.content), files.content, Target(old(frefs), old(files.open)), bytes, old(Table()),
                start, end)
      ensures NoFail(script0) && !Misses(old(Table()), start, end) ==>
                NoFail(script) && files.content == FlushAll(old(files.content), Target(old(frefs), old(files.open)),
                  bytes, old(Table()), start, end)
    {
      hide FrefsIn; hide Sorted; hide AllOk; hide Coalesced; hide FlushAll; hide Released; hide Target; hide Partial;
      hide UnmapAll; hide OwnerAt; hide Unmapped; hide Cuts; hide Paged; hide NoneAtEnd; hide FirstIndex;
      hide AbutWithin; hide IsFirst; hide Reach;
      ghost var t0 := Table();
      MoreRoom(t0, memory.size, W32);
      var i: nat := FirstOverlap(start);
      assert Table() == t0;
      script := UnmapFrom(i, start, end, script0);
      ghost var t := Table();
      if Misses(t0, start, end) {
        CoalescedAbut(t0, start, end);
      } else {
        ReachPaged(t0, end);
        UnmapAllResult(t0, start, Reach(t0, end), memory.size);
        AbutReach(t, t0, start, end);
      }
      CoalesceAround(start, end);
      SameFrefs(t, Table(), frefs, files.open, nextFref);
    }

    /* The arguments of unmap_range: page aligned, and the end may have wrapped to zero. */
    predicate Range(start: nat, end: nat) {
      Paged(start) && Paged(end) && start < W32 && (end == 0 || start < end < W32)
    }

    /* The loop of unmap_range. */
    method UnmapFrom(i0: nat, start: nat, end: nat, script0: Script) returns (script: Script)
      requires Valid() && Range(start, end) && i0 == FirstIndex(Table(), start)
      requires IsFirst(Table(), start, i0) || i0 == nregs
      requires nregs + Cuts(Table(), start) + Cuts(Table(), Reach(Table(), end)) <= regs.Length
      modifies regs, `nregs, `frefs, files
      ensures nregs <= regs.Length && files.Valid() && FrefsIn(Table(), frefs, files.open, nextFref)
      ensures Released(old(frefs), old(files.open), frefs, files.open)
      ensures if Misses(old(Table()), start, end) then
                Table() == old(Table()) && frefs == old(frefs) && files.open == old(files.open)
                && files.content == old(files.content)
              else Table() == UnmapAll(old(Table()), start, Reach(old(Table()), end))
      ensures Partial(old(files.content), files.content, Target(old(frefs), old(files.open)), bytes, old(Table()),
                start, end)
      ensures NoFail(script0) && !Misses(old(Table()), start, end) ==>
                NoFail(script) && files.content == FlushAll(old(files.content), Target(old(frefs), old(files.open)),
                  bytes, old(Table()), start, end)
    {
      hide FrefsIn; hide Sorted; hide AllOk; hide Coalesced; hide Unmap1; hide FlushAll; hide Flush1; hide Released;
      hide Target; hide UnmapAll; hide OwnerAt; hide Cuts; hide Paged; hide NoneAtEnd; hide FirstIndex; hide Reach;
      hide StopsAt; hide Partly; hide FlushTo; hide Extent;
      ghost var t0, c0, target := Table(), files.content, Target(frefs, files.open);
      ghost var missed := Misses(t0, start, end);
      ghost var e: nat := if missed then W32 else Reach(t0, end);
      MoreRoom(t0, memory.size, W32);
      NothingReleased(frefs, files.open);
      var i: nat := i0;
      script := script0;
      ghost var k: nat := i;
      PartlyNone(c0, target, bytes, t0, k, start, end);
      if !missed {
        ReachPaged(t0, end);
        UnmapAllSize(t0, start, e);
        HalfwayStart(t0, k, start, e);
        FlushBefore(c0, target, bytes, t0, k, start, end);
      }
      while i < nregs && regs[i].base < end
        invariant k <= |t0|
        invariant missed ==>
            i == i0 && nregs == old(nregs) && Table() == t0 && frefs == old(frefs) && files.open == old(files.open)
            && files.content == c0 && files.Valid()
        invariant !missed ==> Midway(t0, k, i, start, e) && forall j | k <= j < |t0| :: t0[j].End() > start
        invariant Released(old(frefs), old(files.open), frefs, files.open)
        invariant Partly(c0, files.content, target, bytes, t0, k, start, end)
        invariant NoFail(script0) && !missed ==>
            NoFail(script) && files.content == FlushAll(c0, target, bytes, t0[..k], start, end)
        decreases |t0| - k
      {
        assert !missed;
        FlushNext(c0, target, bytes, t0, k, start, end);
        HalfwayHere(t0, k, start, e);
        ReachStops(t0, k, end);
        ghost var c, n := files.content, 0;
        i, script, n := UnmapNext(t0, k, i, start, end, e, script, old(frefs), old(files.open));
        PartlyNext(c0, c, target, bytes, t0, k, start, end, n);
        k := k + 1;
      }
      if !missed {
        HalfwayHere(t0, k, start, e);
        if k < |t0| { ReachDone(t0, k, end); }
        HalfwayDone(t0, k, start, e);
        FlushRest(c0, target, bytes, t0, k, start, end);
      }
    }

    /* The old entry at the cursor, and what its pieces make of the table. */
    lemma AtEntry(t0: seq<Region>, k: nat, i: nat, start: nat, end: nat, e: nat)
      requires Midway(t0, k, i, start, e) && k < |t0| && i < nregs && t0[k].base < end && t0[k].End() > start
      requires AllOk(t0, W32) && start < end && StopsAt(t0[k], end, e)
      ensures nregs <= regs.Length && files.Valid() && FrefsIn(Table(), frefs, files.open, nextFref)
          && |Table()| == nregs
      ensures Table()[i] == regs[i] == t0[k]
      ensures regs[i].base > 0 && regs[i].len > 0 && (regs[i].kind != R_FILE ==> regs[i].fref == Null)
      ensures start < e && (regs[i].kind != R_FREE ==> Touched(regs[i], start, e))
      ensures nregs - 1 + |Unmap1(regs[i], start, e)| <= regs.Length
      ensures Splice(Table(), i, Unmap1(t0[k], start, e)) == Halfway(t0, k + 1, start, e)
      ensures i + |Unmap1(t0[k], start, e)| == |UnmapAll(t0[..k + 1], start, e)|
      ensures |UnmapAll(t0, start, e)| <= regs.Length
      ensures regs[i].kind == R_FREE ==> !Writable(t0[k]) && Midway(t0, k + 1, i + 1, start, e)
    {
      hide NoFail; hide FrefsIn; hide AllOk; hide Unmap1;
      HalfwayNext(t0, k, start, e);
      HalfwayHere(t0, k, start, e);
      var r := t0[k];
      assert r == Table()[i] && r in t0 && r == regs[i];
      EntryFacts(t0, W32, r);
      if regs[i].kind == R_FREE {
        UntouchedEntry(r, start, e);
        assert Splice(Table(), i, [r]) == Table();
      }
    }

    lemma PastEntry(t0: seq<Region>, k: nat, i: nat, start: nat, e: nat)
      requires start < e && k < |t0| && nregs <= regs.Length && files.Valid() && |UnmapAll(t0, start, e)| <= regs.Length
      requires Table() == Halfway(t0, k + 1, start, e) && i == |UnmapAll(t0[..k + 1], start, e)|
      requires FrefsIn(Table(), frefs, files.open, nextFref)
      ensures Midway(t0, k + 1, i, start, e)
    {
      hide Halfway; hide UnmapAll; hide FrefsIn;
    }

    /* One step of unmap_range. */
    method UnmapNext(ghost t0: seq<Region>, ghost k: nat, i0: nat, start: nat, end: nat, ghost e: nat,
        script0: Script, ghost frefs0: map<nat, FileRef>, ghost open0: map<int, nat>)
        returns (i: nat, script: Script, ghost n: nat)
      requires Midway(t0, k, i0, start, e) && k < |t0| && i0 < nregs && t0[k].base < end && t0[k].End() > start
      requires AllOk(t0, W32) && Released(frefs0, open0, frefs, files.open) && start < end && StopsAt(t0[k], end, e)
      modifies regs, `nregs, `frefs, files
      ensures Midway(t0, k + 1, i, start, e) && Released(frefs0, open0, frefs, files.open)
      ensures files.content == FlushTo(old(files.content), Target(frefs0, open0), bytes, t0[k], start, n)
      ensures n <= Extent(t0[k], start, end)
      ensures NoFail(script0) ==>
          NoFail(script) && files.content == Flush1(old(files.content), Target(frefs0, open0), bytes, t0[k], start, end)
    {
      hide *;
      ghost var r := t0[k];
      AtEntry(t0, k, i0, start, end, e);
      if regs[i0].kind == R_FREE {
        i, script, n := i0 + 1, script0, 0;
        NothingToFlush(files.content, Target(frefs0, open0), bytes, r, start, end);
      } else {
        TargetHolds(frefs0, open0, Table(), frefs, files.open, nextFref);
        var ok;
        ok, script, n := FlushEntry(i0, start, end, script0, Target(frefs0, open0));
        var pieces := UnmapEntry(i0, start, end, e);
        i := i0 + pieces;
        ReleasedTwice(frefs0, open0, old(frefs), old(files.open), frefs, files.open);
        PastEntry(t0, k, i, start, e);
      }
    }

    /* Midway through unmap_range: k old entries are done, the cursor is behind their pieces. */
    ghost predicate Midway(t0: seq<Region>, k: nat, i: nat, start: nat, end: nat) reads this, regs, files {
      && start < end && k <= |t0| && nregs <= regs.Length && files.Valid() && |UnmapAll(t0, start, end)| <= regs.Length
      && Table() == Halfway(t0, k, start, end) && i == |UnmapAll(t0[..k], start, end)|
      && FrefsIn(Table(), frefs, files.open, nextFref)
    }

    /* What entry i shows of [start, end) is written back, if it is a shared writable file mapping. */
    method FlushEntry(i: nat, start: nat, end: nat, script0: Script, ghost target: map<nat, nat>)
        returns (ok: bool, script: Script, ghost k: nat)
      requires nregs <= regs.Length && files.Valid() && FrefsIn(Table(), frefs, files.open, nextFref) && i < nregs
      requires forall id | id in frefs ::
          id in target && frefs[id].fd in files.open && files.open[frefs[id].fd] == target[id]
      modifies files`content
      ensures files.Valid()
      ensures files.content == FlushTo(old(files.content), target, bytes, Table()[i], start, k)
      ensures k <= Extent(Table()[i], start, end)
      ensures ok ==> files.content == Flush1(old(files.content), target, bytes, Table()[i], start, end)
      ensures NoFail(script0) ==> ok && NoFail(script)
    {
      hide FrefsIn; hide Written; hide FlushTo; hide Span; hide WriteAt;
      var r := regs[i];
      assert r == Table()[i];
      ok, script, k := true, script0, 0;
      if r.kind == R_FILE && r.fref.Ref? && And(r.prot, PROT_WRITE) != 0 {
        var ostart, oend := Max(r.base, start), Min(r.Stop(), end);
        EntryRef(Table(), frefs, files.open, nextFref, i);
        ok, script, k := Writeback(r, ostart, oend, script);
        WrittenFlush(old(files.content), files.content, target, bytes, r, start, k);
      } else {
        NothingToFlush(files.content, target, bytes, r, start, end);
      }
    }

    /* ---- mapping ---- */

    /* memset(base, 0, len) */
    method Clear(base: nat, len: nat)
      modifies `bytes
      ensures forall a: nat :: Peek(bytes, a) == if base <= a < base + len then 0 else Peek(old(bytes), a)
      ensures bytes.Keys <= old(bytes).Keys
    {
      bytes := map a | a in bytes && !(base <= a < base + len) :: bytes[a];
    }

    /* acquire_pages: the first free run that fits, or new memory.  An increment of 2^31 bytes or more is
       a negative one for sbrk, which aborts. */
    method AcquirePages(len: nat, kind: Kind, prot: nat, flags: nat, available: bool)
        returns (ok: bool, idx: nat, aborted: bool)
      requires Valid() && Paged(len) && len > 0 && kind != R_FREE && nregs < regs.Length
      modifies regs, `nregs, `bytes, memory
      ensures Valid() && old(nregs) <= nregs <= old(nregs) + 1 && memory.size >= old(memory.size)
      ensures !ok ==> Table() == old(Table()) && bytes == old(bytes) && memory.size == old(memory.size)
      ensures ok ==> idx < nregs && regs[idx] == Region(regs[idx].base, len, kind, false, prot, flags, Null, 0, 0)
      ensures ok ==> Acquired(old(Table()), Table(), old(bytes), bytes, regs[idx])
      ensures ok ==> FirstFit(old(Table()), regs[idx].base, len, old(memory.size))
      ensures ok <==> SomeFit(old(Table()), len) || (len <= PTRDIFF_MAX && available && old(memory.size) + len <= W32)
      ensures aborted <==> !SomeFit(old(Table()), len) && len > PTRDIFF_MAX
    {
      hide FrefsIn; hide TableOk; hide RegionOk; hide AllOk;
      ghost var t := Table();
      aborted := false;
      var i: nat := 0;
      while i < nregs
        invariant i <= nregs && forall j | 0 <= j < i :: !(t[j].kind == R_FREE && t[j].len >= len)
      {
        assert t[i] == regs[i];
        if regs[i].kind == R_FREE && regs[i].len >= len {
          FreeIsOk(t, i, memory.size);
          TakePages(i, len, kind, prot, flags);
          return true, i, false;
        }
        i := i + 1;
      }
      if len > PTRDIFF_MAX { return false, 0, true; }
      ok, idx := GrowPages(len, kind, prot, flags, available);
    }

    /* The front of free region i is taken, and cleared if it may be dirty. */
    method TakePages(i: nat, len: nat, kind: Kind, prot: nat, flags: nat)
      requires Valid() && Paged(len) && len > 0 && kind != R_FREE && nregs < regs.Length
      requires i < nregs && regs[i].kind == R_FREE && regs[i].dirty && regs[i].len >= len
      modifies regs, `nregs, `bytes
      ensures Valid() && old(nregs) <= nregs <= old(nregs) + 1 && i < nregs
      ensures regs[i] == Region(old(regs[i].base), len, kind, false, prot, flags, Null, 0, 0)
      ensures Acquired(old(Table()), Table(), old(bytes), bytes, regs[i])
    {
      hide FrefsIn; hide TableOk; hide RegionOk; hide AllOk;
      ghost var t, n := Table(), Region(regs[i].base, len, kind, false, prot, flags, Null, 0, 0);
      FreeIsOk(t, i, memory.size);
      TakeOk(t, i, n, memory.size);
      TakeAll(t, i, n, memory.size);
      SpliceNoFrefs(t, i, TakenFrom(t[i], n), frefs, files.open, nextFref);
      var dirty := regs[i].dirty;
      if regs[i].len > len {
        var taken := regs[i].(len := len);
        regs[i] := regs[i].(base := regs[i].base + len, len := regs[i].len - len);
        ghost var rest := regs[i];
        InsertAt(i, taken);
        assert Table() == t[..i] + [taken, rest] + t[i + 1..];
      }
      regs[i] := Region(regs[i].base, regs[i].len, kind, false, prot, flags, Null, 0, 0);
      assert Table() == Splice(t, i, TakenFrom(t[i], n));
      if dirty { Clear(regs[i].base, len); }
    }

    /* No free run fits: linear memory grows, by pages that are zero. */
    method GrowPages(len: nat, kind: Kind, prot: nat, flags: nat, available: bool) returns (ok: bool, idx: nat)
      requires Valid() && Paged(len) && len > 0 && kind != R_FREE && nregs < regs.Length
      modifies regs, `nregs, memory
      ensures Valid() && old(nregs) <= nregs <= old(nregs) + 1 && memory.size >= old(memory.size)
      ensures !ok ==> Table() == old(Table()) && memory.size == old(memory.size)
      ensures ok <==> available && old(memory.size) + len <= W32
      ensures ok ==> idx < nregs && regs[idx] == Region(old(memory.size), len, kind, false, prot, flags, Null, 0, 0)
      ensures ok ==> Acquired(old(Table()), Table(), bytes, bytes, regs[idx])
    {
      hide FrefsIn; hide RegionOk; hide Sorted; hide Coalesced; hide FirstIndex; hide NoneAtEnd; hide Acquired;
      ghost var t, limit := Table(), memory.size;
      MoreRoom(t, limit, W32);
      EndsBelow(t, limit);
      var grown := memory.Sbrk(len, available);
      if grown == FAILED { return false, 0; }
      RoomLeft(t, limit);
      var grownRegion := Region(grown, len, kind, false, prot, flags, Null, 0, 0);
      var i := FirstOverlap(grownRegion.base);
      assert Table() == t;
      InsertAt(i, grownRegion);
      assert Table() == t + [grownRegion];
      FreshOk(grownRegion, memory.size);
      GrownPages(t, grownRegion, memory.size, bytes);
      AppendNoFrefs(t, grownRegion, frefs, files.open, nextFref);
      ok, idx := true, i;
    }

    /* What a mapping of len bytes at offset can show of file fd. */
    ghost function Source(fd: int, offset: int, len: nat): seq<byte> reads files {
      if offset >= 0 && fd in files.open
        && files.open[fd] in files.content then ReadAt(files.content[files.open[fd]], offset, len) else []
    }

    /* The pages at base are filled from the file, until it ends. */
    method Populate(base: nat, len: nat, fd: int, offset: nat, script0: Script)
        returns (ok: bool, total: nat, script: Script)
      requires files.Valid() && len > 0 && base + len <= memory.size && forall a | a in bytes :: a < memory.size
      modifies `bytes
      ensures forall a | a in bytes :: a < memory.size
      ensures Populated(bytes, old(bytes), base, total, Source(fd, offset, len))
      ensures ok ==> fd in files.open && total == |Source(fd, offset, len)|
      ensures NoFail(script0) && fd in files.open ==> ok && NoFail(script)
    {
      hide Populated; hide ReadAt; hide Poke;
      ok, total, script := true, 0, script0;
      var body, remaining, off := base, len, offset;
      ghost var f := if fd in files.open then files.content[files.open[fd]] else [];
      assert Source(fd, offset, len) == ReadAt(f, offset, len) by { NothingToRead(offset, len); }
      PopulateNone(bytes, base, ReadAt(f, offset, len));
      while remaining > 0
        invariant body == base + total && remaining == len - total && off == offset + total && total <= len
        invariant forall a | a in bytes :: a < memory.size
        invariant total > 0 ==> fd in files.open
        invariant total <= |ReadAt(f, offset, len)|
        invariant Populated(bytes, old(bytes), base, total, ReadAt(f, offset, len))
        invariant NoFail(script0) ==> NoFail(script)
        decreases |script|, remaining
      {
        var n, data := files.PRead(fd, remaining, off, script);
        script := Rest(script);
        if n.Interrupted? { continue; }
        if n.Failed? { ok := false; return; }
        ReadParts(f, offset, len, total, n.n);
        if n.n == 0 { break; }
        PopulateMore(bytes, old(bytes), base, total, ReadAt(f, offset, len), data);
        ghost var before := bytes;
        bytes := Poke(bytes, body, data);
        assert forall a | a in bytes :: a in before || a < base + total + |data|;
        assert total + n.n <= len;
        remaining, off, body, total := remaining - n.n, off + n.n, body + n.n, total + n.n;
      }
    }

    /* A mapping that cannot be completed is unmapped again; it has no file to write to.  If the search misses
       it, which takes an entry up to 2^32, its pages stay live. */
    method Abandon(idx: nat, ghost t0: seq<Region>)
      requires Valid() && idx < nregs && regs[idx].Live() && regs[idx].fref == Null && Placed(t0, Table(), regs[idx])
      modifies regs, `nregs, `frefs, files
      ensures Valid() && files.content == old(files.content)
      ensures frefs == old(frefs) && files.open == old(files.open)
      ensures if FirstIndex(old(Table()), old(regs[idx]).base) == old(nregs) then Left(t0, Table(), old(regs[idx]))
              else SameLive(t0, Table())
    {
      hide FrefsIn; hide Coalesced; hide FlushAll; hide Target; hide FirstIndex; hide NoneAtEnd; hide Reach;
      ghost var t, r := Table(), regs[idx];
      assert t[idx] == r && r in t && RegionOk(r, memory.size);
      MoreRoom(t, memory.size, W32);
      WholeEntry(t, idx);
      ghost var target := Target(frefs, files.open);
      OnlyEntry(t, idx, files.content, target, bytes);
      NoRefs(t, idx);
      hide RegionOk; hide AllOk; hide Sorted;
      ghost var frefs0, open0 := frefs, files.open;
      var script := UnmapRange(regs[idx].base, regs[idx].Stop(), []);
      if !Misses(t, r.base, r.Stop()) {
        Abandoned(t0, t, Table(), r);
        SameRefs(t, Table(), frefs0, open0, frefs, files.open, nextFref);
        assert Gone(frefs0, frefs) == {};
      }
    }

    /* regs[idx].off and regs[idx].data_len */
    method FillEntry(idx: nat, offset: nat, total: nat, ghost t0: seq<Region>)
      requires Valid() && idx < nregs && regs[idx].kind == R_FILE && regs[idx].fref == Null && total <= regs[idx].len
      requires Placed(t0, Table(), regs[idx])
      modifies regs
      ensures Valid() && regs[idx] == old(regs[idx]).(off := offset, dataLen := total) && Placed(t0, Table(), regs[idx])
      ensures Table() == old(Table())[idx := regs[idx]]
    {
      hide FrefsIn; hide TableOk;
      ghost var t, r := Table(), regs[idx].(off := offset, dataLen := total);
      assert t[idx] == regs[idx];
      CanFillEntry(t, idx, r, memory.size);
      FillOk(t, idx, r, memory.size);
      FillFrefs(t, idx, r, frefs, files.open, nextFref);
      regs[idx] := regs[idx].(off := offset);
      regs[idx] := regs[idx].(dataLen := total);
      assert Table() == t[idx := r];
    }

    /* A shared writable mapping keeps a descriptor of its own. */
    method Attach(idx: nat, newfd: int, ghost t0: seq<Region>, ghost before: map<int, nat>)
      requires nregs <= regs.Length && memory.Valid() && files.Valid() && TableOk(Table(), memory.size)
          && forall a | a in bytes :: a < memory.size
      requires FrefsIn(Table(), frefs, before, nextFref) && newfd !in before && newfd in files.open
          && files.open == before[newfd := files.open[newfd]]
      requires idx < nregs && regs[idx].kind == R_FILE && regs[idx].fref == Null && Placed(t0, Table(), regs[idx])
      modifies regs, `frefs, `nextFref
      ensures Valid() && regs[idx] == old(regs[idx]).(fref := Ref(old(nextFref))) && Placed(t0, Table(), regs[idx])
      ensures frefs == old(frefs)[old(nextFref) := FileRef(newfd, 1)] && nextFref == old(nextFref) + 1
    {
      hide FrefsIn; hide TableOk;
      ghost var t, r := Table(), regs[idx].(fref := Ref(nextFref));
      assert t[idx] == regs[idx];
      FreeIsOk(t, idx, memory.size);
      CanFillEntry(t, idx, r, memory.size);
      FillOk(t, idx, r, memory.size);
      NewFref(t, idx, r, frefs, before, nextFref, newfd, files.open);
      frefs := frefs[nextFref := FileRef(newfd, 1)];
      regs[idx] := regs[idx].(fref := Ref(nextFref));
      nextFref := nextFref + 1;
      assert Table() == t[idx := r];
    }

    /* The rest of mmap for a file, once there are pages: they are filled, and a shared writable mapping
       gets a descriptor. */
    method MapFile(idx: nat, fd: int, offset: nat, env: Env, ghost t0: seq<Region>, ghost b0: map<nat, byte>)
        returns (errno: Option<Errno>)
      requires Valid() && idx < nregs && regs[idx].len > 0 && env.newfd !in files.open
      requires regs[idx] == Region(regs[idx].base, regs[idx].len, R_FILE, false, regs[idx].prot, regs[idx].flags, Null,
          0, 0)
      requires Acquired(t0, Table(), b0, bytes, regs[idx])
      modifies this, regs, memory, files
      ensures Valid() && regs == old(regs) && memory.size >= old(memory.size) && files.content == old(files.content)
      ensures errno.Some? ==>
          SameContents(t0, b0, bytes) && frefs == old(frefs) && files.open == old(files.open)
      ensures errno.Some? ==>
                if FirstIndex(old(Table()), old(regs[idx]).base) == old(nregs) then Left(t0, Table(), old(regs[idx]))
                else SameLive(t0, Table())
      ensures errno == None ==>
          idx < nregs && regs[idx] == FileRegion(old(regs[idx]), old(Source(fd, offset, regs[idx].len)), offset,
          old(nextFref))
      ensures errno == None ==> Mapping(t0, Table(), b0, bytes, regs[idx], old(Source(fd, offset, regs[idx].len)))
      ensures errno == None ==>
          Attached(regs[idx], old(frefs), old(files.open), frefs, files.open, old(nextFref), fd, env.newfd)
      ensures errno == None ==>
          (regs[idx].fref.Ref? <==>
           And(old(regs[idx].flags), MAP_SHARED) != 0 && And(old(regs[idx].prot), PROT_WRITE) != 0)
      ensures errno == None <== fd in old(files.open) && NoFail(env.script) && env.frefGranted && env.newfd >= 0
    {
      hide FrefsIn; hide TableOk; hide Placed; hide SameLive; hide Left; hide FirstIndex;
      ghost var t1, b1, r1, len := Table(), bytes, regs[idx], regs[idx].len;
      InLimit(Table(), idx, memory.size);
      var ok, total, script := Populate(regs[idx].base, regs[idx].len, fd, offset, env.script);
      StillApart(t0, Table(), b0, b1, bytes, regs[idx], total, Source(fd, offset, len));
      if !ok {
        Abandon(idx, t0);
        return Some(EIO);
      }
      ghost var data := Source(fd, offset, len);
      FillEntry(idx, offset, total, t0);
      if And(regs[idx].flags, MAP_SHARED) != 0 && And(regs[idx].prot, PROT_WRITE) != 0 {
        var newfd := -1;
        if env.frefGranted {
          OthersGrow(env.frefPages, true);
          ghost var before := files.open;
          newfd := files.Dup(fd, env.newfd);
          if newfd >= 0 { Attach(idx, newfd, t0, before); }
        }
        if newfd < 0 {
          SameSearch(t1, Table(), idx, r1.base);
          LeftAs(t0, r1, regs[idx]);
          Abandon(idx, t0);
          return Some(ENOMEM);
        }
      }
      Mapped2(t0, Table(), b0, b1, bytes, r1, regs[idx], data);
      errno := None;
    }

    /* mmap once its arguments are accepted; `limit` is the end of memory when pages are acquired. */
    method MapPages(len: nat, anon: bool, prot: nat, flags: nat, fd: int, offset: nat, env: Env)
      returns (res: MapResult, ghost r: Region, ghost limit: nat)
      requires Valid() && Paged(len) && len > 0 && env.newfd !in files.open
      modifies this, regs, memory, files
      ensures regs == old(regs) || fresh(regs)
      ensures Valid() && old(memory.size) <= limit <= memory.size && files.content == old(files.content)
      ensures old(nregs) + 2 <= old(regs.Length) || env.tablePages == 0 ==> limit == old(memory.size)
      ensures !res.Mapped? ==>
          Undone(old(Table()), Table(), len, limit) && SameContents(old(Table()), old(bytes), bytes)
          && frefs == old(frefs) && files.open == old(files.open)
      ensures !res.Mapped? && (old(nregs) + 2 <= old(regs.Length) || env.granted) && env.available
              && UpToTheEnd(old(Table()), len, limit) ==>
                forall a: nat | limit <= a < W32 :: OwnerAt(Table(), a).Live()
      ensures res.Mapped? ==> MappedAs(res.base, len, anon, prot, flags, fd, offset, old(Source(fd, offset, len)),
          old(nextFref), r)
      ensures res.Mapped? ==> Mapping(old(Table()), Table(), old(bytes), bytes, r,
          if anon then [] else old(Source(fd, offset, len)))
      ensures res.Mapped? ==> Attached(r, old(frefs), old(files.open), frefs, files.open, old(nextFref), fd, env.newfd)
      ensures res.Mapped? ==>
          r in Table() && (r.fref.Ref? <==> !anon && And(flags, MAP_SHARED) != 0 && And(prot, PROT_WRITE) != 0)
      ensures res.Mapped? ==> FirstFit(old(Table()), res.base, len, limit) && Paged(res.base)
      ensures res.Aborted? <==>
              (old(nregs) + 2 <= old(regs.Length) || env.granted) && !SomeFit(old(Table()), len) && len > PTRDIFF_MAX
      ensures (old(nregs) + 2 <= old(regs.Length) || env.granted)
              && (SomeFit(old(Table()), len) || (len <= PTRDIFF_MAX && env.available && limit + len <= W32))
              && (anon || (fd in old(files.open) && NoFail(env.script) && env.frefGranted && env.newfd >= 0))
              ==> res.Mapped?
    {
      hide FrefsIn; hide TableOk; hide Placed; hide SameLive; hide SameContents; hide FirstFit; hide SomeFit;
      hide Mapping; hide Undone; hide UpToTheEnd; hide Left; hide FirstIndex; hide Sorted; hide AllOk;
      ghost var t0, b0 := Table(), bytes;
      res, r := MapFailed(ENOMEM), Freed(0, 0);
      NothingHappened(t0, b0);
      var ok := Reserve(2, env.granted, env.tablePages);
      limit := memory.size;
      NothingUndone(t0, len, limit);
      InOrder(t0, limit);
      if !ok { return; }
      var idx, aborted;
      ok, idx, aborted := AcquirePages(len, if anon then R_ANON else R_FILE, prot, flags, env.available);
      if aborted { res := Aborted; NotUpToTheEnd(t0, len, limit); return; }
      if !ok {
        if env.available { NotUpToTheEnd(t0, len, limit); }
        return;
      }
      var base := regs[idx].base;
      InLimit(Table(), idx, memory.size);
      if !anon {
        ghost var t1 := Table();
        InOrder(t1, memory.size);
        assert t1[idx] == regs[idx];
        var errno := MapFile(idx, fd, offset, env, t0, b0);
        if errno.Some? {
          GivenUp(t0, t1, Table(), idx, len, limit);
          res := MapFailed(errno.value);
          return;
        }
      } else {
        Mapped1(t0, Table(), b0, bytes, regs[idx]);
      }
      r := regs[idx];
      res := Mapped(base);
    }

    /* mmap */
    method Mmap(length: nat, prot: nat, flags: nat, fd: int, offset: int, env: Env)
        returns (res: MapResult, ghost r: Region, ghost limit: nat)
      requires Valid() && length < W32 && env.newfd !in files.open
      modifies this, regs, memory, files
      ensures regs == old(regs) || fresh(regs)
      ensures Valid() && old(memory.size) <= limit <= memory.size && files.content == old(files.content)
      ensures old(nregs) + 2 <= old(regs.Length) || env.tablePages == 0 ==> limit == old(memory.size)
      ensures !res.Mapped? ==>
          Undone(old(Table()), Table(), PageCeil(length), limit) && SameContents(old(Table()), old(bytes), bytes)
          && frefs == old(frefs) && files.open == old(files.open)
      ensures !res.Mapped? && Accepted(length, prot, flags, fd, offset)
              && (old(nregs) + 2 <= old(regs.Length) || env.granted) && env.available
              && UpToTheEnd(old(Table()), PageCeil(length), limit) ==>
                forall a: nat | limit <= a < W32 :: OwnerAt(Table(), a).Live()
      ensures !Accepted(length, prot, flags, fd, offset) ==>
                res == MapFailed(Refusal(length, prot, flags, fd)) && Table() == old(Table()) && bytes == old(bytes)
                  && memory.size == old(memory.size)
      ensures res.Mapped? ==>
          Accepted(length, prot, flags, fd, offset) && Paged(res.base) && length <= PageCeil(length) < length + PAGESIZE
      ensures res.Mapped? ==> FirstFit(old(Table()), res.base, PageCeil(length), limit)
      ensures var anon := And(flags, MAP_ANON) != 0; var data := old(Source(fd, offset, PageCeil(length)));
              res.Mapped? ==>
                && MappedAs(res.base, PageCeil(length), anon, prot, flags, fd, offset, data, old(nextFref), r)
                && Mapping(old(Table()), Table(), old(bytes), bytes, r, if anon then [] else data)
                && Attached(r, old(frefs), old(files.open), frefs, files.open, old(nextFref), fd, env.newfd)
      ensures res.Mapped? ==>
          (r.fref.Ref? <==> And(flags, MAP_ANON) == 0 && And(flags, MAP_SHARED) != 0 && And(prot, PROT_WRITE) != 0)
          && r in Table()
      ensures res.Aborted? <==>
              Accepted(length, prot, flags, fd, offset) && (old(nregs) + 2 <= old(regs.Length) || env.granted)
              && !SomeFit(old(Table()), PageCeil(length)) && PageCeil(length) > PTRDIFF_MAX
      ensures Accepted(length, prot, flags, fd, offset) && (old(nregs) + 2 <= old(regs.Length) || env.granted)
              && (SomeFit(old(Table()), PageCeil(length))
                   || (PageCeil(length) <= PTRDIFF_MAX && env.available && limit + PageCeil(length) <= W32))
              && (And(flags, MAP_ANON) != 0
                   || (fd in old(files.open) && NoFail(env.script) && env.frefGranted && env.newfd >= 0))
              ==> res.Mapped?
    {
      hide Mapping; hide SameLive; hide SameContents; hide FrefsIn; hide TableOk; hide FirstFit; hide SomeFit;
      hide Attached; hide Undone; hide UpToTheEnd;
      r, limit := Freed(0, 0), memory.size;
      NothingHappened(Table(), bytes);
      NothingUndone(Table(), PageCeil(length), limit);
      PageCeilOk(length);
      OffsetAligned(offset);
      if And(flags, MAP_PRIVATE + MAP_SHARED) == 0 || And(flags, MAP_FIXED) != 0
        || And(flags, MAP_SHARED_VALIDATE) == MAP_SHARED_VALIDATE
         || And(flags, MAP_GROWSDOWN) != 0 || And(flags, MAP_HUGETLB) != 0 || And(flags, MAP_FIXED_NOREPLACE) != 0 {
        return MapFailed(EINVAL), r, limit;
      }
      if prot == 0 || And(prot, PROT_EXEC) != 0 { return MapFailed(EINVAL), r, limit; }
      if length == 0 { return MapFailed(EINVAL), r, limit; }
      if length >= PTRDIFF_MAX { return MapFailed(ENOMEM), r, limit; }
      var anon := And(flags, MAP_ANON) != 0;
      if !anon {
        if fd < 0 { return MapFailed(EBADF), r, limit; }
        if offset < 0 || And(offset, PAGESIZE - 1) != 0 { return MapFailed(EINVAL), r, limit; }
      }
      var len := PageCeil(length);
      if len < length { return MapFailed(ENOMEM), r, limit; }
      res, r, limit := MapPages(len, anon, prot, flags, fd, if anon then 0 else offset, env);
    }

    /* The program stores bytes in memory it has. */
    method Store(at: nat, data: seq<byte>)
      requires Valid() && at + |data| <= memory.size
      modifies `bytes
      ensures Valid() && bytes == Poke(old(bytes), at, data)
    {
      hide TableOk; hide FrefsIn;
      bytes := Poke(bytes, at, data);
    }

    lemma TableInOrder(r: Region)
      requires Valid() && r in Table()
      ensures Sorted(Table()) && RegionOk(r, W32) && r.End() <= memory.size
    {
      hide Sorted; hide Coalesced;
      InOrder(Table(), memory.size);
    }

    lemma SourceOf(fd: int, offset: int, n: nat)
      requires Valid() && offset >= 0 && fd in files.open
      ensures files.open[fd] in files.content
          && Source(fd, offset, n) == ReadAt(files.content[files.open[fd]], offset, n)
    {}

    /* Other users of sbrk do not disturb the table. */
    method OthersGrow(pages: nat, available: bool)
      requires Valid()
      modifies memory
      ensures Valid() && Table() == old(Table()) && memory.size >= old(memory.size)
      ensures pages == 0 ==> memory.size == old(memory.size)
    {
      hide FrefsIn; hide Sorted; hide Coalesced; hide RegionOk;
      ghost var limit := memory.size;
      var br := memory.Sbrk(pages * PAGESIZE, available);
      MoreRoom(Table(), limit, memory.size);
    }

    /* munmap */
    method Munmap(start: nat, length: nat, granted: bool, pages: nat, script: Script) returns (errno: Option<Errno>)
      requires Valid() && start < W32 && length < W32
      modifies this, regs, files, memory
      ensures regs == old(regs) || fresh(regs)
      ensures Valid() && bytes == old(bytes) && memory.size >= old(memory.size)
      ensures old(nregs) + 2 <= old(regs.Length) || pages == 0 ==> memory.size == old(memory.size)
      ensures errno == Some(EINVAL) <==>
              !Paged(start) || length == 0 || length > W32 - PAGESIZE || start + PageCeil(length) >= W32
      ensures errno.Some? ==>
          Table() == old(Table()) && frefs == old(frefs) && files.open == old(files.open)
          && files.content == old(files.content)
      ensures errno == None && NoneAtEnd(old(Table())) ==> forall a: nat ::
          OwnerAt(Table(), a) == Unmapped(old(OwnerAt(Table(), a)), a, start, start + PageCeil(length))
      ensures errno == None ==> forall a: nat ::
          OwnerAt(Table(), a) == Cleared(old(Table()), a, start, start + PageCeil(length))
      ensures errno == None && NoFail(script)
              && (NoneAtEnd(old(Table())) || !Misses(old(Table()), start, start + PageCeil(length))) ==>
                files.content == FlushAll(old(files.content), Target(old(frefs), old(files.open)), bytes, old(Table()),
                  start, start + PageCeil(length))
      ensures errno == None && Misses(old(Table()), start, start + PageCeil(length)) ==>
          frefs == old(frefs) && files.open == old(files.open) && files.content == old(files.content)
      ensures errno == None ==>
                Partial(old(files.content), files.content, Target(old(frefs), old(files.open)), bytes,
                  old(Table()), start, start + PageCeil(length))
      ensures errno == None ==> Released(old(frefs), old(files.open), frefs, files.open)
      ensures forall id: nat {:trigger RefCount(Table(), id)} :: id in frefs <==> RefCount(Table(), id) > 0
      ensures errno == Some(ENOMEM) <==>
          errno != Some(EINVAL) && old(nregs) + 2 > old(regs.Length) && !granted
      ensures errno == None || errno == Some(EINVAL) || errno == Some(ENOMEM)
    {
      hide FrefsIn; hide TableOk; hide FlushAll; hide Released; hide Unmapped; hide OwnerAt; hide PageCeil;
      hide Cleared; hide Misses; hide Reach; hide NoneAtEnd; hide Sorted; hide AllOk; hide Partial;
      PageCeilOk(length);
      OffsetAligned(start);
      AllMentioned();
      if And(start, PAGESIZE - 1) != 0 || length == 0 { return Some(EINVAL); }
      var len := PageCeil(length);
      if len < length || (start + len) % W32 < start { return Some(EINVAL); }
      ghost var t, limit := Table(), memory.size;
      var ok := Reserve(2, granted, pages);
      if !ok { return Some(ENOMEM); }
      TwoSlots(t, start, Reach(t, start + len), limit);
      PagedSum(start, len);
      InOrder(t, limit);
      if NoneAtEnd(t) {
        ClearedRight(t, start, start + len);
        NothingMissed(files.content, Target(frefs, files.open), bytes, t, start, start + len);
      }
      var rest := UnmapRange(start, (start + len) % W32, script);
      errno := None;
      assert NoneAtEnd(t) ==> forall a: nat :: OwnerAt(Table(), a) == Unmapped(OwnerAt(t, a), a, start, start + len);
      AllMentioned();
    }

    /* The references are those of the table. */
    lemma AllMentioned()
      requires Valid()
      ensures forall id: nat {:trigger RefCount(Table(), id)} :: id in frefs <==> RefCount(Table(), id) > 0
    {
      forall id: nat ensures id in frefs <==> RefCount(Table(), id) > 0 {
        Mentioned(Table(), frefs, files.open, nextFref, id);
      }
    }

    /* msync */
    method Msync(start: nat, length: nat, flags: nat, script0: Script) returns (errno: Option<Errno>)
      requires Valid() && start < W32 && length < W32
      modifies files`content
      ensures Valid()
      ensures SyncArgs(start, length, flags) && length > 0 ==>
                (errno == Some(ENOMEM) <==>
                 length > W32 - PAGESIZE || start + PageCeil(length) >= W32
                 || !Seen(Table(), start, start + PageCeil(length))
                 || exists a: nat :: start <= a < start + PageCeil(length) && !OwnerAt(Table(), a).Live())
      ensures SyncArgs(start, length, flags) && errno == None ==>
                files.content == if length == 0 then old(files.content)
                                 else FlushAll(old(files.content), Target(frefs, files.open), bytes, Table(), start,
                                   start + PageCeil(length))
      ensures errno == Some(EIO) ==>
                Partial(old(files.content), files.content, Target(frefs, files.open), bytes, Table(), start,
                  start + PageCeil(length))
      ensures errno == Some(ENOMEM) || errno == Some(EINVAL) ==> files.content == old(files.content)
      ensures errno == Some(EINVAL) <==> !SyncArgs(start, length, flags)
      ensures NoFail(script0) ==> errno != Some(EIO)
      ensures errno == None || errno == Some(EINVAL) || errno == Some(ENOMEM) || errno == Some(EIO)
    {
      hide FrefsIn; hide TableOk; hide FlushAll; hide Flush1; hide OwnerAt; hide PageCeil; hide Target; hide Sorted;
      hide AllOk; hide Seen; hide IsFirst; hide Partial;
      PageCeilOk(length);
      OffsetAligned(start);
      if And(start, PAGESIZE - 1) != 0 || (And(flags, MS_ASYNC) != 0 && And(flags, MS_SYNC) != 0)
         || AndNot(flags, MS_ASYNC + MS_SYNC + MS_INVALIDATE) != 0 {
        return Some(EINVAL);
      }
      if length == 0 { return None; }
      var len := PageCeil(length);
      if len < length || (start + len) % W32 < start { return Some(ENOMEM); }
      InOrder(Table(), memory.size);
      var begin, covered := Covered(start, start + len);
      if !covered { return Some(ENOMEM); }
      errno := SyncAll(begin, start, start + len, script0);
    }

    /* What a program stores into a mapping, and then unmaps or syncs, gets to the file as one write of as much of it
       as the file backs, or not at all. */
    method StoreThrough(length: nat, prot: nat, flags: nat, fd: int, offset: int, env: Env, at: nat, data: seq<byte>,
        unmap: bool, granted: bool, pages: nat, syncFlags: nat, script: Script)
        returns (res: MapResult, errno: Option<Errno>, ghost t: seq<Region>)
      requires Valid() && length < W32 && env.newfd !in files.open && at + |data| <= PageCeil(length)
      modifies this, regs, memory, files
      ensures Valid()
      ensures And(flags, MAP_SHARED) == 0 || And(prot, PROT_WRITE) == 0 ==> files.content == old(files.content)
      ensures var shown := |old(Source(fd, offset, PageCeil(length)))|;
        res.Mapped? && errno == None
        && And(flags, MAP_ANON) == 0 && And(flags, MAP_SHARED) != 0 && And(prot, PROT_WRITE) != 0
        && (unmap ==> NoFail(script) && !Misses(t, res.base, res.base + PageCeil(length))) ==>
          fd in old(files.open) && old(files.open[fd]) in old(files.content) && offset >= 0
          && files.content == old(files.content)[old(files.open[fd]) :=
               WriteAt(old(files.content[files.open[fd]]), offset + at, Shown(data, at, shown))]
    {
      hide TableOk; hide FrefsIn; hide FlushAll; hide Partial; hide Target; hide Mapping; hide MappedAs; hide FirstFit;
      hide SomeFit; hide UpToTheEnd; hide Undone; hide SameContents; hide NoneAtEnd; hide Misses; hide Cleared;
      hide WriteAt; hide Shown; hide Poke; hide Released; hide PageCeil; hide OwnerAt; hide Unmapped; hide Seen;
      hide SyncArgs; hide Reach; hide Attached; hide Sorted; hide RegionOk; hide FlagsOk; hide And; hide RefCount;
      ghost var r, limit;
      ghost var n, id, f0, o0 := PageCeil(length), nextFref, frefs, files.open;
      ghost var src := Source(fd, offset, n);
      ghost var t0, b0 := Table(), bytes;
      if offset >= 0 && fd in files.open { SourceOf(fd, offset, n); }
      errno := None;
      res, r, limit := Mmap(length, prot, flags, fd, offset, env);
      t := Table();
      if !res.Mapped? { return; }
      TableInOrder(r);
      Through(files.content, t0, t, b0, bytes, r, res.base, length, prot, flags, fd, offset, src, id, f0, o0, frefs,
        files.open, env.newfd, at, data);
      Store(res.base + at, data);
      if unmap {
        errno := Munmap(res.base, length, granted, pages, script);
      } else {
        errno := Msync(res.base, length, syncFlags, script);
      }
    }

    /* Whether live mappings cover [start, end), as far as the cursor can see; begin is the first entry that can
       overlap it.  An entry up to 2^32 puts the cursor back to zero. */
    method Covered(start: nat, end: nat) returns (begin: nat, covered: bool)
      requires nregs <= regs.Length && Sorted(Table()) && AllOk(Table(), W32) && start < end
      ensures covered <==>
          Seen(Table(), start, end) && forall a: nat | start <= a < end :: OwnerAt(Table(), a).Live()
      ensures covered ==> IsFirst(Table(), start, begin)
    {
      hide FirstIndex; hide OwnerAt; hide Sorted; hide AllOk;
      ghost var t := Table();
      var cursor: nat, i: nat := start, 0;
      i := FirstOverlap(start);
      assert Table() == t;
      begin := i;
      while cursor < end
        invariant begin <= i <= nregs
        invariant Cursor(t, begin, i, cursor, start) || (!Seen(t, start, end) && i == nregs && cursor < end)
        decreases nregs - i
      {
        if i < nregs { assert t[i] == regs[i]; }
        if i >= nregs || regs[i].kind == R_FREE || regs[i].base > cursor {
          if Seen(t, start, end) { Uncovered(t, i, cursor, begin, start); }
          return begin, false;
        }
        CursorNext(t, begin, i, cursor, start, end);
        cursor := regs[i].Stop();
        i := i + 1;
      }
      covered := true;
      CursorDone(t, begin, i, cursor, start, end);
    }

    method SyncAll(begin: nat, start: nat, end: nat, script0: Script) returns (errno: Option<Errno>)
      requires Valid() && start < end && IsFirst(Table(), start, begin)
      modifies files`content
      ensures Valid() && (errno == None || errno == Some(EIO))
      ensures errno == None ==>
          files.content == FlushAll(old(files.content), Target(frefs, files.open), bytes, Table(), start, end)
      ensures Partial(old(files.content), files.content, Target(frefs, files.open), bytes, Table(), start, end)
      ensures NoFail(script0) ==> errno == None
    {
      hide FrefsIn; hide FlushAll; hide Flush1; hide Target; hide Partly; hide FlushTo; hide Extent;
      ghost var t, c, target := Table(), files.content, Target(frefs, files.open);
      NothingReleased(frefs, files.open);
      TargetHolds(frefs, files.open, t, frefs, files.open, nextFref);
      FlushBefore(c, target, bytes, t, begin, start, end);
      PartlyNone(c, target, bytes, t, begin, start, end);
      errno := None;
      var i, script := begin, script0;
      while i < nregs && regs[i].base < end
        invariant begin <= i <= nregs && files.Valid() && (errno == None || errno == Some(EIO))
        invariant errno == None ==> files.content == FlushAll(c, target, bytes, t[..i], start, end)
        invariant Partly(c, files.content, target, bytes, t, i, start, end)
        invariant NoFail(script0) ==> NoFail(script) && errno == None
      {
        assert t[i] == regs[i];
        FlushNext(c, target, bytes, t, i, start, end);
        ghost var c1, k := files.content, 0;
        var ok;
        ok, script, k := FlushEntry(i, start, end, script, target);
        PartlyNext(c, c1, target, bytes, t, i, start, end, k);
        if !ok { errno := Some(EIO); }
        i := i + 1;
      }
      FlushRest(c, target, bytes, t, i, start, end);
    }
  }

  /* What taking pages for r makes of the page map and of memory: nobody loses live pages, the new
     pages are zero, and nothing else changes. */
  ghost predicate Acquired(t: seq<Region>, u: seq<Region>, bytes: map<nat, byte>, bytes': map<nat, byte>, r: Region) {
    && Placed(t, u, r)
    && (forall a: nat {:trigger Peek(bytes', a)} :: Peek(bytes', a) == if r.Holds(a) then 0 else Peek(bytes, a))
  }

  /* Entry r has come into the table t, on pages that were not live. */
  ghost predicate Placed(t: seq<Region>, u: seq<Region>, r: Region) {
    && (forall a: nat {:trigger OwnerAt(u, a)} :: OwnerAt(u, a) == if r.Holds(a) then OwnerIn(r, a) else OwnerAt(t, a))
    && (forall a: nat {:trigger OwnerAt(t, a)} | r.Holds(a) :: !OwnerAt(t, a).Live())
  }

  /* base is the lowest place in the pool with room for len bytes, or the end of memory if there is none. */
  ghost predicate FirstFit(t: seq<Region>, base: nat, len: nat, limit: nat) {
    (exists i :: 0 <= i < |t| && t[i].base == base && t[i].kind == R_FREE && t[i].len >= len
      && forall j | 0 <= j < i :: !(t[j].kind == R_FREE && t[j].len >= len))
    || (base == limit && forall j | 0 <= j < |t| :: !(t[j].kind == R_FREE && t[j].len >= len))
  }

  predicate SomeFit(t: seq<Region>, len: nat) { exists j :: 0 <= j < |t| && t[j].kind == R_FREE && t[j].len >= len }

  /* The first n bytes of data are stored at base, and memory is otherwise as before. */
  ghost predicate Populated(bytes: map<nat, byte>, before: map<nat, byte>, base: nat, n: nat, data: seq<byte>) {
    n <= |data| && forall a: nat {:trigger Peek(bytes, a)} ::
      Peek(bytes, a) == if base <= a < base + n then data[a - base] else Peek(before, a)
  }

  lemma PopulateNone(bytes: map<nat, byte>, base: nat, data: seq<byte>)
    ensures Populated(bytes, bytes, base, 0, data)
  {}

  lemma NothingToRead(off: nat, n: nat)
    ensures ReadAt([], off, n) == []
  {}

  lemma PopulateMore(bytes: map<nat, byte>, before: map<nat, byte>, base: nat, n: nat, data: seq<byte>, more: seq<byte>)
    requires Populated(bytes, before, base, n, data) && n + |more| <= |data| && more == data[n..n + |more|]
    ensures Populated(Poke(bytes, base + n, more), before, base, n + |more|, data)
    ensures forall a | a in Poke(bytes, base + n, more) :: a in bytes || a < base + n + |more|
  {
    var bytes' := Poke(bytes, base + n, more);
    forall a: nat ensures Peek(bytes', a) == if base <= a < base + n + |more| then data[a - base] else Peek(before, a) {
      PokeAt(bytes, base + n, more, a);
    }
    forall a | a in bytes' ensures a in bytes || a < base + n + |more| { PokeAt(bytes, base + n, more, a); }
  }

  lemma ReadParts(f: seq<byte>, off: nat, len: nat, total: nat, n: nat)
    requires total <= |ReadAt(f, off, len)| && total <= len && n <= |ReadAt(f, off + total, len - total)|
    ensures |ReadAt(f, off, len)| == total + |ReadAt(f, off + total, len - total)|
    ensures ReadAt(f, off + total, n) == ReadAt(f, off, len)[total..total + n]
  {}

  /* The new mapping r shows data and then zeros; nothing else changes. */
  ghost predicate Mapping(t: seq<Region>, u: seq<Region>, bytes: map<nat, byte>, bytes': map<nat, byte>, r: Region,
      data: seq<byte>) {
    && Placed(t, u, r) && |data| <= r.len
    && forall a: nat {:trigger Peek(bytes', a)} ::
        Peek(bytes', a) == if r.Holds(a) then if a - r.base < |data| then data[a - r.base] else 0 else Peek(bytes, a)
  }

  /* Live pages keep their contents. */
  ghost predicate SameContents(t: seq<Region>, bytes: map<nat, byte>, bytes': map<nat, byte>) {
    forall a: nat {:trigger Peek(bytes', a)} | OwnerAt(t, a).Live() :: Peek(bytes', a) == Peek(bytes, a)
  }

  /* The arguments that mmap supports. */
  predicate Accepted(length: nat, prot: nat, flags: nat, fd: int, offset: int) {
    && FlagsOk(flags) && prot != 0 && And(prot, PROT_EXEC) == 0 && 0 < length < PTRDIFF_MAX
    && (And(flags, MAP_ANON) == 0 ==> fd >= 0 && offset >= 0 && Paged(offset))
  }

  predicate FlagsOk(flags: nat) {
    && And(flags, MAP_PRIVATE + MAP_SHARED) != 0 && And(flags, MAP_SHARED_VALIDATE) != MAP_SHARED_VALIDATE
    && And(flags, MAP_FIXED) == 0 && And(flags, MAP_GROWSDOWN) == 0 && And(flags, MAP_HUGETLB) == 0
    && And(flags, MAP_FIXED_NOREPLACE) == 0
  }

  /* The flags of a private anonymous mapping have bits 1 and 5 only. */
  lemma PrivateAnonymous()
    ensures FlagsOk(MAP_PRIVATE + MAP_ANON) && And(MAP_PRIVATE + MAP_ANON, MAP_ANON) != 0
  {
    LowFlags();
    hide And;
    AndAbove(0x22, MAP_GROWSDOWN / 64, 6);
    AndAbove(0x22, MAP_HUGETLB / 64, 6);
    AndAbove(0x22, MAP_FIXED_NOREPLACE / 64, 6);
  }

  lemma LowFlags()
    ensures And(0x22, 3) == 2 && And(0x22, 0x20) == 0x20 && And(0x22, 0x10) == 0
  {
    assert And(17, 1) == 2 * And(8, 0) + 1;
    AndBitMeaning(0x22, 4);
    AndBitMeaning(0x22, 5);
    hide And;
    assert Bit(17, 3) == Bit(8, 2) == Bit(4, 1) == Bit(2, 0) && Bit(17, 4) == Bit(8, 3) == Bit(4, 2) == Bit(2, 1);
  }

  lemma {:induction false} AndAbove(a: nat, h: nat, k: nat)
    requires a < Pow2(k)
    ensures And(a, Pow2(k) * h) == 0
  {
    if k > 0 {
      MulAssoc(2, Pow2(k - 1), h);
      AndAbove(a / 2, h, k - 1);
    }
  }

  /* An accepted length that is beyond PTRDIFF_MAX once it is rounded up to pages: with an empty table mmap
     aborts. */
  lemma AbortsOn()
    ensures var length := 0x7FFF_0001;
            && Accepted(length, 3, MAP_PRIVATE + MAP_ANON, -1, 0) && PageCeil(length) > PTRDIFF_MAX
            && !SomeFit([], PageCeil(length))
  {
    hide FlagsOk;
    PageCeilOk(0x7FFF_0001);
    PrivateAnonymous();
    assert And(3, PROT_EXEC) == 0;
  }

  /* The error of arguments that are not accepted. */
  function Refusal(length: nat, prot: nat, flags: nat, fd: int): Errno {
    if !FlagsOk(flags) || prot == 0 || And(prot, PROT_EXEC) != 0 || length == 0 then EINVAL
    else if length >= PTRDIFF_MAX then ENOMEM
    else if fd < 0 then EBADF
    else EINVAL
  }

  /* The entry of a file mapping that shows data, once it is complete: a shared writable one has a reference. */
  ghost function FileRegion(r: Region, data: seq<byte>, offset: nat, id: nat): Region {
    r.(fref := if And(r.flags, MAP_SHARED) != 0 && And(r.prot, PROT_WRITE) != 0 then Ref(id) else Null,
       off := offset, dataLen := |data|)
  }

  /* What the table says of a new mapping. */
  ghost predicate MappedAs(base: nat, len: nat, anon: bool, prot: nat, flags: nat, fd: int, offset: int,
      data: seq<byte>, id: nat, r: Region) {
    && r.base == base && r.len == len && r.kind == (if anon then R_ANON else R_FILE) && !r.dirty && r.prot == prot
    && r.flags == flags
    && r.fref == (if !anon && And(flags, MAP_SHARED) != 0 && And(prot, PROT_WRITE) != 0 then Ref(id) else Null)
    && (!anon ==> r.off == offset && r.dataLen == |data|)
  }

  /* A reference comes with a descriptor of its own for the same file; without one nothing changes. */
  ghost predicate Attached(r: Region, frefs: map<nat, FileRef>, open: map<int, nat>, frefs': map<nat, FileRef>,
      open': map<int, nat>, id: nat, fd: int, newfd: int) {
    if r.fref.Ref? then fd in open && frefs' == frefs[id := FileRef(newfd, 1)] && open' == open[newfd := open[fd]]
    else frefs' == frefs && open' == open
  }

  /* Unmapping or syncing an entry without a reference changes no file. */
  lemma StoredPrivate(c: map<nat, seq<byte>>, target: map<nat, nat>, bytes: map<nat, byte>, t: seq<Region>, r: Region)
    requires Sorted(t) && r in t && r.fref == Null
    ensures FlushAll(c, target, bytes, t, r.base, r.End()) == c
    ensures forall c' {:trigger Partial(c, c', target, bytes, t, r.base, r.End())} |
        Partial(c, c', target, bytes, t, r.base, r.End()) :: c' == c
  {
    hide FlushAll; hide Partial;
    var i: nat :| i < |t| && t[i] == r;
    FlushAlone(c, target, bytes, t, i);
    NothingToFlush(c, target, bytes, r, r.base, r.End());
    forall c' | Partial(c, c', target, bytes, t, r.base, r.End()) ensures c' == c {
      PartialAlone(c, c', target, bytes, t, i);
    }
  }

  /* A mapping just made, after a store into it: what unmapping or syncing it does to the files. */
  lemma Through(c: map<nat, seq<byte>>, t0: seq<Region>, t: seq<Region>, b0: map<nat, byte>, b: map<nat, byte>,
      r: Region, base: nat, length: nat, prot: nat, flags: nat, fd: int, offset: int, src: seq<byte>, id: nat,
      frefs: map<nat, FileRef>, open: map<int, nat>, frefs': map<nat, FileRef>, open': map<int, nat>, newfd: int,
      at: nat, data: seq<byte>)
    requires Sorted(t) && r in t && RegionOk(r, W32) && (And(flags, MAP_ANON) == 0 ==> offset >= 0)
    requires var anon := And(flags, MAP_ANON) != 0;
      && MappedAs(base, PageCeil(length), anon, prot, flags, fd, offset, src, id, r)
      && Mapping(t0, t, b0, b, r, if anon then [] else src)
    requires Attached(r, frefs, open, frefs', open', id, fd, newfd)
    requires offset >= 0 && fd in open ==> open[fd] in c && src == ReadAt(c[open[fd]], offset, PageCeil(length))
    ensures r.base == base && r.End() == base + PageCeil(length) && base + PageCeil(length) <= W32
    ensures !(And(flags, MAP_ANON) == 0 && And(flags, MAP_SHARED) != 0 && And(prot, PROT_WRITE) != 0) ==>
        var target, bytes, end := Target(frefs', open'), Poke(b, base + at, data), base + PageCeil(length);
        && FlushAll(c, target, bytes, t, base, end) == c
        && forall c' {:trigger Partial(c, c', target, bytes, t, base, end)} |
            Partial(c, c', target, bytes, t, base, end) :: c' == c
    ensures And(flags, MAP_ANON) == 0 && And(flags, MAP_SHARED) != 0 && And(prot, PROT_WRITE) != 0 ==>
        && fd in open && open[fd] in c && offset >= 0
        && (base + PageCeil(length) < W32 ==>
            FlushAll(c, Target(frefs', open'), Poke(b, base + at, data), t, base, base + PageCeil(length))
              == c[open[fd] := WriteAt(c[open[fd]], offset + at, Shown(data, at, |src|))])
  {
    hide FlushAll; hide Partial; hide Shown; hide Poke; hide Mapping; hide WriteAt;
    var target := Target(frefs', open');
    if r.fref.Ref? {
      assert id in frefs' && frefs'[id].fd in open';
      assert id in target && target[id] == open[fd];
      if r.End() < W32 { StoredShared(c, target, b0, t0, t, r, b, open[fd], at, data); }
    } else {
      StoredPrivate(c, target, Poke(b, base + at, data), t, r);
    }
  }

  /* Unmapping or syncing a new shared mapping after a store is one write to its file. */
  lemma StoredShared(c: map<nat, seq<byte>>, target: map<nat, nat>, b0: map<nat, byte>, t0: seq<Region>,
      t: seq<Region>, r: Region, b: map<nat, byte>, f: nat, at: nat, data: seq<byte>)
    requires Sorted(t) && r in t && RegionOk(r, W32) && r.End() < W32 && Writable(r)
        && r.fref.id in target && target[r.fref.id] == f && f in c
    requires var shown := ReadAt(c[f], r.off, r.len); r.dataLen == |shown| && Mapping(t0, t, b0, b, r, shown)
    ensures FlushAll(c, target, Poke(b, r.base + at, data), t, r.base, r.End())
         == c[f := WriteAt(c[f], r.off + at, Shown(data, at, r.dataLen))]
  {
    hide FlushAll; hide Flush1; hide Shown; hide Poke; hide Placed;
    var i: nat :| i < |t| && t[i] == r;
    var bytes := Poke(b, r.base + at, data);
    FlushAlone(c, target, bytes, t, i);
    forall a: nat | r.base <= a < r.base + r.dataLen
      ensures Peek(bytes, a)
           == if at <= a - r.base < at + |data| then data[a - r.base - at] else c[f][r.off + (a - r.base)]
    {
      PokeAt(b, r.base + at, data, a);
      assert Peek(b, a) == ReadAt(c[f], r.off, r.len)[a - r.base];
    }
    SharedStore(c, target, bytes, r, r.base, r.End(), f, at, data);
  }

  lemma InsertedSeq(t: seq<Region>, u: seq<Region>, i: nat, r: Region)
    requires i <= |t| && |u| == |t| + 1 && u[i] == r
    requires forall j | 0 <= j < i :: u[j] == t[j]
    requires forall j | i < j < |u| :: u[j] == t[j - 1]
    ensures u == t[..i] + [r] + t[i..]
  {}

  lemma RemovedSeq(t: seq<Region>, u: seq<Region>, i: nat)
    requires i < |t| && |u| == |t| - 1
    requires forall j | 0 <= j < i :: u[j] == t[j]
    requires forall j | i <= j < |u| :: u[j] == t[j + 1]
    ensures u == t[..i] + t[i + 1..]
  {}

  predicate SyncArgs(start: nat, length: nat, flags: nat) {
    Paged(start) && !(And(flags, MS_ASYNC) != 0 && And(flags, MS_SYNC) != 0)
      && AndNot(flags, MS_ASYNC + MS_SYNC + MS_INVALIDATE) == 0
  }

  /* Two slots are enough for any range. */
  lemma TwoSlots(t: seq<Region>, start: nat, end: nat, limit: nat)
    requires TableOk(t, limit)
    ensures Cuts(t, start) + Cuts(t, end) <= 2
  {
    CutsAtMostOne(t, start);
    CutsAtMostOne(t, end);
  }

  /* The cursor of msync at entry i: everything before it is live. */
  ghost predicate Cursor(t: seq<Region>, begin: nat, i: nat, cursor: nat, start: nat) {
    && begin == FirstIndex(t, start) <= i <= |t| && IsFirst(t, start, begin) && start <= cursor
    && (if i == begin then cursor == start else cursor == t[i - 1].End() < W32)
    && forall a: nat | start <= a < cursor :: OwnerAt(t, a).Live()
  }

  lemma Uncovered(t: seq<Region>, i: nat, cursor: nat, begin: nat, start: nat)
    requires Sorted(t) && AllOk(t, W32) && Cursor(t, begin, i, cursor, start)
    requires i < |t| ==> t[i].kind == R_FREE || t[i].base > cursor
    ensures !OwnerAt(t, cursor).Live()
  {
    forall j | 0 <= j < i ensures !t[j].Holds(cursor) {
      if begin <= j < i - 1 { assert Ordered(t, j, i - 1); }
    }
    forall j | i < j < |t| ensures t[i].End() <= t[j].base { assert Ordered(t, i, j); }
    if begin < i < |t| { assert Ordered(t, i - 1, i); }
    if i < |t| && t[i].Holds(cursor) {
      OwnerIs(t, i, cursor);
    } else {
      if i < |t| { assert t[i] in t; }
      OwnerHeld(t, cursor);
    }
  }

  lemma CursorNext(t: seq<Region>, begin: nat, i: nat, cursor: nat, start: nat, end: nat)
    requires Sorted(t) && AllOk(t, W32) && Cursor(t, begin, i, cursor, start) && i < |t| && cursor < end
    requires t[i].Live() && t[i].base <= cursor
    ensures if t[i].End() < W32 then Cursor(t, begin, i + 1, t[i].Stop(), start)
            else !Seen(t, start, end) && i + 1 == |t| && t[i].Stop() == 0
  {
    OnlyLast(t, i);
    CoveredBy(t, i, cursor);
    assert t[i] in t;
    if begin < i { assert Ordered(t, i - 1, i); }
  }

  lemma CursorDone(t: seq<Region>, begin: nat, i: nat, cursor: nat, start: nat, end: nat)
    requires Sorted(t) && AllOk(t, W32) && Cursor(t, begin, i, cursor, start) && start < end <= cursor
    ensures Seen(t, start, end)
  {
    SearchFinds(t, start);
    OnlyLast(t, i - 1);
    if i < |t| { assert Ordered(t, i - 1, |t| - 1); }
    if i == |t| {
      forall r | r in t ensures r.End() < W32 {
        var j :| 0 <= j < |t| && t[j] == r;
        OnlyLast(t, j);
      }
    }
  }

  lemma CoveredBy(t: seq<Region>, i: nat, cursor: nat)
    requires Sorted(t) && i < |t| && t[i].Live() && t[i].base <= cursor
    ensures forall a: nat | cursor <= a < t[i].End() :: OwnerAt(t, a).Live()
  {
    forall a: nat | cursor <= a < t[i].End() ensures OwnerAt(t, a).Live() { OwnerIs(t, i, a); }
  }

  lemma NothingHappened(t: seq<Region>, bytes: map<nat, byte>)
    ensures SameLive(t, t) && SameContents(t, bytes, bytes)
  {}

  lemma InOrder(t: seq<Region>, limit: nat)
    requires TableOk(t, limit) && limit <= W32
    ensures Sorted(t) && AllOk(t, W32)
  {
    MoreRoom(t, limit, W32);
  }

  lemma InLimit(t: seq<Region>, i: nat, limit: nat)
    requires TableOk(t, limit) && i < |t|
    ensures t[i].End() <= limit && Paged(t[i].base)
  {
    assert t[i] in t;
  }

  lemma CanFillEntry(t: seq<Region>, i: nat, r: Region, limit: nat)
    requires TableOk(t, limit) && i < |t| && t[i].kind == R_FILE && r.kind == R_FILE && r.base == t[i].base
        && r.len == t[i].len
    requires r.dataLen <= r.len || r.dataLen == t[i].dataLen
    ensures CanFill(t, i, r, limit)
  {
    assert t[i] in t;
  }

  /* What Populate did leaves live pages alone. */
  lemma StillApart(t: seq<Region>, u: seq<Region>, b0: map<nat, byte>, b1: map<nat, byte>, b2: map<nat, byte>,
      r: Region, total: nat, data: seq<byte>)
    requires Acquired(t, u, b0, b1, r) && Populated(b2, b1, r.base, total, data) && total <= r.len
    ensures SameContents(t, b0, b2)
  {
    forall a: nat | OwnerAt(t, a).Live() ensures Peek(b2, a) == Peek(b0, a) {
      assert Peek(b1, a) == if r.Holds(a) then 0 else Peek(b0, a);
    }
  }

  lemma Mapped1(t: seq<Region>, u: seq<Region>, b0: map<nat, byte>, b1: map<nat, byte>, r: Region)
    requires Acquired(t, u, b0, b1, r)
    ensures Mapping(t, u, b0, b1, r, [])
  {}

  lemma Mapped2(t: seq<Region>, u: seq<Region>, b0: map<nat, byte>, b1: map<nat, byte>, b2: map<nat, byte>, r1: Region,
      r: Region, data: seq<byte>)
    requires Placed(t, u, r) && Populated(b2, b1, r.base, |data|, data) && r1.base == r.base && r1.len == r.len
        && |data| <= r.len
    requires forall a: nat {:trigger Peek(b1, a)} :: Peek(b1, a) == if r1.Holds(a) then 0 else Peek(b0, a)
    ensures Mapping(t, u, b0, b2, r, data)
  {
    forall a: nat ensures Peek(b2, a) == if r.Holds(a) then if a - r.base < |data| then data[a - r.base] else 0
      else Peek(b0, a) {
      assert Peek(b1, a) == if r1.Holds(a) then 0 else Peek(b0, a);
    }
  }

  /* Nothing but entry i lies in its range, and it has no file. */
  lemma OnlyEntry(t: seq<Region>, i: nat, c: map<nat, seq<byte>>, target: map<nat, nat>, bytes: map<nat, byte>)
    requires Sorted(t) && i < |t| && t[i].fref == Null
    ensures FlushAll(c, target, bytes, t, t[i].base, t[i].End()) == c
  {
    forall r | r in t ensures !Writable(r) || r.End() <= t[i].base || t[i].End() <= r.base {
      var j :| 0 <= j < |t| && t[j] == r;
      if j < i { assert Ordered(t, j, i); } else if i < j { assert Ordered(t, i, j); }
    }
    FlushNone(c, target, bytes, t, t[i].base, t[i].End());
  }

  /* Unmapping exactly entry i, without a reference, leaves all counts. */
  lemma NoRefs(t: seq<Region>, i: nat)
    requires Sorted(t) && i < |t| && t[i].len > 0 && t[i].fref == Null
    ensures forall id: nat {:trigger RefCount(UnmapAll(t, t[i].base, t[i].End()), id)} ::
              RefCount(UnmapAll(t, t[i].base, t[i].End()), id) == RefCount(t, id)
  {
    var r := t[i];
    forall x | x in t && Touched(x, r.base, r.End()) ensures x.fref == Null {
      var j: nat :| j < |t| && t[j] == x;
      assert i < j ==> Ordered(t, i, j);
      assert j < i ==> Ordered(t, j, i);
    }
    forall id: nat ensures RefCount(UnmapAll(t, r.base, r.End()), id) == RefCount(t, id) {
      UnmapNoRefs(t, r.base, r.End(), id);
    }
  }

  /* Live pages keep their owner. */
  ghost predicate KeepsLive(t: seq<Region>, u: seq<Region>) {
    forall a: nat {:trigger OwnerAt(u, a)} {:trigger OwnerAt(t, a)} | OwnerAt(t, a).Live() ::
      OwnerAt(u, a) == OwnerAt(t, a)
  }

  /* A mapping of len bytes takes new memory up to 2^32; sbrk takes no more than PTRDIFF_MAX bytes. */
  ghost predicate UpToTheEnd(t: seq<Region>, len: nat, limit: nat) {
    !SomeFit(t, len) && len <= PTRDIFF_MAX && limit + len == W32
  }

  /* What a failed mmap leaves: live pages keep their owner; no others come to life unless an entry goes up to
     2^32, or the new one would have. */
  ghost predicate Undone(t: seq<Region>, u: seq<Region>, len: nat, limit: nat) {
    KeepsLive(t, u) && (NoneAtEnd(t) && !UpToTheEnd(t, len, limit) ==> SameLive(t, u))
  }

  lemma NothingUndone(t: seq<Region>, len: nat, limit: nat)
    ensures Undone(t, t, len, limit)
  {}

  lemma NotUpToTheEnd(t: seq<Region>, len: nat, limit: nat)
    requires SomeFit(t, len) || len > PTRDIFF_MAX || limit + len > W32 || limit + len < W32
    ensures !UpToTheEnd(t, len, limit)
  {}

  lemma GivenUp(t: seq<Region>, t1: seq<Region>, u: seq<Region>, i: nat, len: nat, limit: nat)
    requires Sorted(t1) && AllOk(t1, W32) && AllOk(t, W32) && i < |t1| && Placed(t, t1, t1[i]) && t1[i].len == len
    requires FirstFit(t, t1[i].base, len, limit) && (SomeFit(t, len) || len <= PTRDIFF_MAX)
    requires if FirstIndex(t1, t1[i].base) == |t1| then Left(t, u, t1[i]) else SameLive(t, u)
    ensures Undone(t, u, len, limit)
    ensures UpToTheEnd(t, len, limit) ==> forall a: nat | limit <= a < W32 :: OwnerAt(u, a).Live()
  {
    var r := t1[i];
    assert KeepsLive(t, u) by {
      forall a: nat | OwnerAt(t, a).Live() ensures OwnerAt(u, a) == OwnerAt(t, a) { assert !r.Holds(a); }
    }
    if UpToTheEnd(t, len, limit) {
      assert r.base == limit;
      WholeEntry(t1, i);
    } else if NoneAtEnd(t) {
      assert r.End() < W32 by {
        assert r in t1;
        if SomeFit(t, len) {
          var j :| 0 <= j < |t| && t[j].base == r.base && t[j].kind == R_FREE && t[j].len >= len;
          assert t[j] in t;
        }
      }
      LastPage(t, W32);
      LastPage(t1, W32);
      assert OwnerAt(t1, W32 - 1) == OwnerAt(t, W32 - 1);
      SearchFinds(t1, r.base);
    }
  }

  /* The pages of r have become live, and nothing else has changed. */
  ghost predicate Left(t: seq<Region>, u: seq<Region>, r: Region) {
    forall a: nat {:trigger OwnerAt(u, a)} ::
      if r.Holds(a) then OwnerAt(u, a).Live() else OwnerAt(u, a) == OwnerAt(t, a)
  }

  lemma LeftAs(t: seq<Region>, r: Region, s: Region)
    requires s.base == r.base && s.len == r.len
    ensures forall u :: Left(t, u, s) ==> Left(t, u, r)
  {
    forall u | Left(t, u, s) ensures Left(t, u, r) {
      forall a: nat ensures if r.Holds(a) then OwnerAt(u, a).Live() else OwnerAt(u, a) == OwnerAt(t, a) {
        assert s.Holds(a) <==> r.Holds(a);
      }
    }
  }

  lemma SameSearch(t: seq<Region>, u: seq<Region>, idx: nat, addr: nat)
    requires idx < |t| && |u| == |t| && u == t[idx := u[idx]] && u[idx].End() == t[idx].End()
    ensures FirstIndex(u, addr) == FirstIndex(t, addr)
  {
    SameEnds(t, u, addr, 0, |t|);
  }

  /* The range of exactly entry i, whose end may have wrapped to zero. */
  lemma WholeEntry(t: seq<Region>, i: nat)
    requires Sorted(t) && AllOk(t, W32) && i < |t|
    ensures var r := t[i];
            && Paged(r.base) && Paged(r.Stop()) && r.base < W32 && (r.Stop() == 0 || r.base < r.Stop() < W32)
            && Cuts(t, r.base) == 0 && Cuts(t, Reach(t, r.Stop())) == 0
            && (Misses(t, r.base, r.Stop()) <==> FirstIndex(t, r.base) == |t|)
            && (!Misses(t, r.base, r.Stop()) ==> r.Stop() == r.End() == Reach(t, r.Stop()))
  {
    var r := t[i];
    assert r in t && RegionOk(r, W32);
    NoCuts(t, i);
    PagedSum(r.base, r.len);
    OnlyLast(t, i);
    if r.End() == W32 {
      LastMissed(t, r.base);
      CutsAtMostOne(t, 0);
    } else if i < |t| - 1 {
      assert Ordered(t, i, |t| - 1);
    }
  }

  lemma Abandoned(t0: seq<Region>, t: seq<Region>, u: seq<Region>, r: Region)
    requires Placed(t0, t, r)
    requires forall a: nat {:trigger OwnerAt(u, a)} :: OwnerAt(u, a) == Unmapped(OwnerAt(t, a), a, r.base, r.End())
    ensures SameLive(t0, u)
  {}

  lemma MoreRoom(t: seq<Region>, limit: nat, limit': nat)
    requires AllOk(t, limit) && limit <= limit'
    ensures AllOk(t, limit')
  {
    forall r | r in t ensures RegionOk(r, limit') { assert RegionOk(r, limit); }
  }

  lemma FreeIsOk(t: seq<Region>, i: nat, limit: nat)
    requires TableOk(t, limit) && i < |t|
    ensures RegionOk(t[i], limit) && (t[i].kind == R_FREE ==> t[i].dirty && t[i].fref == Null)
  {
    assert t[i] in t;
  }

  lemma TakeAll(t: seq<Region>, i: nat, r: Region, limit: nat)
    requires CanTake(t, i, r, limit)
    ensures var u := Splice(t, i, TakenFrom(t[i], r));
            && (forall a: nat {:trigger OwnerAt(u, a)} ::
                 OwnerAt(u, a) == if r.Holds(a) then OwnerIn(r, a) else OwnerAt(t, a))
            && (forall a: nat {:trigger OwnerAt(t, a)} | r.Holds(a) :: !OwnerAt(t, a).Live())
  {
    var u := Splice(t, i, TakenFrom(t[i], r));
    forall a: nat ensures OwnerAt(u, a) == if r.Holds(a) then OwnerIn(r, a) else OwnerAt(t, a) {
      TakeOwner(t, i, r, limit, a);
    }
    forall a: nat | r.Holds(a) ensures !OwnerAt(t, a).Live() { TakeOwner(t, i, r, limit, a); }
  }

  lemma EndsBelow(t: seq<Region>, limit: nat)
    requires AllOk(t, limit)
    ensures forall j | 0 <= j < |t| :: t[j].End() <= limit
  {
    forall j | 0 <= j < |t| ensures t[j].End() <= limit { assert t[j] in t; }
  }

  lemma FreshOk(r: Region, limit: nat)
    requires limit % PAGESIZE == 0 && Paged(r.len) && r.base > 0 && r.len > 0
        && r.base + r.len == limit && r.kind != R_FREE && r.fref == Null && r.dataLen == 0
    ensures RegionOk(r, limit)
  {}

  lemma GrownPages(t: seq<Region>, r: Region, limit: nat, bytes: map<nat, byte>)
    requires TableOk(t, r.base) && r.Live() && RegionOk(r, limit) && limit <= W32 && forall a | a in bytes :: a < r.base
    ensures TableOk(t + [r], limit) && Acquired(t, t + [r], bytes, bytes, r)
  {
    GrowTable(t, r, limit);
    hide TableOk; hide RegionOk;
  }

  lemma CountedReleases(frefs: map<nat, FileRef>, open: map<int, nat>, f: Fref, n: nat)
    ensures Released(frefs, open, Counted(frefs, f, n), Opened(frefs, open, f, n))
  {
    var frefs' := Counted(frefs, f, n);
    if f.Ref? && f.id in frefs && f.id !in frefs' {
      assert Gone(frefs, frefs') == {frefs[f.id].fd}; } else { assert Gone(frefs, frefs') == {};
    }
  }

  /* The descriptors of the references that are gone. */
  function Gone(frefs: map<nat, FileRef>, frefs': map<nat, FileRef>): set<int> {
    set id | id in frefs && id !in frefs' :: frefs[id].fd
  }

  /* References that are left keep their descriptors, and exactly the descriptors of the others are closed. */
  ghost predicate Released(frefs: map<nat, FileRef>, open: map<int, nat>, frefs': map<nat, FileRef>, open': map<int,
      nat>) {
    && (forall id | id in frefs' :: id in frefs && frefs'[id].fd == frefs[id].fd)
    && open' == open - Gone(frefs, frefs')
  }

  lemma HalfwayHere(t: seq<Region>, k: nat, start: nat, end: nat)
    requires k <= |t| && start < end
    ensures |Halfway(t, k, start, end)| == |UnmapAll(t[..k], start, end)| + |t| - k
    ensures k < |t| ==> Halfway(t, k, start, end)[|UnmapAll(t[..k], start, end)|] == t[k]
  {}

  lemma TargetHolds(frefs0: map<nat, FileRef>, open0: map<int, nat>, t: seq<Region>, frefs: map<nat, FileRef>,
      open: map<int, nat>, next: nat)
    requires Released(frefs0, open0, frefs, open) && FrefsIn(t, frefs, open, next)
    ensures forall id | id in frefs ::
        id in Target(frefs0, open0) && frefs[id].fd in open && open[frefs[id].fd] == Target(frefs0, open0)[id]
  {
    forall id | id in frefs ensures id in Target(frefs0, open0) && frefs[id].fd in open
      && open[frefs[id].fd] == Target(frefs0, open0)[id] {
      assert RefOk(t, frefs, open, next, id);
    }
  }

  lemma NothingReleased(frefs: map<nat, FileRef>, open: map<int, nat>)
    ensures Released(frefs, open, frefs, open)
  {
    assert Gone(frefs, frefs) == {};
  }

  lemma ReleasedTwice(frefs0: map<nat, FileRef>, open0: map<int, nat>, frefs1: map<nat, FileRef>, open1: map<int, nat>,
      frefs2: map<nat, FileRef>, open2: map<int, nat>)
    requires Released(frefs0, open0, frefs1, open1) && Released(frefs1, open1, frefs2, open2)
    ensures Released(frefs0, open0, frefs2, open2)
  {
    assert Gone(frefs0, frefs2) == Gone(frefs0, frefs1) + Gone(frefs1, frefs2);
  }

  lemma EntryFacts(t: seq<Region>, limit: nat, r: Region)
    requires AllOk(t, limit) && r in t
    ensures RegionOk(r, limit) && r.len > 0 && (r.kind != R_FILE ==> r.fref == Null)
  {}

  lemma UntouchedEntry(r: Region, start: nat, end: nat)
    requires start < end && r.kind == R_FREE
    ensures Unmap1(r, start, end) == [r]
  {}

  /* While no entry goes up to 2^32, a search that finds nothing leaves nothing to write back. */
  lemma NothingMissed(c: map<nat, seq<byte>>, target: map<nat, nat>, bytes: map<nat, byte>, t: seq<Region>,
      start: nat, end: nat)
    requires Sorted(t) && AllOk(t, W32) && NoneAtEnd(t) && start < end
    ensures Misses(t, start, end) ==> FlushAll(c, target, bytes, t, start, end) == c
  {
    SearchFinds(t, start);
    if Misses(t, start, end) { FlushNone(c, target, bytes, t, start, end); }
  }

  lemma FlushBefore(c: map<nat, seq<byte>>, target: map<nat, nat>, bytes: map<nat, byte>, t: seq<Region>, k: nat,
      start: nat, end: nat)
    requires k <= |t| && forall j | 0 <= j < k :: t[j].End() <= start
    ensures FlushAll(c, target, bytes, t[..k], start, end) == c
  {
    FlushNone(c, target, bytes, t[..k], start, end);
  }

  lemma FlushRest(c: map<nat, seq<byte>>, target: map<nat, nat>, bytes: map<nat, byte>, t: seq<Region>, k: nat,
      start: nat, end: nat)
    requires k <= |t| && Sorted(t) && (k < |t| ==> t[k].base >= end)
    ensures FlushAll(c, target, bytes, t, start, end) == FlushAll(c, target, bytes, t[..k], start, end)
  {
    assert t == t[..k] + t[k..];
    FlushSplit(c, target, bytes, t[..k], t[k..], start, end);
    forall r | r in t[k..] ensures end <= r.base {
      var j :| 0 <= j < |t[k..]| && t[k..][j] == r;
      if j > 0 { assert Ordered(t, k, k + j); }
    }
    FlushNone(FlushAll(c, target, bytes, t[..k], start, end), target, bytes, t[k..], start, end);
  }

  lemma LensPositive(t: seq<Region>, limit: nat)
    requires AllOk(t, limit)
    ensures forall r | r in t :: r.len > 0
  {}

  lemma MergingNext(t: seq<Region>, i: nat, start: int, end: int)
    requires i + 1 < |t| && Merging(t, i, start, end) && !Meet(t, i)
    ensures Merging(t, i + 1, start, end)
  {}

  lemma JoinedIs(t: seq<Region>, i: nat)
    requires i + 1 < |t|
    ensures var u := t[i := t[i].(len := t[i].len + t[i + 1].len, dirty := t[i].dirty || t[i + 1].dirty)];
            u[..i + 1] + u[i + 2..] == Joined(t, i)
  {}

  lemma StartMerging(t: seq<Region>, i: nat, start: nat, end: int)
    requires Sorted(t) && AbutWithin(t, start, end) && AllOk(t, W32) && IsFirst(t, start, i)
    ensures Merging(t, if i > 0 then i - 1 else 0, start, end)
  {
    forall j: nat | j + 1 < |t| && j < i - 1 ensures !Meet(t, j) {
      assert t[j + 1] in t && t[j + 1].End() <= start;
      assert Ordered(t, j, j + 1);
    }
  }

  /* Two tables say the same of every address and refer to the same files. */
  ghost predicate SameMeaning(t: seq<Region>, u: seq<Region>) {
    && (forall a: nat {:trigger OwnerAt(u, a)} :: OwnerAt(u, a) == OwnerAt(t, a))
    && (forall id: nat {:trigger RefCount(u, id)} :: RefCount(u, id) == RefCount(t, id))
    && forall r | r in u && r.fref.Ref? :: r in t
  }

  lemma SameItself(t: seq<Region>)
    ensures SameMeaning(t, t)
  {}

  lemma CoalescedAbut(t: seq<Region>, start: int, end: int)
    requires NoneAtEnd(t) ==> Coalesced(t)
    ensures NoneAtEnd(t) ==> AbutWithin(t, start, end)
  {}

  /* While no entry goes up to 2^32, the end of the range is the end of what unmapping reaches. */
  lemma AbutReach(t: seq<Region>, t0: seq<Region>, start: int, end: nat)
    requires NoneAtEnd(t) ==> NoneAtEnd(t0) && AbutWithin(t, start, Reach(t0, end))
    ensures NoneAtEnd(t) ==> AbutWithin(t, start, end)
  {
    assert t0 != [] ==> t0[|t0| - 1] in t0;
  }

  lemma SameLastPage(t: seq<Region>, u: seq<Region>, limit: nat)
    requires SameMeaning(t, u) && AllOk(t, limit) && AllOk(u, limit) && limit <= W32
    ensures NoneAtEnd(u) <==> NoneAtEnd(t)
  {
    LastPage(t, limit);
    LastPage(u, limit);
    assert OwnerAt(u, W32 - 1) == OwnerAt(t, W32 - 1);
  }

  lemma JoinStep(t0: seq<Region>, t: seq<Region>, i: nat, start: int, end: int, limit: nat, below: bool)
    requires Sorted(t) && AllOk(t, limit) && i + 1 < |t| && Meet(t, i) && (below ==> Merging(t, i, start, end))
        && SameMeaning(t0, t)
    ensures Sorted(Joined(t, i)) && AllOk(Joined(t, i), limit) && (below ==> Merging(Joined(t, i), i, start, end))
        && SameMeaning(t0, Joined(t, i))
  {
    JoinedSorted(t, i);
    JoinedOk(t, i, limit);
    if below { JoinedMerging(t, i, start, end); }
    assert t[i] in t && t[i + 1] in t;
    forall a: nat ensures OwnerAt(Joined(t, i), a) == OwnerAt(t0, a) {
      JoinedOwner(t, i, a); assert OwnerAt(t, a) == OwnerAt(t0, a);
    }
    forall id: nat ensures RefCount(Joined(t, i), id) == RefCount(t0, id) {
      JoinedRefs(t, i, id); assert RefCount(t, id) == RefCount(t0, id);
    }
  }
}
