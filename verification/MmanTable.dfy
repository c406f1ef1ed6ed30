/** The region table of the mmap emulation on values: what it says of each address, and what
    unmapping a range does to it. */
module MmanTable {
  import opened Words
  import opened Pages

  datatype Kind = R_FREE | R_ANON | R_FILE

  /** `struct file_ref *`, by identity. */
  datatype Fref = Null | Ref(id: nat)

  /** `struct region` */
  datatype Region = Region(base: nat, len: nat, kind: Kind, dirty: bool, prot: nat, flags: nat, fref: Fref, off: nat,
    dataLen: nat) {
    function End(): nat { base + len }

    /* The end as the code computes it: zero for an entry that goes up to 2^32. */
    function Stop(): nat { (base + len) % W32 }

    predicate Holds(a: nat) { base <= a < End() }

    predicate Live() { kind != R_FREE }
  }

  /** What an address belongs to.  For a file mapping: its place in the file, and whether the file
      backs it. */
  datatype Owner =
    | Nobody
    | Pool
    | Anonymous(prot: nat, flags: nat)
    | FileAt(prot: nat, flags: nat, fref: Fref, pos: nat, backed: bool)
  {
    predicate Live() { Anonymous? || FileAt? }
  }

  function OwnerIn(r: Region, a: nat): Owner
    requires r.Holds(a)
  {
    match r.kind
    case R_FREE => Pool
    case R_ANON => Anonymous(r.prot, r.flags)
    case R_FILE => FileAt(r.prot, r.flags, r.fref, r.off + (a - r.base), a - r.base < r.dataLen)
  }

  function OwnerAt(t: seq<Region>, a: nat): Owner {
    if t == [] then Nobody else if t[0].Holds(a) then OwnerIn(t[0], a) else OwnerAt(t[1..], a)
  }

  lemma {:induction false} OwnerConcat(s: seq<Region>, t: seq<Region>, a: nat)
    ensures OwnerAt(s + t, a) == if OwnerAt(s, a) != Nobody then OwnerAt(s, a) else OwnerAt(t, a)
  {
    if s == [] {
      assert s + t == t;
    } else {
      assert (s + t)[1..] == s[1..] + t;
      OwnerConcat(s[1..], t, a);
    }
  }

  lemma {:induction false} OwnerHeld(t: seq<Region>, a: nat)
    ensures OwnerAt(t, a) == Nobody <==> forall i | 0 <= i < |t| :: !t[i].Holds(a)
  {
    if t != [] {
      OwnerHeld(t[1..], a);
      assert forall i | 0 < i < |t| :: t[i] == t[1..][i - 1];
      assert forall i | 0 <= i < |t| - 1 :: t[1..][i] == t[i + 1];
    }
  }

  /* In a sorted table an address belongs to the entry that holds it. */
  lemma {:induction false} OwnerIs(t: seq<Region>, i: nat, a: nat)
    requires Sorted(t) && i < |t| && t[i].Holds(a)
    ensures OwnerAt(t, a) == OwnerIn(t[i], a)
  {
    if i > 0 {
      assert Ordered(t, 0, i);
      SortedTail(t);
      OwnerIs(t[1..], i - 1, a);
    }
  }

  /* ---- the invariant of the table ---- */

  predicate Ordered(t: seq<Region>, i: nat, j: nat)
    requires i < |t| && j < |t|
  {
    t[i].End() <= t[j].base
  }

  ghost predicate Sorted(t: seq<Region>) {
    forall i: nat, j: nat {:trigger Ordered(t, i, j)} | i < j < |t| :: Ordered(t, i, j)
  }

  lemma SortedTail(t: seq<Region>)
    requires Sorted(t) && t != []
    ensures Sorted(t[1..])
  {
    forall i: nat, j: nat | i < j < |t[1..]| ensures Ordered(t[1..], i, j) { assert Ordered(t, i + 1, j + 1); }
  }

  predicate RegionOk(r: Region, limit: nat) {
    && Paged(r.base) && Paged(r.len) && r.base > 0 && r.len > 0 && r.End() <= limit
    && (r.kind == R_FREE ==> r.dirty)
    && (r.kind != R_FILE ==> r.fref == Null)
    && (r.kind == R_FILE ==> r.dataLen <= r.len)
  }

  ghost predicate AllOk(t: seq<Region>, limit: nat) {
    forall r | r in t :: RegionOk(r, limit)
  }

  predicate Abut(r: Region, s: Region) { r.kind == R_FREE && s.kind == R_FREE && r.End() == s.base }

  predicate Meet(t: seq<Region>, i: nat)
    requires i + 1 < |t|
  {
    Abut(t[i], t[i + 1])
  }

  /* Free neighbours meet only at points from start to end. */
  ghost predicate AbutWithin(t: seq<Region>, start: int, end: int) {
    forall i: nat {:trigger Meet(t, i)} | i + 1 < |t| :: Meet(t, i) ==> start <= t[i].End() <= end
  }

  /* No two free regions abut. */
  ghost predicate Coalesced(t: seq<Region>) {
    forall i: nat {:trigger Meet(t, i)} | i + 1 < |t| :: !Meet(t, i)
  }

  /* No entry goes up to 2^32, where the code's own sums wrap to zero. */
  ghost predicate NoneAtEnd(t: seq<Region>) { forall r | r in t :: r.End() < W32 }

  /* Free regions that meet are only sure to be merged while no entry ends at 2^32. */
  ghost predicate TableOk(t: seq<Region>, limit: nat) {
    Sorted(t) && AllOk(t, limit) && (NoneAtEnd(t) ==> Coalesced(t))
  }

  lemma RoomLeft(t: seq<Region>, limit: nat)
    requires AllOk(t, limit) && limit < W32
    ensures NoneAtEnd(t)
  {
    forall r | r in t ensures r.End() < W32 { assert RegionOk(r, limit); }
  }

  /* Whether an entry goes up to 2^32 can be seen from the page map. */
  lemma LastPage(t: seq<Region>, limit: nat)
    requires AllOk(t, limit) && limit <= W32
    ensures NoneAtEnd(t) <==> OwnerAt(t, W32 - 1) == Nobody
  {
    OwnerHeld(t, W32 - 1);
    forall i | 0 <= i < |t| ensures t[i].Holds(W32 - 1) <==> t[i].End() >= W32 { assert RegionOk(t[i], limit); }
  }

  /* ---- references to files ---- */

  function RefCount(t: seq<Region>, id: nat): nat {
    if t == [] then 0 else (if t[0].fref == Ref(id) then 1 else 0) + RefCount(t[1..], id)
  }

  lemma {:induction false} RefCountConcat(s: seq<Region>, t: seq<Region>, id: nat)
    ensures RefCount(s + t, id) == RefCount(s, id) + RefCount(t, id)
  {
    if s == [] {
      assert s + t == t;
    } else {
      assert (s + t)[1..] == s[1..] + t;
      RefCountConcat(s[1..], t, id);
    }
  }

  lemma {:induction false} RefCountIn(t: seq<Region>, i: nat, id: nat)
    requires i < |t| && t[i].fref == Ref(id)
    ensures RefCount(t, id) > 0
  {
    if i > 0 { RefCountIn(t[1..], i - 1, id); }
  }

  /* ---- unmapping ---- */

  function Max(a: nat, b: nat): (r: nat)
    ensures r >= a && r >= b && (r == a || r == b)
  {
    if a < b then b else a
  }

  function Min(a: nat, b: nat): (r: nat)
    ensures r <= a && r <= b && (r == a || r == b)
  {
    if a < b then a else b
  }

  /* What unmapping [start, end) should make of an address. */
  function Unmapped(o: Owner, a: nat, start: nat, end: nat): Owner {
    if start <= a < end && o.Live() then Pool else o
  }

  predicate Touched(r: Region, start: nat, end: nat) { r.Live() && start < r.End() && r.base < end }

  function Freed(base: nat, len: nat): Region { Region(base, len, R_FREE, true, 0, 0, Null, 0, 0) }

  /* The tail of r from `at` on. */
  function TailOf(r: Region, at: nat): Region
    requires r.Holds(at)
  {
    var cut := at - r.base;
    var t := r.(base := at, len := r.End() - at);
    if r.kind == R_FILE then t.(off := r.off + cut, dataLen := if r.dataLen > cut then r.dataLen - cut else 0) else t
  }

  /* The head of r up to `at`. */
  function HeadOf(r: Region, at: nat): Region
    requires r.base < at <= r.End()
  {
    var h := r.(len := at - r.base);
    if r.kind == R_FILE && r.dataLen > h.len then h.(dataLen := h.len) else h
  }

  /* What becomes of one entry. */
  function Unmap1(r: Region, start: nat, end: nat): (fs: seq<Region>)
    requires start < end
    ensures fs != [] && fs[0].base == r.base && fs[|fs| - 1].End() == r.End()
  {
    if !Touched(r, start, end) then [r]
    else if r.base >= start && r.End() <= end then [r.(kind := R_FREE, dirty := true, fref := Null)]
    else if r.base >= start then [r.(len := end - r.base, kind := R_FREE, dirty := true, fref := Null), TailOf(r, end)]
    else if r.End() <= end then [HeadOf(r, start), Freed(start, r.End() - start)]
    else [HeadOf(r, start), Freed(start, end - start), TailOf(r, end)]
  }

  function UnmapAll(t: seq<Region>, start: nat, end: nat): (u: seq<Region>)
    requires start < end
    ensures |u| >= |t| && (t != [] ==> u[0].base == t[0].base)
  {
    if t == [] then [] else Unmap1(t[0], start, end) + UnmapAll(t[1..], start, end)
  }

  lemma Unmap1Owner(r: Region, start: nat, end: nat, a: nat)
    requires start < end && r.len > 0
    ensures OwnerAt(Unmap1(r, start, end), a) == Unmapped(OwnerAt([r], a), a, start, end)
  {
    var fs := Unmap1(r, start, end);
    assert OwnerAt([r], a) == if r.Holds(a) then OwnerIn(r, a) else Nobody;
    if |fs| == 1 {
      assert fs[1..] == [];
    } else if |fs| == 2 {
      assert fs[1..] == [fs[1]] && fs[1..][1..] == [];
    } else if |fs| == 3 {
      assert fs[1..] == [fs[1], fs[2]] && fs[1..][1..] == [fs[2]];
      assert [fs[1], fs[2]][1..] == [fs[2]] && [fs[2]][1..] == [];
      assert OwnerAt([fs[2]], a) == if fs[2].Holds(a) then OwnerIn(fs[2], a) else Nobody;
      assert OwnerAt([fs[1], fs[2]], a) == if fs[1].Holds(a) then OwnerIn(fs[1], a) else OwnerAt([fs[2]], a);
    }
  }

  /* munmap refines the page map: live pages of the range go to the pool, all else stays. */
  lemma {:induction false} UnmapAllOwner(t: seq<Region>, start: nat, end: nat, a: nat)
    requires start < end && forall r | r in t :: r.len > 0
    ensures OwnerAt(UnmapAll(t, start, end), a) == Unmapped(OwnerAt(t, a), a, start, end)
  {
    if t != [] {
      UnmapAllOwner(t[1..], start, end, a);
      Unmap1Owner(t[0], start, end, a);
      OwnerConcat(Unmap1(t[0], start, end), UnmapAll(t[1..], start, end), a);
      OwnerConcat([t[0]], t[1..], a);
      assert [t[0]] + t[1..] == t;
    }
  }

  lemma {:induction false} UnmapAllConcat(s: seq<Region>, t: seq<Region>, start: nat, end: nat)
    requires start < end
    ensures UnmapAll(s + t, start, end) == UnmapAll(s, start, end) + UnmapAll(t, start, end)
  {
    if s == [] {
      assert s + t == t;
    } else {
      assert (s + t)[1..] == s[1..] + t;
      UnmapAllConcat(s[1..], t, start, end);
    }
  }

  lemma {:induction false} UnmapNone(t: seq<Region>, start: nat, end: nat)
    requires start < end && forall r | r in t :: !Touched(r, start, end)
    ensures UnmapAll(t, start, end) == t
  {
    if t != [] { UnmapNone(t[1..], start, end); }
  }

  /* Entries cut at their start or their end. */
  predicate CutAt(r: Region, x: nat) { r.Live() && r.base < x < r.End() }

  function Cuts(t: seq<Region>, x: nat): nat {
    if t == [] then 0 else (if CutAt(t[0], x) then 1 else 0) + Cuts(t[1..], x)
  }

  /* Unmapping needs one more entry for each entry cut. */
  lemma {:induction false} UnmapAllSize(t: seq<Region>, start: nat, end: nat)
    requires start < end
    ensures |UnmapAll(t, start, end)| == |t| + Cuts(t, start) + Cuts(t, end)
  {
    if t != [] { UnmapAllSize(t[1..], start, end); }
  }

  /* In a sorted table at most one entry can be cut at a point. */
  lemma {:induction false} CutsAtMostOne(t: seq<Region>, x: nat)
    requires Sorted(t)
    ensures Cuts(t, x) <= 1
    ensures Cuts(t, x) == 0 <==> forall i | 0 <= i < |t| :: !CutAt(t[i], x)
  {
    if t != [] {
      SortedTail(t);
      CutsAtMostOne(t[1..], x);
      if CutAt(t[0], x) {
        forall i | 0 <= i < |t[1..]| ensures !CutAt(t[1..][i], x) { assert Ordered(t, 0, i + 1); }
      }
      assert forall i | 0 < i < |t| :: t[i] == t[1..][i - 1];
      assert forall i | 0 <= i < |t| - 1 :: t[1..][i] == t[i + 1];
    }
  }

  /* ---- the table stays in order ---- */

  ghost predicate Below(t: seq<Region>, x: nat) { forall r | r in t :: r.End() <= x }

  ghost predicate Above(t: seq<Region>, x: nat) { forall r | r in t :: x <= r.base }

  lemma SortedConcat(s: seq<Region>, t: seq<Region>, x: nat)
    requires Sorted(s) && Sorted(t) && Below(s, x) && Above(t, x)
    ensures Sorted(s + t)
  {
    var u := s + t;
    forall i: nat, j: nat | i < j < |u| ensures Ordered(u, i, j) {
      if j < |s| {
        assert Ordered(s, i, j);
      } else if i >= |s| {
        assert Ordered(t, i - |s|, j - |s|);
      } else {
        assert s[i] in s && t[j - |s|] in t;
      }
    }
  }

  lemma SortedSplit(t: seq<Region>, i: nat)
    requires Sorted(t) && i <= |t|
    ensures Sorted(t[..i]) && Sorted(t[i..])
    ensures i < |t| ==> Below(t[..i], t[i].base)
    ensures i > 0 ==> Above(t[i..], t[i - 1].End())
  {
    forall j: nat, k: nat | j < k < i ensures Ordered(t[..i], j, k) { assert Ordered(t, j, k); }
    forall j: nat, k: nat | j < k < |t| - i ensures Ordered(t[i..], j, k) { assert Ordered(t, j + i, k + i); }
    if i < |t| {
      forall r | r in t[..i] ensures r.End() <= t[i].base {
        var j: nat :| j < i && t[j] == r;
        assert Ordered(t, j, i);
      }
    }
    if i > 0 {
      forall r | r in t[i..] ensures t[i - 1].End() <= r.base {
        var j: nat :| j < |t| - i && t[i..][j] == r;
        assert Ordered(t, i - 1, i + j);
      }
    }
  }

  lemma Unmap1Ok(r: Region, start: nat, end: nat, limit: nat)
    requires RegionOk(r, limit) && start < end && Paged(start) && Paged(end)
    ensures AllOk(Unmap1(r, start, end), limit)
  {
    PagedSum(r.base, r.len);
    PagedSum(end, start);
    PagedSum(r.End(), start);
    PagedSum(r.End(), end);
    if end >= r.base { PagedSum(end, r.base); }
    if start >= r.base { PagedSum(start, r.base); }
    hide Paged;
  }

  lemma Unmap1Sorted(r: Region, start: nat, end: nat)
    requires start < end
    ensures Sorted(Unmap1(r, start, end)) && Below(Unmap1(r, start, end), r.End())
        && Above(Unmap1(r, start, end), r.base)
  {
    var fs := Unmap1(r, start, end);
    forall i: nat, j: nat | i < j < |fs| ensures Ordered(fs, i, j) {}
  }

  lemma {:induction false} UnmapAllOk(t: seq<Region>, start: nat, end: nat, limit: nat)
    requires AllOk(t, limit) && start < end && Paged(start) && Paged(end)
    ensures AllOk(UnmapAll(t, start, end), limit)
  {
    if t != [] {
      Unmap1Ok(t[0], start, end, limit);
      UnmapAllOk(t[1..], start, end, limit);
      hide RegionOk;
    }
  }

  lemma {:induction false} UnmapAllSorted(t: seq<Region>, start: nat, end: nat, x: nat)
    requires Sorted(t) && start < end && Above(t, x)
    ensures Sorted(UnmapAll(t, start, end)) && Above(UnmapAll(t, start, end), x)
  {
    if t != [] {
      SortedSplit(t, 1);
      Unmap1Sorted(t[0], start, end);
      UnmapAllSorted(t[1..], start, end, t[0].End());
      SortedConcat(Unmap1(t[0], start, end), UnmapAll(t[1..], start, end), t[0].End());
      hide Unmap1;
      assert t[0] in t;
    }
  }

  lemma AbutConcat(s: seq<Region>, t: seq<Region>, start: int, end: int)
    requires AbutWithin(s, start, end) && AbutWithin(t, start, end)
    requires s != [] && t != [] && Abut(s[|s| - 1], t[0]) ==> start <= t[0].base <= end
    ensures AbutWithin(s + t, start, end)
  {
    var u := s + t;
    forall i: nat | i + 1 < |u| && Meet(u, i) ensures start <= u[i].End() <= end {
      if i + 1 < |s| {
        assert Meet(s, i);
      } else if i >= |s| {
        assert Meet(t, i - |s|);
      }
    }
  }

  /* Only between start and end can free regions meet now. */
  lemma {:induction false} UnmapAllAbut(t: seq<Region>, start: nat, end: nat)
    requires Coalesced(t) && start < end
    ensures AbutWithin(UnmapAll(t, start, end), start, end)
  {
    if t != [] {
      assert Coalesced(t[1..]) by {
        forall i: nat | i + 1 < |t[1..]| ensures !Meet(t[1..], i) { assert !Meet(t, i + 1); }
      }
      UnmapAllAbut(t[1..], start, end);
      var f, u := Unmap1(t[0], start, end), UnmapAll(t[1..], start, end);
      assert AbutWithin(f, start, end) by {
        forall i: nat | i + 1 < |f| ensures !Meet(f, i) {}
      }
      if |t| > 1 {
        assert !Meet(t, 0);
        assert u[0] == Unmap1(t[1], start, end)[0];
      }
      AbutConcat(f, u, start, end);
    }
  }

  /* ---- changes at one index ---- */

  function Splice(t: seq<Region>, i: nat, fs: seq<Region>): seq<Region>
    requires i < |t|
  {
    t[..i] + fs + t[i + 1..]
  }

  /* fs takes the place of entry i, within its pages. */
  lemma SpliceOwner(t: seq<Region>, i: nat, fs: seq<Region>, a: nat)
    requires Sorted(t) && i < |t| && Below(fs, t[i].End()) && Above(fs, t[i].base)
    ensures OwnerAt(Splice(t, i, fs), a) == if t[i].Holds(a) then OwnerAt(fs, a) else OwnerAt(t, a)
  {
    OwnerConcat(t[..i] + fs, t[i + 1..], a);
    OwnerConcat(t[..i], fs, a);
    assert t == t[..i] + t[i..] && t[i..] == [t[i]] + t[i + 1..];
    OwnerConcat(t[..i], t[i..], a);
    OwnerConcat([t[i]], t[i + 1..], a);
    OwnerHeld([t[i]], a);
    OwnerHeld(fs, a);
    OwnerHeld(t[..i], a);
    OwnerHeld(t[i + 1..], a);
    forall j | 0 <= j < i ensures t[i].Holds(a) ==> !t[..i][j].Holds(a) { assert Ordered(t, j, i); }
    var q := t[i + 1..];
    forall j | 0 <= j < |q| ensures t[i].Holds(a) ==> !q[j].Holds(a) { assert Ordered(t, i, i + 1 + j); }
  }

  lemma SpliceSorted(t: seq<Region>, i: nat, fs: seq<Region>)
    requires Sorted(t) && i < |t| && Sorted(fs) && Below(fs, t[i].End()) && Above(fs, t[i].base) && forall r | r in t ::
        r.len > 0
    ensures Sorted(Splice(t, i, fs))
  {
    SortedSplit(t, i);
    SortedSplit(t, i + 1);
    SortedConcat(t[..i], fs, t[i].base);
    assert Below(t[..i] + fs, t[i].End()) by {
      forall r | r in t[..i] + fs ensures r.End() <= t[i].End() { if r in t[..i] {} }
    }
    SortedConcat(t[..i] + fs, t[i + 1..], t[i].End());
  }

  lemma SpliceRefs(t: seq<Region>, i: nat, fs: seq<Region>, id: nat)
    requires i < |t|
    ensures RefCount(Splice(t, i, fs), id) + RefCount([t[i]], id) == RefCount(t, id) + RefCount(fs, id)
  {
    RefCountConcat(t[..i] + fs, t[i + 1..], id);
    RefCountConcat(t[..i], fs, id);
    assert t == t[..i] + t[i..] && t[i..] == [t[i]] + t[i + 1..];
    RefCountConcat(t[..i], t[i..], id);
    RefCountConcat([t[i]], t[i + 1..], id);
  }

  lemma SpliceOk(t: seq<Region>, i: nat, fs: seq<Region>, limit: nat)
    requires AllOk(t, limit) && i < |t| && AllOk(fs, limit)
    ensures AllOk(Splice(t, i, fs), limit)
  {
    hide RegionOk;
  }

  /* ---- merging free neighbours ---- */

  /* Entry i takes in entry i + 1. */
  function Joined(t: seq<Region>, i: nat): seq<Region>
    requires i + 1 < |t|
  {
    t[..i] + [t[i].(len := t[i].len + t[i + 1].len, dirty := t[i].dirty || t[i + 1].dirty)] + t[i + 2..]
  }

  lemma JoinedOwner(t: seq<Region>, i: nat, a: nat)
    requires i + 1 < |t| && Meet(t, i)
    ensures OwnerAt(Joined(t, i), a) == OwnerAt(t, a)
  {
    var m := t[i].(len := t[i].len + t[i + 1].len, dirty := t[i].dirty || t[i + 1].dirty);
    OwnerConcat(t[..i] + [m], t[i + 2..], a);
    OwnerConcat(t[..i], [m], a);
    assert t == t[..i] + t[i..] && t[i..] == [t[i], t[i + 1]] + t[i + 2..];
    OwnerConcat(t[..i], t[i..], a);
    OwnerConcat([t[i], t[i + 1]], t[i + 2..], a);
    assert [t[i], t[i + 1]][1..] == [t[i + 1]] && [t[i + 1]][1..] == [] && [m][1..] == [];
    assert OwnerAt([t[i + 1]], a) == if t[i + 1].Holds(a) then Pool else Nobody;
    assert OwnerAt([t[i], t[i + 1]], a) == if t[i].Holds(a) then Pool else OwnerAt([t[i + 1]], a);
    assert OwnerAt([m], a) == if m.Holds(a) then Pool else Nobody;
  }

  lemma JoinedSorted(t: seq<Region>, i: nat)
    requires Sorted(t) && i + 1 < |t| && Meet(t, i)
    ensures Sorted(Joined(t, i))
  {
    var u := Joined(t, i);
    forall j: nat, k: nat | j < k < |u| ensures Ordered(u, j, k) {
      var j', k' := if j <= i then j else j + 1, if k <= i then k else k + 1;
      assert Ordered(t, j', k');
      if j == i { assert Ordered(t, i + 1, k'); }
    }
  }

  lemma JoinedOk(t: seq<Region>, i: nat, limit: nat)
    requires AllOk(t, limit) && i + 1 < |t| && Meet(t, i)
    ensures AllOk(Joined(t, i), limit)
  {
    assert t[i] in t && t[i + 1] in t;
    PagedSum(t[i].len, t[i + 1].len);
    hide Paged;
    forall r | r in Joined(t, i) ensures RegionOk(r, limit) {
      if r in t[..i] || r in t[i + 2..] { assert r in t; }
    }
  }

  lemma JoinedRefs(t: seq<Region>, i: nat, id: nat)
    requires i + 1 < |t| && t[i].fref == Null && t[i + 1].fref == Null
    ensures RefCount(Joined(t, i), id) == RefCount(t, id)
  {
    var m := t[i].(len := t[i].len + t[i + 1].len, dirty := t[i].dirty || t[i + 1].dirty);
    RefCountConcat(t[..i] + [m], t[i + 2..], id);
    RefCountConcat(t[..i], [m], id);
    assert t == t[..i] + t[i..] && t[i..] == [t[i], t[i + 1]] + t[i + 2..];
    RefCountConcat(t[..i], t[i..], id);
    RefCountConcat([t[i], t[i + 1]], t[i + 2..], id);
    assert [t[i], t[i + 1]][1..] == [t[i + 1]];
  }

  /* Before i nothing meets; from i on only points from start to end do. */
  ghost predicate Merging(t: seq<Region>, i: nat, start: int, end: int) {
    && AbutWithin(t, start, end)
    && forall j: nat {:trigger Meet(t, j)} | j + 1 < |t| && j < i :: !Meet(t, j)
  }

  lemma JoinedMerging(t: seq<Region>, i: nat, start: int, end: int)
    requires i + 1 < |t| && Meet(t, i) && Merging(t, i, start, end)
    ensures Merging(Joined(t, i), i, start, end)
  {
    var u := Joined(t, i);
    forall j: nat | j + 1 < |u| && Meet(u, j) ensures start <= u[j].End() <= end && j >= i {
      assert Meet(t, if j < i then j else j + 1);
    }
  }

  /* Past end there is nothing left to merge. */
  lemma MergingDone(t: seq<Region>, i: nat, start: int, end: int)
    requires Sorted(t) && Merging(t, i, start, end) && (i + 1 < |t| ==> t[i].base > end)
    ensures Coalesced(t)
  {
    forall j: nat | j + 1 < |t| ensures !Meet(t, j) {
      if j >= i {
        if i < j { assert Ordered(t, i, j); }
      }
    }
  }

  /* ---- the progress of unmapping through the table ---- */

  /* Entries before k are done, the others as they were. */
  function Halfway(t: seq<Region>, k: nat, start: nat, end: nat): seq<Region>
    requires k <= |t| && start < end
  {
    UnmapAll(t[..k], start, end) + t[k..]
  }

  lemma HalfwayNext(t: seq<Region>, k: nat, start: nat, end: nat)
    requires k < |t| && start < end
    ensures var i := |UnmapAll(t[..k], start, end)|;
            && Halfway(t, k, start, end)[i] == t[k]
            && Halfway(t, k + 1, start, end) == Splice(Halfway(t, k, start, end), i, Unmap1(t[k], start, end))
            && |UnmapAll(t[..k + 1], start, end)| == i + |Unmap1(t[k], start, end)|
            && |Halfway(t, k + 1, start, end)| <= |UnmapAll(t, start, end)|
  {
    hide Unmap1;
    assert t[..k + 1] == t[..k] + [t[k]];
    UnmapAllConcat(t[..k], [t[k]], start, end);
    assert UnmapAll([t[k]], start, end) == Unmap1(t[k], start, end) + UnmapAll([], start, end);
    assert t == t[..k + 1] + t[k + 1..];
    UnmapAllConcat(t[..k + 1], t[k + 1..], start, end);
  }

  /* Beyond the range nothing is left to do. */
  lemma HalfwayDone(t: seq<Region>, k: nat, start: nat, end: nat)
    requires k <= |t| && start < end && Sorted(t) && (k < |t| ==> t[k].base >= end)
    ensures Halfway(t, k, start, end) == UnmapAll(t, start, end)
  {
    assert t == t[..k] + t[k..];
    UnmapAllConcat(t[..k], t[k..], start, end);
    forall r | r in t[k..] ensures !Touched(r, start, end) {
      var j :| 0 <= j < |t[k..]| && t[k..][j] == r;
      if j > 0 { assert Ordered(t, k, k + j); }
    }
    UnmapNone(t[k..], start, end);
  }

  lemma HalfwayStart(t: seq<Region>, k: nat, start: nat, end: nat)
    requires k <= |t| && start < end && forall j | 0 <= j < k :: t[j].End() <= start
    ensures UnmapAll(t[..k], start, end) == t[..k] && Halfway(t, k, start, end) == t
  {
    UnmapNone(t[..k], start, end);
  }

  lemma UnmapAllResult(t: seq<Region>, start: nat, end: nat, limit: nat)
    requires TableOk(t, limit) && start < end && Paged(start) && Paged(end) && limit <= W32
    ensures var u := UnmapAll(t, start, end);
            Sorted(u) && AllOk(u, limit) && (NoneAtEnd(u) <==> NoneAtEnd(t))
            && (NoneAtEnd(t) ==> AbutWithin(u, start, end))
    ensures forall a: nat {:trigger OwnerAt(UnmapAll(t, start, end), a)} ::
        OwnerAt(UnmapAll(t, start, end), a) == Unmapped(OwnerAt(t, a), a, start, end)
  {
    UnmapAllOk(t, start, end, limit);
    UnmapAllSorted(t, start, end, 0);
    if NoneAtEnd(t) { UnmapAllAbut(t, start, end); }
    forall a: nat ensures OwnerAt(UnmapAll(t, start, end), a) == Unmapped(OwnerAt(t, a), a, start, end) {
      UnmapAllOwner(t, start, end, a);
    }
    LastPage(t, limit);
    LastPage(UnmapAll(t, start, end), limit);
  }

  /* ---- taking pages from the pool ---- */

  /* The entries that replace a free entry whose first pages go to r. */
  function TakenFrom(free: Region, r: Region): seq<Region>
    requires r.len <= free.len
  {
    if r.len == free.len then [r] else [r, free.(base := free.base + r.len, len := free.len - r.len)]
  }

  ghost predicate CanTake(t: seq<Region>, i: nat, r: Region, limit: nat) {
    && TableOk(t, limit) && limit <= W32 && i < |t| && t[i].kind == R_FREE && r.Live() && r.base == t[i].base
    && 0 < r.len <= t[i].len && Paged(r.len) && r.fref == Null && r.dataLen <= r.len
  }

  lemma TakeOk(t: seq<Region>, i: nat, r: Region, limit: nat)
    requires CanTake(t, i, r, limit)
    ensures TableOk(Splice(t, i, TakenFrom(t[i], r)), limit)
  {
    var fs, u := TakenFrom(t[i], r), Splice(t, i, TakenFrom(t[i], r));
    assert t[i] in t && RegionOk(t[i], limit);
    PagedSum(t[i].base, r.len);
    PagedSum(t[i].len, r.len);
    assert AllOk(fs, limit) by { hide Paged; }
    SpliceOk(t, i, fs, limit);
    assert Sorted(fs) by { forall j: nat, k: nat | j < k < |fs| ensures Ordered(fs, j, k) {} }
    SpliceSorted(t, i, fs);
    if NoneAtEnd(t) { TakeCoalesced(t, i, r, limit); }
    TakeOwner(t, i, r, limit, W32 - 1);
    LastPage(t, limit);
    LastPage(u, limit);
  }

  lemma TakeCoalesced(t: seq<Region>, i: nat, r: Region, limit: nat)
    requires CanTake(t, i, r, limit) && Coalesced(t)
    ensures Coalesced(Splice(t, i, TakenFrom(t[i], r)))
  {
    var fs, u := TakenFrom(t[i], r), Splice(t, i, TakenFrom(t[i], r));
    hide RegionOk; hide Sorted; hide AllOk;
    forall j: nat | j + 1 < |u| ensures !Meet(u, j) {
      if j + 1 < i {
        assert !Meet(t, j);
      } else if j >= i + |fs| {
        assert !Meet(t, j + 1 - |fs|);
      } else if j + 1 == i + |fs| {
        assert u[j].End() == t[i].End();
        assert !Meet(t, i);
      }
    }
  }

  lemma TakeOwner(t: seq<Region>, i: nat, r: Region, limit: nat, a: nat)
    requires CanTake(t, i, r, limit)
    ensures OwnerAt(Splice(t, i, TakenFrom(t[i], r)), a) == if r.Holds(a) then OwnerIn(r, a) else OwnerAt(t, a)
    ensures r.Holds(a) ==> OwnerAt(t, a) == Pool
  {
    var fs := TakenFrom(t[i], r);
    SpliceOwner(t, i, fs, a);
    if t[i].Holds(a) { OwnerIs(t, i, a); }
    if |fs| == 2 {
      assert fs[1..] == [fs[1]] && [fs[1]][1..] == [];
      assert OwnerAt([fs[1]], a) == if fs[1].Holds(a) then Pool else Nobody;
    } else {
      assert fs[1..] == [];
    }
  }

  /* Pages beyond everything known. */
  lemma GrowTable(t: seq<Region>, r: Region, limit: nat)
    requires TableOk(t, r.base) && r.Live() && RegionOk(r, limit) && limit <= W32
    ensures TableOk(t + [r], limit)
    ensures forall a: nat {:trigger OwnerAt(t + [r], a)} ::
        OwnerAt(t + [r], a) == if r.Holds(a) then OwnerIn(r, a) else OwnerAt(t, a)
    ensures forall a: nat | r.base <= a :: OwnerAt(t, a) == Nobody
  {
    RoomLeft(t, r.base);
    SortedConcat(t, [r], r.base);
    forall x | x in t + [r] ensures RegionOk(x, limit) {
      if x in t { assert RegionOk(x, r.base); }
    }
    forall j: nat | j + 1 < |t + [r]| ensures !Meet(t + [r], j) {
      if j + 1 < |t| { assert !Meet(t, j); }
    }
    forall a: nat | r.base <= a ensures OwnerAt(t, a) == Nobody {
      OwnerHeld(t, a);
      forall j | 0 <= j < |t| ensures !t[j].Holds(a) { assert t[j] in t; }
    }
    forall a: nat ensures OwnerAt(t + [r], a) == if r.Holds(a) then OwnerIn(r, a) else OwnerAt(t, a) {
      OwnerConcat(t, [r], a);
      OwnerHeld([r], a);
      assert [r][1..] == [];
    }
  }

  /* ---- filling in an entry ---- */

  ghost predicate CanFill(t: seq<Region>, i: nat, r: Region, limit: nat) {
    && TableOk(t, limit) && i < |t| && t[i].kind == R_FILE && r.kind == R_FILE
    && r.base == t[i].base && r.len == t[i].len && r.dataLen <= r.len
  }

  lemma FillOk(t: seq<Region>, i: nat, r: Region, limit: nat)
    requires CanFill(t, i, r, limit)
    ensures TableOk(t[i := r], limit) && t[i := r] == Splice(t, i, [r])
    ensures forall a: nat {:trigger OwnerAt(t[i := r], a)} ::
        OwnerAt(t[i := r], a) == if r.Holds(a) then OwnerIn(r, a) else OwnerAt(t, a)
  {
    var u := t[i := r];
    assert t[i] in t && RegionOk(t[i], limit);
    forall j: nat, k: nat | j < k < |u| ensures Ordered(u, j, k) { assert Ordered(t, j, k); }
    if NoneAtEnd(u) {
      forall x | x in t ensures x.End() < W32 {
        var j :| 0 <= j < |t| && t[j] == x;
        assert u[j] in u;
      }
      forall j: nat | j + 1 < |u| ensures !Meet(u, j) { assert !Meet(t, j); }
    }
    forall x | x in u ensures RegionOk(x, limit) { if x != r { assert x in t; } }
    assert u == Splice(t, i, [r]);
    forall a: nat ensures OwnerAt(u, a) == if r.Holds(a) then OwnerIn(r, a) else OwnerAt(t, a) {
      SpliceOwner(t, i, [r], a);
      assert [r][1..] == [];
    }
  }

  /* A range that is exactly one entry cuts none. */
  lemma NoCuts(t: seq<Region>, i: nat)
    requires Sorted(t) && i < |t| && t[i].len > 0
    ensures Cuts(t, t[i].base) == 0 && Cuts(t, t[i].End()) == 0
  {
    CutsAtMostOne(t, t[i].base);
    CutsAtMostOne(t, t[i].End());
    forall j | 0 <= j < |t| ensures !CutAt(t[j], t[i].base) && !CutAt(t[j], t[i].End()) {
      if j < i { assert Ordered(t, j, i); } else if i < j { assert Ordered(t, i, j); }
    }
  }

  /* Live pages keep their owner, and no others come to life. */
  ghost predicate SameLive(t: seq<Region>, u: seq<Region>) {
    forall a: nat {:trigger OwnerAt(u, a)} {:trigger OwnerAt(t, a)} ::
      if OwnerAt(t, a).Live() then OwnerAt(u, a) == OwnerAt(t, a) else !OwnerAt(u, a).Live()
  }
}
