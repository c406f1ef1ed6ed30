/** Reference counts of duplicated descriptors. */
module MmanRefs {
  import opened MmanTable

  /** `struct file_ref` */
  datatype FileRef = FileRef(fd: int, refs: nat)

  /* Every count is the number of entries that refer to it, never zero; each has its own open descriptor. */
  ghost predicate FrefsIn(t: seq<Region>, frefs: map<nat, FileRef>, open: map<int, nat>, next: nat) {
    && (forall id | id in frefs :: RefOk(t, frefs, open, next, id))
    && (forall r | r in t && r.fref.Ref? :: r.fref.id in frefs)
    && OwnDescriptors(frefs)
  }

  ghost predicate RefOk(t: seq<Region>, frefs: map<nat, FileRef>, open: map<int, nat>, next: nat, id: nat)
    requires id in frefs
  {
    frefs[id].refs == RefCount(t, id) > 0 && frefs[id].fd in open && id < next
  }

  ghost predicate OwnDescriptors(frefs: map<nat, FileRef>) {
    forall i, j | i in frefs && j in frefs && frefs[i].fd == frefs[j].fd :: i == j
  }

  /* Reference `id` now has n entries instead of one. */
  function Recount(frefs: map<nat, FileRef>, id: nat, n: nat): map<nat, FileRef>
    requires id in frefs && frefs[id].refs > 0
  {
    var refs := frefs[id].refs - 1 + n;
    if refs == 0 then frefs - {id} else frefs[id := FileRef(frefs[id].fd, refs)]
  }

  /* The descriptor is closed with the last reference. */
  function Reopened(frefs: map<nat, FileRef>, open: map<int, nat>, id: nat, n: nat): map<int, nat>
    requires id in frefs && frefs[id].refs > 0
  {
    if frefs[id].refs - 1 + n == 0 then open - {frefs[id].fd} else open
  }

  lemma EntryRef(t: seq<Region>, frefs: map<nat, FileRef>, open: map<int, nat>, next: nat, i: nat)
    requires FrefsIn(t, frefs, open, next) && i < |t| && t[i].fref.Ref?
    ensures t[i].fref.id in frefs && frefs[t[i].fref.id].refs > 0 && frefs[t[i].fref.id].fd in open
  {
    assert t[i] in t;
    assert RefOk(t, frefs, open, next, t[i].fref.id);
  }

  /* Entries fs take the place of entry i, and the counts follow. */
  lemma SpliceFrefs(t: seq<Region>, i: nat, fs: seq<Region>, frefs: map<nat, FileRef>, open: map<int, nat>, next: nat)
    requires FrefsIn(t, frefs, open, next) && i < |t| && t[i].fref.Ref?
    requires forall r | r in fs && r.fref.Ref? :: r.fref == t[i].fref
    ensures var id := t[i].fref.id; id in frefs && frefs[id].refs > 0
    ensures var id := t[i].fref.id; var n := RefCount(fs, id);
            FrefsIn(Splice(t, i, fs), Recount(frefs, id, n), Reopened(frefs, open, id, n), next)
  {
    EntryRef(t, frefs, open, next, i);
    var id, u := t[i].fref.id, Splice(t, i, fs);
    var n := RefCount(fs, id);
    var frefs', open' := Recount(frefs, id, n), Reopened(frefs, open, id, n);
    forall j | j in frefs' ensures RefOk(u, frefs', open', next, j) {
      assert RefOk(t, frefs, open, next, j) && RefOk(t, frefs, open, next, id);
      SpliceRefs(t, i, fs, j);
      if j != id { OtherRefs(fs, t[i].fref, j); }
    }
    forall r | r in u && r.fref.Ref? ensures r.fref.id in frefs' {
      if r !in fs { assert r in t; }
      if r.fref.id == id && id !in frefs' {
        assert RefOk(t, frefs, open, next, id);
        var k: nat :| k < |u| && u[k] == r;
        RefCountIn(u, k, id);
        SpliceRefs(t, i, fs, id);
      }
    }
  }

  lemma {:induction false} OtherRefs(fs: seq<Region>, f: Fref, j: nat)
    requires forall r | r in fs && r.fref.Ref? :: r.fref == f
    requires f != Ref(j)
    ensures RefCount(fs, j) == 0
  {
    if fs != [] { OtherRefs(fs[1..], f, j); }
  }

  /* Entries without references come and go freely. */
  lemma SpliceNoFrefs(t: seq<Region>, i: nat, fs: seq<Region>, frefs: map<nat, FileRef>, open: map<int, nat>, next: nat)
    requires FrefsIn(t, frefs, open, next) && i < |t| && t[i].fref == Null
    requires forall r | r in fs :: r.fref == Null
    ensures FrefsIn(Splice(t, i, fs), frefs, open, next)
  {
    var u := Splice(t, i, fs);
    forall j | j in frefs ensures RefOk(u, frefs, open, next, j) {
      assert RefOk(t, frefs, open, next, j);
      SpliceRefs(t, i, fs, j);
      OtherRefs(fs, Null, j);
    }
    forall r | r in u && r.fref.Ref? ensures r.fref.id in frefs {
      assert r in t;
    }
  }

  /* The counts and descriptors once n entries refer to f instead of one. */
  function Counted(frefs: map<nat, FileRef>, f: Fref, n: nat): map<nat, FileRef> {
    if f.Ref? && f.id in frefs && frefs[f.id].refs > 0 then Recount(frefs, f.id, n) else frefs
  }

  function Opened(frefs: map<nat, FileRef>, open: map<int, nat>, f: Fref, n: nat): map<int, nat> {
    if f.Ref? && f.id in frefs && frefs[f.id].refs > 0 then Reopened(frefs, open, f.id, n) else open
  }

  lemma CountedOne(frefs: map<nat, FileRef>, open: map<int, nat>, f: Fref)
    ensures Counted(frefs, f, 1) == frefs && Opened(frefs, open, f, 1) == open
  {
    if f.Ref? && f.id in frefs && frefs[f.id].refs > 0 {
      assert FileRef(frefs[f.id].fd, frefs[f.id].refs) == frefs[f.id];
      assert frefs[f.id := frefs[f.id]] == frefs;
    }
  }

  /* How unmapping one entry changes the counts. */
  lemma UnmapFrefs(t: seq<Region>, i: nat, frefs: map<nat, FileRef>, open: map<int, nat>, next: nat, start: nat,
      end: nat)
    requires FrefsIn(t, frefs, open, next) && i < |t| && start < end && Touched(t[i], start, end)
    ensures t[i].fref.Ref? ==> t[i].fref.id in frefs && frefs[t[i].fref.id].refs > 0 && frefs[t[i].fref.id].fd in open
    ensures var n := Pieces(t[i], start, end);
            FrefsIn(Splice(t, i, Unmap1(t[i], start, end)), Counted(frefs, t[i].fref, n),
              Opened(frefs, open, t[i].fref, n), next)
  {
    var r, fs := t[i], Unmap1(t[i], start, end);
    if r.fref == Null {
      SpliceNoFrefs(t, i, fs, frefs, open, next);
    } else {
      EntryRef(t, frefs, open, next, i);
      SpliceFrefs(t, i, fs, frefs, open, next);
      PiecesCount(r, start, end);
    }
  }

  /* Into how many live pieces an entry falls. */
  function Pieces(r: Region, start: nat, end: nat): nat {
    (if r.base < start then 1 else 0) + if end < r.End() then 1 else 0
  }

  lemma PiecesCount(r: Region, start: nat, end: nat)
    requires r.fref.Ref? && start < end && Touched(r, start, end)
    ensures RefCount(Unmap1(r, start, end), r.fref.id) == Pieces(r, start, end)
  {
    var fs := Unmap1(r, start, end);
    if |fs| == 1 {
      assert fs[1..] == [];
    } else if |fs| == 2 {
      assert fs[1..] == [fs[1]] && [fs[1]][1..] == [];
      assert RefCount([fs[1]], r.fref.id) == if fs[1].fref == r.fref then 1 else 0;
    } else {
      assert fs[1..] == [fs[1], fs[2]] && fs[1..][1..] == [fs[2]];
      assert [fs[2]][1..] == [] && [fs[1], fs[2]][1..] == [fs[2]];
      assert RefCount([fs[2]], r.fref.id) == 1;
      assert RefCount([fs[1], fs[2]], r.fref.id) == 1;
    }
  }

  /* Counts see only references. */
  lemma SameFrefs(t: seq<Region>, u: seq<Region>, frefs: map<nat, FileRef>, open: map<int, nat>, next: nat)
    requires FrefsIn(t, frefs, open, next)
    requires forall id: nat {:trigger RefCount(u, id)} :: RefCount(u, id) == RefCount(t, id)
    requires forall r | r in u && r.fref.Ref? :: r in t
    ensures FrefsIn(u, frefs, open, next)
  {
    forall id | id in frefs ensures RefOk(u, frefs, open, next, id) { assert RefOk(t, frefs, open, next, id); }
  }

  lemma AppendNoFrefs(t: seq<Region>, r: Region, frefs: map<nat, FileRef>, open: map<int, nat>, next: nat)
    requires FrefsIn(t, frefs, open, next) && r.fref == Null
    ensures FrefsIn(t + [r], frefs, open, next)
  {
    forall id | id in frefs ensures RefOk(t + [r], frefs, open, next, id) {
      assert RefOk(t, frefs, open, next, id);
      RefCountConcat(t, [r], id);
    }
  }

  /* A new reference for entry i, with a descriptor of its own. */
  lemma NewFref(t: seq<Region>, i: nat, r: Region, frefs: map<nat, FileRef>, open: map<int, nat>, next: nat, fd: int,
      open': map<int, nat>)
    requires FrefsIn(t, frefs, open, next) && i < |t| && t[i].fref == Null && r.fref == Ref(next)
    requires fd !in open && open' == open[fd := if fd in open' then open'[fd] else 0] && fd in open'
    ensures FrefsIn(Splice(t, i, [r]), frefs[next := FileRef(fd, 1)], open', next + 1)
  {
    var u, frefs' := Splice(t, i, [r]), frefs[next := FileRef(fd, 1)];
    assert next in frefs ==> RefOk(t, frefs, open, next, next);
    NoneYet(t, next, frefs);
    forall id | id in frefs' ensures RefOk(u, frefs', open', next + 1, id) {
      SpliceRefs(t, i, [r], id);
      assert [r][1..] == [];
      if id != next { assert RefOk(t, frefs, open, next, id); }
    }
    forall j, k | j in frefs' && k in frefs' && frefs'[j].fd == frefs'[k].fd ensures j == k {
      if j != next { assert RefOk(t, frefs, open, next, j); }
      if k != next { assert RefOk(t, frefs, open, next, k); }
    }
    forall x | x in u && x.fref.Ref? ensures x.fref.id in frefs' { if x != r { assert x in t; } }
  }

  lemma {:induction false} NoneYet(t: seq<Region>, id: nat, frefs: map<nat, FileRef>)
    requires id !in frefs && forall r | r in t && r.fref.Ref? :: r.fref.id in frefs
    ensures RefCount(t, id) == 0
  {
    if t != [] {
      assert t[0] in t;
      NoneYet(t[1..], id, frefs);
    }
  }

  /* The references are those that the table mentions, with as many entries as they count. */
  lemma Mentioned(t: seq<Region>, frefs: map<nat, FileRef>, open: map<int, nat>, next: nat, id: nat)
    requires FrefsIn(t, frefs, open, next)
    ensures id in frefs <==> RefCount(t, id) > 0
    ensures id in frefs ==> frefs[id].refs == RefCount(t, id) && frefs[id].fd in open
  {
    if id in frefs { assert RefOk(t, frefs, open, next, id); } else { NoneYet(t, id, frefs); }
  }

  /* Unmapping entries without references leaves all counts as they are. */
  lemma {:induction false} UnmapNoRefs(t: seq<Region>, start: nat, end: nat, id: nat)
    requires start < end && forall r | r in t && Touched(r, start, end) :: r.fref == Null
    ensures RefCount(UnmapAll(t, start, end), id) == RefCount(t, id)
  {
    if t != [] {
      var fs := Unmap1(t[0], start, end);
      UnmapNoRefs(t[1..], start, end, id);
      RefCountConcat(fs, UnmapAll(t[1..], start, end), id);
      if Touched(t[0], start, end) { OtherRefs(fs, Null, id); } else { assert fs == [t[0]] && [t[0]][1..] == []; }
    }
  }

  /* The same counts and descriptors make the same references. */
  lemma SameRefs(t: seq<Region>, u: seq<Region>, frefs: map<nat, FileRef>, open: map<int, nat>, frefs': map<nat,
      FileRef>, open': map<int, nat>, next: nat)
    requires FrefsIn(t, frefs, open, next) && FrefsIn(u, frefs', open', next)
    requires forall id: nat {:trigger RefCount(u, id)} :: RefCount(u, id) == RefCount(t, id)
    requires forall id | id in frefs' :: id in frefs && frefs'[id].fd == frefs[id].fd
    ensures frefs' == frefs
  {
    forall id | id in frefs ensures id in frefs' && frefs'[id] == frefs[id] {
      Mentioned(t, frefs, open, next, id);
      Mentioned(u, frefs', open', next, id);
    }
  }

  /* Filling in an entry without a reference. */
  lemma FillFrefs(t: seq<Region>, i: nat, r: Region, frefs: map<nat, FileRef>, open: map<int, nat>, next: nat)
    requires FrefsIn(t, frefs, open, next) && i < |t| && t[i].fref == Null && r.fref == Null
    ensures FrefsIn(Splice(t, i, [r]), frefs, open, next)
  {
    SpliceNoFrefs(t, i, [r], frefs, open, next);
  }
}
