/** Circular doubly linked lists threaded through two link maps, `fd` (forward) and `bk`
    (backward), as dlmalloc keeps its bins.  A ring is the sequence of its members in forward
    order, starting anywhere. */
module Rings {

  ghost predicate NoDup<T>(r: seq<T>) {
    forall i, j | 0 <= i < j < |r| :: r[i] != r[j]
  }

  function After(i: nat, n: nat): nat
    requires i < n
  {
    if i + 1 == n then 0 else i + 1
  }

  function Before(i: nat, n: nat): nat
    requires i < n
  {
    if i == 0 then n - 1 else i - 1
  }

  ghost predicate LinkedAt<T>(fd: map<T, T>, bk: map<T, T>, r: seq<T>, i: nat)
    requires i < |r|
  {
    && r[i] in fd && fd[r[i]] == r[After(i, |r|)]
    && r[i] in bk && bk[r[i]] == r[Before(i, |r|)]
  }

  ghost predicate IsRing<T>(fd: map<T, T>, bk: map<T, T>, r: seq<T>) {
    && NoDup(r)
    && forall i | 0 <= i < |r| :: LinkedAt(fd, bk, r, i)
  }

  /* r with element i taken out; when that is the first, its predecessor comes first instead. */
  function Without<T>(r: seq<T>, i: nat): seq<T>
    requires i < |r|
  {
    if i == 0 && |r| > 1 then [r[|r| - 1]] + r[1..|r| - 1] else r[..i] + r[i + 1..]
  }

  function InsertSecond<T>(r: seq<T>, x: T): seq<T>
    requires r != []
  {
    [r[0], x] + r[1..]
  }

  /* Maps that agree on the members of a ring link it the same way. */
  lemma RingFrame<T>(fd: map<T, T>, bk: map<T, T>, fd': map<T, T>, bk': map<T, T>, r: seq<T>)
    requires IsRing(fd, bk, r)
    requires forall x | x in r :: x in fd' && x in bk' && x in fd && x in bk && fd'[x] == fd[x] && bk'[x] == bk[x]
    ensures IsRing(fd', bk', r)
  {
    forall i | 0 <= i < |r| ensures LinkedAt(fd', bk', r, i) {
      assert LinkedAt(fd, bk, r, i);
      assert r[i] in r;
    }
  }

  /* Changes outside a ring leave it alone. */
  lemma RingFrameAt<T>(fd: map<T, T>, bk: map<T, T>, fd': map<T, T>, bk': map<T, T>, r: seq<T>, touched: set<T>)
    requires IsRing(fd, bk, r) && forall x | x in r :: x !in touched
    requires forall x | x in fd && x !in touched :: x in fd' && fd'[x] == fd[x]
    requires forall x | x in bk && x !in touched :: x in bk' && bk'[x] == bk[x]
    ensures IsRing(fd', bk', r)
  {
    forall x | x in r ensures x in fd && x in bk {
      var i :| 0 <= i < |r| && r[i] == x;
      assert LinkedAt(fd, bk, r, i);
    }
    RingFrame(fd, bk, fd', bk', r);
  }

  lemma LinksOf<T>(fd: map<T, T>, bk: map<T, T>, r: seq<T>, i: nat)
    requires IsRing(fd, bk, r) && i < |r|
    ensures r[i] in fd && r[i] in bk && fd[r[i]] in r && bk[r[i]] in r
    ensures fd[r[i]] == r[After(i, |r|)] && bk[r[i]] == r[Before(i, |r|)]
    ensures |r| > 1 ==> fd[r[i]] != r[i] && bk[r[i]] != r[i]
    ensures |r| > 1 ==> (fd[r[i]] == bk[r[i]] <==> |r| == 2)
  {
    assert LinkedAt(fd, bk, r, i);
  }

  lemma RingSingle<T>(fd: map<T, T>, bk: map<T, T>, x: T)
    requires x in fd && x in bk && fd[x] == x && bk[x] == x
    ensures IsRing(fd, bk, [x])
  {
    assert LinkedAt(fd, bk, [x], 0);
  }

  /* `F = T->fd; T->fd = F->bk = X; X->fd = F; X->bk = T` */
  lemma RingInsert<T>(fd: map<T, T>, bk: map<T, T>, r: seq<T>, x: T)
    requires IsRing(fd, bk, r) && r != [] && x !in r
    requires r[0] in fd
    ensures IsRing(fd[r[0] := x][x := fd[r[0]]], bk[fd[r[0]] := x][x := r[0]], InsertSecond(r, x))
  {
    assert LinkedAt(fd, bk, r, 0);
    var t, f, n := r[0], fd[r[0]], |r|;
    var fd', bk', r' := fd[t := x][x := f], bk[f := x][x := t], InsertSecond(r, x);
    assert forall k | 2 <= k <= n :: r'[k] == r[k - 1];
    InsertMembers(r, x);
    forall i | 0 <= i < |r'| ensures LinkedAt(fd', bk', r', i) {
      if i >= 2 {
        assert LinkedAt(fd, bk, r, i - 1);
        assert r[i - 1] in r && r[i - 1] != t;
      }
    }
  }

  lemma WithoutMembers<T>(r: seq<T>, i: nat)
    requires NoDup(r) && i < |r|
    ensures NoDup(Without(r, i)) && |Without(r, i)| == |r| - 1
    ensures forall x :: x in Without(r, i) <==> x in r && x != r[i]
  {
    var n, r' := |r|, Without(r, i);
    if i == 0 && n > 1 {
      assert forall k | 1 <= k < |r'| :: r'[k] == r[k];
      assert r'[0] == r[n - 1];
      assert forall x :: x in r[1..n - 1] ==> x in r;
      assert forall k | 0 < k < n :: r[k] in r';
    } else {
      assert forall k | 0 <= k < i :: r'[k] == r[k];
      assert forall k | i < k < n :: r'[k - 1] == r[k];
      forall x | x in r && x != r[i] ensures x in r' {
        var k :| 0 <= k < n && r[k] == x;
        if k < i { assert r'[k] == x; } else { assert r'[k - 1] == x; }
      }
    }
  }

  lemma InsertMembers<T>(r: seq<T>, x: T)
    requires NoDup(r) && r != [] && x !in r
    ensures NoDup(InsertSecond(r, x))
    ensures forall y :: y in InsertSecond(r, x) <==> y in r || y == x
  {
    var r' := InsertSecond(r, x);
    assert r == [r[0]] + r[1..];
    assert forall k | 2 <= k < |r'| :: r'[k] == r[k - 1] && r[k - 1] in r;
  }

  /* `F = X->fd; R = X->bk; F->bk = R; R->fd = F` */
  lemma RingRemove<T>(fd: map<T, T>, bk: map<T, T>, r: seq<T>, i: nat)
    requires IsRing(fd, bk, r) && i < |r| && |r| > 1
    requires r[i] in fd && r[i] in bk
    ensures IsRing(fd[bk[r[i]] := fd[r[i]]], bk[fd[r[i]] := bk[r[i]]], Without(r, i))
  {
    assert LinkedAt(fd, bk, r, i);
    var n, r' := |r|, Without(r, i);
    var fd', bk' := fd[bk[r[i]] := fd[r[i]]], bk[fd[r[i]] := bk[r[i]]];
    WithoutMembers(r, i);
    forall k | 0 <= k < |r'| ensures LinkedAt(fd', bk', r', k) {
      var j := if i == 0 then (if k == 0 then n - 1 else k) else if k < i then k else k + 1;
      assert r'[k] == r[j];
      assert LinkedAt(fd, bk, r, j);
    }
  }
}
