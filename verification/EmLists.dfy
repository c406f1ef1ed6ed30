/** emmalloc's free lists: 64 circular lists through sentinels, their links kept in the words of flat
    memory, at offsets 4 (prev) and 8 (next) of each member. */
module EmLists {
  import opened Words
  import opened Rings
  import opened EmBuckets

  /** Memory by word address. */
  type Mem = map<nat, nat>

  function Word(m: Mem, a: nat): nat { if a in m then m[a] else 0 }

  /* ---- rings in memory ---- */

  predicate Linked(m: Mem, x: nat, y: nat) { Word(m, x + 8) == y && Word(m, y + 4) == x }

  predicate LinkAt(m: Mem, r: seq<nat>, i: nat)
    requires i < |r|
  {
    Linked(m, r[i], r[After(i, |r|)])
  }

  ghost predicate Ring(m: Mem, r: seq<nat>) {
    r != [] && forall i: nat {:trigger LinkAt(m, r, i)} | i < |r| :: LinkAt(m, r, i)
  }

  /* Far enough from each other for their words not to coincide. */
  predicate Far(x: nat, y: nat) { x + 16 <= y || y + 16 <= x }

  ghost predicate Spread(r: seq<nat>) {
    forall i: nat, j: nat {:trigger Far(r[i], r[j])} | i < j < |r| :: Far(r[i], r[j])
  }

  /* No link word of a member differs. */
  ghost predicate SameLinks(m: Mem, m': Mem, r: seq<nat>) {
    forall i: nat {:trigger r[i]} | i < |r| :: Word(m', r[i] + 4) == Word(m, r[i] + 4)
      && Word(m', r[i] + 8) == Word(m, r[i] + 8)
  }

  lemma OtherRing(m: Mem, m': Mem, r: seq<nat>)
    requires Ring(m, r) && SameLinks(m, m', r)
    ensures Ring(m', r)
  {
    forall i: nat | i < |r| ensures LinkAt(m', r, i) { assert LinkAt(m, r, i); }
  }

  /* What the neighbours of member k are. */
  lemma Neighbours(m: Mem, r: seq<nat>, k: nat)
    requires Ring(m, r) && k < |r|
    ensures Word(m, r[k] + 8) == r[After(k, |r|)] && Word(m, r[k] + 4) == r[Before(k, |r|)]
  {
    assert LinkAt(m, r, k) && LinkAt(m, r, Before(k, |r|));
  }

  /* link_to_free_list: p comes right after the sentinel h. */
  function PutFirst(m: Mem, h: nat, p: nat): Mem {
    var f := Word(m, h + 8);
    m[p + 4 := h][p + 8 := f][h + 8 := p][f + 4 := p]
  }

  lemma PutFirstRing(m: Mem, r: seq<nat>, p: nat)
    requires Ring(m, r) && Spread([p] + r)
    ensures Ring(PutFirst(m, r[0], p), InsertSecond(r, p))
  {
    var m', r', n := PutFirst(m, r[0], p), InsertSecond(r, p), |r|;
    Neighbours(m, r, 0);
    SpreadFar(p, r);
    forall i: nat | i < |r'| ensures LinkAt(m', r', i) {
      if i >= 2 {
        assert r'[i] == r[i - 1] && LinkAt(m, r, i - 1);
        MembersFar(p, r, i - 1, 0);
        MembersFar(p, r, i - 1, After(0, n));
        MembersFar(p, r, After(i - 1, n), 0);
        MembersFar(p, r, After(i - 1, n), After(0, n));
      } else if i == 1 {
        MembersFar(p, r, 0, After(0, n));
      } else {
        MembersFar(p, r, 0, After(0, n));
      }
    }
  }

  lemma SpreadFar(p: nat, r: seq<nat>)
    requires Spread([p] + r)
    ensures forall i: nat {:trigger r[i]} | i < |r| :: Far(p, r[i])
  {
    forall i: nat | i < |r| ensures Far(p, r[i]) {
      var s := [p] + r;
      assert Far(s[0], s[i + 1]);
    }
  }

  lemma MembersFar(p: nat, r: seq<nat>, i: nat, j: nat)
    requires Spread([p] + r) && i < |r| && j < |r|
    ensures i == j || Far(r[i], r[j])
  {
    var s := [p] + r;
    if i < j { assert Far(s[i + 1], s[j + 1]); }
    if j < i { assert Far(s[j + 1], s[i + 1]); }
  }

  /* prepend_to_free_list: p comes right before the sentinel h. */
  function PutLast(m: Mem, h: nat, p: nat): Mem {
    var g := Word(m, h + 4);
    m[p + 8 := h][p + 4 := g][h + 4 := p][g + 8 := p]
  }

  lemma PutLastRing(m: Mem, r: seq<nat>, p: nat)
    requires Ring(m, r) && Spread([p] + r)
    ensures Ring(PutLast(m, r[0], p), r + [p])
  {
    var m', r', n := PutLast(m, r[0], p), r + [p], |r|;
    Neighbours(m, r, 0);
    SpreadFar(p, r);
    forall i: nat | i < |r'| ensures LinkAt(m', r', i) {
      MembersFar(p, r, 0, n - 1);
      if i + 1 < n {
        assert LinkAt(m, r, i);
        MembersFar(p, r, i, 0);
        MembersFar(p, r, i, n - 1);
        MembersFar(p, r, i + 1, 0);
        MembersFar(p, r, i + 1, n - 1);
      }
    }
  }

  /* unlink_from_free_list */
  function Unlinked(m: Mem, p: nat): Mem {
    var g, f := Word(m, p + 4), Word(m, p + 8);
    m[g + 8 := f][f + 4 := g]
  }

  function Dropped(r: seq<nat>, k: nat): seq<nat>
    requires k < |r|
  {
    r[..k] + r[k + 1..]
  }

  lemma UnlinkedRing(m: Mem, r: seq<nat>, k: nat)
    requires Ring(m, r) && Spread(r) && 0 < k < |r|
    ensures Ring(Unlinked(m, r[k]), Dropped(r, k))
  {
    var m', r', n := Unlinked(m, r[k]), Dropped(r, k), |r|;
    Neighbours(m, r, k);
    forall i: nat | i < |r'| ensures LinkAt(m', r', i) {
      var j := if i < k then i else i + 1;
      var j' := if After(i, n - 1) < k then After(i, n - 1) else After(i, n - 1) + 1;
      assert r'[i] == r[j] && r'[After(i, n - 1)] == r[j'];
      assert LinkAt(m, r, j);
      PairFar(r, j, k - 1);
      PairFar(r, j', k - 1);
      PairFar(r, j, After(k, n));
      PairFar(r, j', After(k, n));
      PairFar(r, k - 1, After(k, n));
    }
  }

  lemma PairFar(r: seq<nat>, i: nat, j: nat)
    requires Spread(r) && i < |r| && j < |r|
    ensures i == j || Far(r[i], r[j])
  {
    if i < j { assert Far(r[i], r[j]); }
    if j < i { assert Far(r[j], r[i]); }
  }
}
