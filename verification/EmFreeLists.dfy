/** The 64 free lists together: every listed region is in the list of its size class. */
module EmFreeLists {
  import opened Words
  import opened Rings
  import opened EmBuckets
  import opened EmLists

  type RingMap = map<nat, seq<nat>>

  /* `freeRegionBuckets + b`, when the array of sentinels starts at bk */
  function Head(bk: nat, b: nat): nat { bk + 16 * b }

  const HEADS_SIZE: nat := 1024

  /* The bucket of a free region of the given size. */
  function BucketOf(size: nat): int
    requires 8 <= size < W32
  {
    Bucket(size - 8)
  }

  predicate SizeOk(size: nat) { 16 <= size < W32 }

  predicate MemberOk(listed: map<nat, nat>, b: nat, x: nat) {
    x in listed && SizeOk(listed[x]) && BucketOf(listed[x]) == b
  }

  ghost predicate BucketOk(rings: RingMap, listed: map<nat, nat>, bk: nat, b: nat)
    requires b in rings
  {
    var r := rings[b];
    && b < NUM_FREE_BUCKETS && r != [] && r[0] == Head(bk, b) && NoDup(r)
    && forall i: nat {:trigger MemberOk(listed, b, r[i])} | 0 < i < |r| :: MemberOk(listed, b, r[i])
  }

  ghost predicate Listed(rings: RingMap, listed: map<nat, nat>, bk: nat, p: nat)
    requires p in listed
  {
    SizeOk(listed[p]) && p >= bk + HEADS_SIZE && var b := BucketOf(listed[p]); b >= 0 && b in rings && p in rings[b]
  }

  ghost predicate ListsOk(rings: RingMap, listed: map<nat, nat>, bk: nat) {
    && (forall b: nat | b < NUM_FREE_BUCKETS :: b in rings)
    && (forall b {:trigger BucketOk(rings, listed, bk, b)} | b in rings :: BucketOk(rings, listed, bk, b))
    && (forall p {:trigger Listed(rings, listed, bk, p)} | p in listed :: Listed(rings, listed, bk, p))
  }

  ghost predicate AllFar(listed: map<nat, nat>) {
    forall x, y {:trigger Far(x, y)} | x in listed && y in listed && x != y :: Far(x, y)
  }

  ghost predicate LinksOk(m: Mem, rings: RingMap) {
    forall b {:trigger Ring(m, rings[b])} | b in rings :: Ring(m, rings[b])
  }

  /* ---- members of different lists, or different members of one, are apart ---- */

  lemma NodesFar(rings: RingMap, listed: map<nat, nat>, bk: nat, b: nat, i: nat, c: nat, j: nat)
    requires ListsOk(rings, listed, bk) && AllFar(listed) && b in rings && c in rings && i < |rings[b]|
        && j < |rings[c]|
    ensures (b == c && i == j) || Far(rings[b][i], rings[c][j])
  {
    assert BucketOk(rings, listed, bk, b) && BucketOk(rings, listed, bk, c);
    var x, y := rings[b][i], rings[c][j];
    if i > 0 { assert MemberOk(listed, b, x) && Listed(rings, listed, bk, x); }
    if j > 0 { assert MemberOk(listed, c, y) && Listed(rings, listed, bk, y); }
    if i > 0 && j > 0 && (b != c || i != j) {
      assert x != y;
      assert Far(x, y) || Far(y, x);
    }
  }

  lemma RingSpread(rings: RingMap, listed: map<nat, nat>, bk: nat, b: nat)
    requires ListsOk(rings, listed, bk) && AllFar(listed) && b in rings
    ensures Spread(rings[b])
  {
    var r := rings[b];
    forall i: nat, j: nat | i < j < |r| ensures Far(r[i], r[j]) { NodesFar(rings, listed, bk, b, i, b, j); }
  }

  /* A region apart from all listed ones is apart from all nodes. */
  ghost predicate Newcomer(listed: map<nat, nat>, bk: nat, p: nat) {
    p !in listed && p >= bk + HEADS_SIZE && forall x {:trigger Far(p, x)} | x in listed :: Far(p, x)
  }

  lemma NewFar(rings: RingMap, listed: map<nat, nat>, bk: nat, p: nat, b: nat, i: nat)
    requires ListsOk(rings, listed, bk) && Newcomer(listed, bk, p) && b in rings && i < |rings[b]|
    ensures Far(p, rings[b][i])
  {
    assert BucketOk(rings, listed, bk, b);
    if i > 0 { assert MemberOk(listed, b, rings[b][i]); }
  }

  lemma NewSpread(rings: RingMap, listed: map<nat, nat>, bk: nat, p: nat, b: nat)
    requires ListsOk(rings, listed, bk) && AllFar(listed) && Newcomer(listed, bk, p) && b in rings
    ensures Spread([p] + rings[b])
  {
    var r := rings[b];
    var s := [p] + r;
    forall i: nat, j: nat | i < j < |s| ensures Far(s[i], s[j]) {
      if i == 0 { NewFar(rings, listed, bk, p, b, j - 1); } else { NodesFar(rings, listed, bk, b, i - 1, b, j - 1); }
    }
  }

  /* ---- linking ---- */

  function AddFirst(rings: RingMap, b: nat, p: nat): RingMap
    requires b in rings && rings[b] != []
  {
    rings[b := InsertSecond(rings[b], p)]
  }

  lemma AddFirstOk(rings: RingMap, listed: map<nat, nat>, bk: nat, p: nat, size: nat)
    requires ListsOk(rings, listed, bk) && p !in listed && p >= bk + HEADS_SIZE && SizeOk(size)
    ensures var b := BucketOf(size);
        0 <= b < NUM_FREE_BUCKETS && b in rings && rings[b] != [] && rings[b][0] == Head(bk, b)
                                     && ListsOk(AddFirst(rings, b, p), listed[p := size], bk)
  {
    BucketInterval(size - 8);
    hide Bucket;
    var b: nat := BucketOf(size);
    assert BucketOk(rings, listed, bk, b);
    var rings', listed' := AddFirst(rings, b, p), listed[p := size];
    var r, r' := rings[b], rings'[b];
    forall i: nat | 0 < i < |r| ensures r[i] in listed { assert MemberOk(listed, b, r[i]); }
    assert p !in r;
    InsertMembers(r, p);
    forall c | c in rings' ensures BucketOk(rings', listed', bk, c) {
      assert BucketOk(rings, listed, bk, c);
      forall i: nat | 0 < i < |rings'[c]| ensures MemberOk(listed', c, rings'[c][i]) {
        if c != b {
          assert MemberOk(listed, c, rings[c][i]);
        } else if i > 1 {
          assert r'[i] == r[i - 1] && MemberOk(listed, b, r[i - 1]);
        }
      }
    }
    forall q | q in listed' ensures Listed(rings', listed', bk, q) {
      if q != p { assert Listed(rings, listed, bk, q); }
    }
  }

  lemma AddFirstLinks(m: Mem, rings: RingMap, listed: map<nat, nat>, bk: nat, p: nat, b: nat)
    requires ListsOk(rings, listed, bk) && AllFar(listed) && LinksOk(m, rings) && Newcomer(listed, bk, p)
    requires b in rings && rings[b] != [] && rings[b][0] == Head(bk, b)
    ensures LinksOk(PutFirst(m, Head(bk, b), p), AddFirst(rings, b, p))
  {
    var m', rings' := PutFirst(m, Head(bk, b), p), AddFirst(rings, b, p);
    assert Ring(m, rings[b]);
    NewSpread(rings, listed, bk, p, b);
    PutFirstRing(m, rings[b], p);
    Neighbours(m, rings[b], 0);
    forall c | c in rings' ensures Ring(m', rings'[c]) {
      if c != b {
        assert Ring(m, rings[c]);
        forall i: nat | i < |rings[c]|
          ensures Word(m', rings[c][i] + 4) == Word(m, rings[c][i] + 4)
          && Word(m', rings[c][i] + 8) == Word(m, rings[c][i] + 8) {
          NewFar(rings, listed, bk, p, c, i);
          NodesFar(rings, listed, bk, b, 0, c, i);
          NodesFar(rings, listed, bk, b, After(0, |rings[b]|), c, i);
        }
        OtherRing(m, m', rings[c]);
      }
    }
  }

  /* ---- unlinking ---- */

  function Drop(rings: RingMap, b: nat, k: nat): RingMap
    requires b in rings && k < |rings[b]|
  {
    rings[b := Dropped(rings[b], k)]
  }

  lemma DroppedMembers(r: seq<nat>, k: nat)
    requires NoDup(r) && k < |r|
    ensures NoDup(Dropped(r, k)) && r[k] !in Dropped(r, k)
    ensures forall x :: x in Dropped(r, k) <==> x in r && x != r[k]
  {
    var r' := Dropped(r, k);
    assert forall i: nat | i < k :: r'[i] == r[i];
    assert forall i: nat | k <= i < |r'| :: r'[i] == r[i + 1];
    forall x | x in r && x != r[k] ensures x in r' {
      var i: nat :| i < |r| && r[i] == x;
      if i < k { assert r'[i] == x; } else { assert r'[i - 1] == x; }
    }
  }

  lemma DropOk(rings: RingMap, listed: map<nat, nat>, bk: nat, b: nat, k: nat)
    requires ListsOk(rings, listed, bk) && b in rings && 0 < k < |rings[b]|
    ensures rings[b][k] in listed && ListsOk(Drop(rings, b, k), listed - {rings[b][k]}, bk)
  {
    assert BucketOk(rings, listed, bk, b);
    var r, p := rings[b], rings[b][k];
    assert MemberOk(listed, b, p);
    var rings', listed' := Drop(rings, b, k), listed - {p};
    DroppedMembers(r, k);
    hide Bucket;
    forall c | c in rings' ensures BucketOk(rings', listed', bk, c) {
      assert BucketOk(rings, listed, bk, c);
      forall i: nat | 0 < i < |rings'[c]| ensures MemberOk(listed', c, rings'[c][i]) {
        if c != b {
          assert MemberOk(listed, c, rings[c][i]);
        } else {
          assert MemberOk(listed, b, r[if i < k then i else i + 1]);
        }
      }
    }
    forall q | q in listed' ensures Listed(rings', listed', bk, q) { assert Listed(rings, listed, bk, q); }
  }

  lemma DropLinks(m: Mem, rings: RingMap, listed: map<nat, nat>, bk: nat, b: nat, k: nat)
    requires ListsOk(rings, listed, bk) && AllFar(listed) && LinksOk(m, rings) && b in rings && 0 < k < |rings[b]|
    ensures LinksOk(Unlinked(m, rings[b][k]), Drop(rings, b, k))
  {
    var r := rings[b];
    var m', rings' := Unlinked(m, r[k]), Drop(rings, b, k);
    assert Ring(m, r);
    RingSpread(rings, listed, bk, b);
    UnlinkedRing(m, r, k);
    Neighbours(m, r, k);
    forall c | c in rings' ensures Ring(m', rings'[c]) {
      if c != b {
        assert Ring(m, rings[c]);
        forall i: nat | i < |rings[c]|
          ensures Word(m', rings[c][i] + 4) == Word(m, rings[c][i] + 4)
          && Word(m', rings[c][i] + 8) == Word(m, rings[c][i] + 8) {
          NodesFar(rings, listed, bk, b, k - 1, c, i);
          NodesFar(rings, listed, bk, b, After(k, |r|), c, i);
        }
        OtherRing(m, m', rings[c]);
      }
    }
  }

  /* Where a listed region is. */
  lemma Position(rings: RingMap, listed: map<nat, nat>, bk: nat, p: nat) returns (b: nat, k: nat)
    requires ListsOk(rings, listed, bk) && p in listed
    ensures SizeOk(listed[p]) && b in rings && 0 < k < |rings[b]| && rings[b][k] == p && b == BucketOf(listed[p])
        && rings[b][0] == Head(bk, b)
  {
    assert Listed(rings, listed, bk, p);
    b := BucketOf(listed[p]);
    assert BucketOk(rings, listed, bk, b);
    k :| k < |rings[b]| && rings[b][k] == p;
  }

  /* ---- cycling a region to the end of its list ---- */

  function AddLast(rings: RingMap, b: nat, p: nat): RingMap
    requires b in rings
  {
    rings[b := rings[b] + [p]]
  }

  lemma AddLastOk(rings: RingMap, listed: map<nat, nat>, bk: nat, p: nat, size: nat, b: nat)
    requires ListsOk(rings, listed, bk) && p !in listed && p >= bk + HEADS_SIZE && SizeOk(size) && BucketOf(size) == b
        && b in rings
    ensures ListsOk(AddLast(rings, b, p), listed[p := size], bk)
  {
    hide Bucket;
    assert BucketOk(rings, listed, bk, b);
    var rings', listed' := AddLast(rings, b, p), listed[p := size];
    var r := rings[b];
    forall i: nat | 0 < i < |r| ensures r[i] in listed { assert MemberOk(listed, b, r[i]); }
    assert p !in r;
    forall c | c in rings' ensures BucketOk(rings', listed', bk, c) {
      assert BucketOk(rings, listed, bk, c);
      forall i: nat | 0 < i < |rings'[c]| ensures MemberOk(listed', c, rings'[c][i]) {
        if c != b {
          assert MemberOk(listed, c, rings[c][i]);
        } else if i < |r| {
          assert MemberOk(listed, b, r[i]);
        }
      }
    }
    forall q | q in listed' ensures Listed(rings', listed', bk, q) {
      if q != p { assert Listed(rings, listed, bk, q); }
    }
  }

  lemma AddLastLinks(m: Mem, rings: RingMap, listed: map<nat, nat>, bk: nat, p: nat, b: nat)
    requires ListsOk(rings, listed, bk) && AllFar(listed) && LinksOk(m, rings) && Newcomer(listed, bk, p)
    requires b in rings && rings[b] != [] && rings[b][0] == Head(bk, b)
    ensures LinksOk(PutLast(m, Head(bk, b), p), AddLast(rings, b, p))
  {
    var m', rings' := PutLast(m, Head(bk, b), p), AddLast(rings, b, p);
    assert Ring(m, rings[b]);
    NewSpread(rings, listed, bk, p, b);
    PutLastRing(m, rings[b], p);
    Neighbours(m, rings[b], 0);
    forall c | c in rings' ensures Ring(m', rings'[c]) {
      if c != b {
        assert Ring(m, rings[c]);
        forall i: nat | i < |rings[c]|
          ensures Word(m', rings[c][i] + 4) == Word(m, rings[c][i] + 4)
          && Word(m', rings[c][i] + 8) == Word(m, rings[c][i] + 8) {
          NewFar(rings, listed, bk, p, c, i);
          NodesFar(rings, listed, bk, b, 0, c, i);
          NodesFar(rings, listed, bk, b, |rings[b]| - 1, c, i);
        }
        OtherRing(m, m', rings[c]);
      }
    }
  }

  /* ---- other memory ---- */

  /* An address beyond the sentinels and outside the first words of listed regions. */
  ghost predicate Outside(listed: map<nat, nat>, bk: nat, a: nat) {
    a >= bk + HEADS_SIZE && forall x {:trigger x in listed} | x in listed :: a < x || x + 16 <= a
  }

  /* Memory is the same but for link words of nodes. */
  ghost predicate OnlyLinks(m: Mem, m': Mem, listed: map<nat, nat>, bk: nat) {
    && (forall a: nat {:trigger Word(m', a)} | Outside(listed, bk, a) :: Word(m', a) == Word(m, a))
    && forall x {:trigger x in listed} | x in listed :: Word(m', x) == Word(m, x) && Word(m', x + 12) == Word(m, x + 12)
  }

  lemma AddFirstWrites(m: Mem, rings: RingMap, listed: map<nat, nat>, bk: nat, p: nat, size: nat, b: nat)
    requires ListsOk(rings, listed, bk) && LinksOk(m, rings) && AllFar(listed) && Newcomer(listed, bk, p) && b in rings
        && rings[b] != [] && rings[b][0] == Head(bk, b)
    ensures OnlyLinks(m, PutFirst(m, Head(bk, b), p), listed[p := size], bk)
  {
    NodeWords(m, rings, listed, bk, b, 0);
    NextNode(m, rings, listed, bk, b, 0);
    var h, f, listed' := Head(bk, b), Word(m, Head(bk, b) + 8), listed[p := size];
    assert f in listed ==> Far(p, f);
    var m' := PutFirst(m, h, p);
    forall a: nat | Outside(listed', bk, a) ensures Word(m', a) == Word(m, a) {
      assert a < p || p + 16 <= a by { assert p in listed'; }
      assert f in listed ==> f in listed';
      assert h in listed ==> h in listed';
    }
    forall x | x in listed' ensures Word(m', x) == Word(m, x) && Word(m', x + 12) == Word(m, x + 12) {
      assert x != p ==> x in listed && Far(p, x);
      assert h in listed ==> Far(p, h);
    }
  }

  lemma DropWrites(m: Mem, rings: RingMap, listed: map<nat, nat>, bk: nat, b: nat, k: nat)
    requires ListsOk(rings, listed, bk) && LinksOk(m, rings) && AllFar(listed) && b in rings && 0 < k < |rings[b]|
    ensures OnlyLinks(m, Unlinked(m, rings[b][k]), listed, bk)
  {
    NextNode(m, rings, listed, bk, b, k);
    PrevNode(m, rings, listed, bk, b, k);
    NodeWords(m, rings, listed, bk, b, After(k, |rings[b]|));
    NodeWords(m, rings, listed, bk, b, Before(k, |rings[b]|));
  }

  lemma AddLastWrites(m: Mem, rings: RingMap, listed: map<nat, nat>, bk: nat, p: nat, size: nat, b: nat)
    requires ListsOk(rings, listed, bk) && LinksOk(m, rings) && AllFar(listed) && Newcomer(listed, bk, p) && b in rings
        && rings[b] != [] && rings[b][0] == Head(bk, b)
    ensures OnlyLinks(m, PutLast(m, Head(bk, b), p), listed[p := size], bk)
  {
    NodeWords(m, rings, listed, bk, b, 0);
    PrevNode(m, rings, listed, bk, b, 0);
    var h, g, listed' := Head(bk, b), Word(m, Head(bk, b) + 4), listed[p := size];
    assert g in listed ==> Far(p, g);
    var m' := PutLast(m, h, p);
    forall a: nat | Outside(listed', bk, a) ensures Word(m', a) == Word(m, a) {
      assert a < p || p + 16 <= a by { assert p in listed'; }
      assert g in listed ==> g in listed';
      assert h in listed ==> h in listed';
    }
    forall x | x in listed' ensures Word(m', x) == Word(m, x) && Word(m', x + 12) == Word(m, x + 12) {
      assert x != p ==> x in listed && Far(p, x);
      assert h in listed ==> Far(p, h);
    }
  }

  /* A node is a sentinel or listed. */
  ghost predicate Node(listed: map<nat, nat>, bk: nat, x: nat) {
    x in listed || (bk <= x && x + 16 <= bk + HEADS_SIZE)
  }

  lemma NodeWords(m: Mem, rings: RingMap, listed: map<nat, nat>, bk: nat, b: nat, i: nat)
    requires ListsOk(rings, listed, bk) && b in rings && i < |rings[b]|
    ensures Node(listed, bk, rings[b][i])
    ensures forall x | x in listed && AllFar(listed) :: x == rings[b][i] || Far(x, rings[b][i])
  {
    assert BucketOk(rings, listed, bk, b);
    if i > 0 { assert MemberOk(listed, b, rings[b][i]); }
    forall x | x in listed && AllFar(listed) ensures x == rings[b][i] || Far(x, rings[b][i]) {
      assert Listed(rings, listed, bk, x);
      assert x != rings[b][i] && i > 0 ==> Far(x, rings[b][i]);
    }
  }

  lemma NextNode(m: Mem, rings: RingMap, listed: map<nat, nat>, bk: nat, b: nat, i: nat)
    requires ListsOk(rings, listed, bk) && LinksOk(m, rings) && b in rings && i < |rings[b]|
    ensures Word(m, rings[b][i] + 8) == rings[b][After(i, |rings[b]|)] && Node(listed, bk, Word(m, rings[b][i] + 8))
    ensures forall x | x in listed && AllFar(listed) ::
        x == Word(m, rings[b][i] + 8) || Far(x, Word(m, rings[b][i] + 8))
  {
    assert Ring(m, rings[b]);
    Neighbours(m, rings[b], i);
    NodeWords(m, rings, listed, bk, b, After(i, |rings[b]|));
  }

  lemma PrevNode(m: Mem, rings: RingMap, listed: map<nat, nat>, bk: nat, b: nat, i: nat)
    requires ListsOk(rings, listed, bk) && LinksOk(m, rings) && b in rings && i < |rings[b]|
    ensures Word(m, rings[b][i] + 4) == rings[b][Before(i, |rings[b]|)] && Node(listed, bk, Word(m, rings[b][i] + 4))
    ensures forall x | x in listed && AllFar(listed) ::
        x == Word(m, rings[b][i] + 4) || Far(x, Word(m, rings[b][i] + 4))
  {
    assert Ring(m, rings[b]);
    Neighbours(m, rings[b], i);
    NodeWords(m, rings, listed, bk, b, Before(i, |rings[b]|));
  }

  /* Memory is the same in the nodes. */
  ghost predicate NodesKept(m: Mem, m': Mem, listed: map<nat, nat>, bk: nat) {
    && (forall a: nat {:trigger Word(m', a)} | bk <= a < bk + HEADS_SIZE :: Word(m', a) == Word(m, a))
    && forall x {:trigger x in listed} | x in listed ::
         Word(m', x + 4) == Word(m, x + 4) && Word(m', x + 8) == Word(m, x + 8)
  }

  lemma LinksKept(m: Mem, m': Mem, rings: RingMap, listed: map<nat, nat>, bk: nat)
    requires ListsOk(rings, listed, bk) && LinksOk(m, rings) && NodesKept(m, m', listed, bk)
    ensures LinksOk(m', rings)
  {
    forall b | b in rings ensures Ring(m', rings[b]) {
      assert BucketOk(rings, listed, bk, b) && Ring(m, rings[b]);
      var r := rings[b];
      forall i: nat | i < |r| ensures Word(m', r[i] + 4) == Word(m, r[i] + 4)
        && Word(m', r[i] + 8) == Word(m, r[i] + 8) {
        if i > 0 { assert MemberOk(listed, b, r[i]); }
      }
      OtherRing(m, m', r);
    }
  }
}
