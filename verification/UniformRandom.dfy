/** arc4random_uniform: rejection sampling without bias. */
module UniformRandom {
  import opened Words
  import opened Alignment
  import opened RandomStream
  import opened ChaCha20
  import opened Arc4Random

  /* ~x on 32 bits */
  function Not32(x: nat): nat
    requires x < W32
  {
    W32 - 1 - x
  }

  /* `(1U + ~upper_bound) % upper_bound` */
  function Rejected(upperBound: nat): (r: nat)
    requires 2 <= upperBound < W32
  {
    (1 + Not32(upperBound)) % W32 % upperBound
  }

  /* It is 2^32 mod the bound, and less than half of all draws. */
  lemma RejectedOk(b: nat)
    requires 2 <= b < W32
    ensures Rejected(b) == W32 % b && 2 * Rejected(b) < W32
  {
    var q, r := W32 / b, W32 % b;
    assert W32 == b * q + r;
    if q == 0 { assert false; }
    assert b * (q - 1) + b == b * q;
    DivMod(W32 - b, b, q - 1, r);
    MulLe(1, q, b);
  }

  datatype Drawn = Result(value: nat, used: nat) | AllRejected

  /* Number i of the words that the generator has yet to deliver. */
  function StreamWord(s: Rng, i: nat): nat { WordOf(Draw(ChaCha(), Draw(ChaCha(), s, 4 * i).1, 4).0, 0) as nat }

  /* The state of a generator, which is seeded when it is first used. */
  ghost function StateOf(g: RngState, entropy: Entropy): Rng
    requires g.Valid() && |Seed(entropy)| == CHACHA20_KEYBYTES
    reads g, g.key, g.reserve
  {
    if g.initialized then g.State() else Rng(Seed(entropy), [])
  }

  /* The state after n bytes more. */
  ghost function Past(s: Rng, n: nat): Rng { Draw(ChaCha(), s, n).1 }

  /* arc4random, as word number i of s. */
  method NextWord(g: RngState, entropy: Entropy, ghost s: Rng, ghost i: nat) returns (v: nat)
    requires g.Valid() && g.key != g.reserve && |Seed(entropy)| == CHACHA20_KEYBYTES
        && StateOf(g, entropy) == Past(s, 4 * i)
    modifies g, g.key, g.reserve
    ensures g.Valid() && g.initialized && StateOf(g, entropy) == Past(s, 4 * (i + 1)) && v == StreamWord(s, i) < W32
  {
    hide Draw; hide WordOf; hide ChaCha;
    DrawTwice(ChaCha(), s, 4 * i, 4);
    var w := g.Next(entropy);
    v := w as nat;
  }

  /* All of the first n words are rejected. */
  ghost predicate AllBelow(s: Rng, min: nat, n: int) {
    forall i: nat {:trigger StreamWord(s, i)} | i < n :: StreamWord(s, i) < min
  }

  lemma NoneBelow(s: Rng, min: nat)
    ensures AllBelow(s, min, 0) && Past(s, 4 * 0) == s
  {
    DrawNone(ChaCha(), s);
  }

  lemma OneMoreBelow(s: Rng, min: nat, n: nat)
    requires AllBelow(s, min, n) && StreamWord(s, n) < min
    ensures AllBelow(s, min, n + 1)
  {}

  /* The loop of arc4random_uniform, over at most `limit` words. */
  method FirstAccepted(g: RngState, min: nat, limit: nat, entropy: Entropy, ghost s: Rng)
      returns (found: bool, v: nat, used: nat)
    requires g.Valid() && g.key != g.reserve && |Seed(entropy)| == CHACHA20_KEYBYTES && StateOf(g, entropy) == s
    modifies g, g.key, g.reserve
    ensures g.Valid() && used <= limit && StateOf(g, entropy) == Past(s, 4 * used)
    ensures found ==> used > 0 && v == StreamWord(s, used - 1) >= min && AllBelow(s, min, used - 1)
    ensures !found ==> AllBelow(s, min, limit)
  {
    NoneBelow(s, min);
    hide *;
    found, v, used := false, 0, 0;
    while used < limit
      invariant !found && used <= limit && g.Valid() && StateOf(g, entropy) == Past(s, 4 * used)
          && AllBelow(s, min, used)
    {
      v := NextWord(g, entropy, s, used);
      used := used + 1;
      if v >= min { found := true; return; }
      OneMoreBelow(s, min, used - 1);
    }
  }

  /* arc4random_uniform: the first word that is not rejected counts.  The source goes on for as long as words are
     rejected; here the caller limits the number of words. */
  method Uniform(g: RngState, upperBound: nat, limit: nat, entropy: Entropy) returns (r: Drawn)
    requires g.Valid() && g.key != g.reserve && upperBound < W32 && |Seed(entropy)| == CHACHA20_KEYBYTES
    modifies g, g.key, g.reserve
    ensures g.Valid()
    ensures upperBound < 2 ==> r == Result(0, 0) && StateOf(g, entropy) == old(StateOf(g, entropy))
    ensures upperBound >= 2 && r.Result? ==>
        Settled(old(StateOf(g, entropy)), upperBound, r, limit)
        && StateOf(g, entropy) == Past(old(StateOf(g, entropy)), 4 * r.used)
    ensures upperBound >= 2 && r.Result? ==>
        r.used > 0 && r.value == StreamWord(old(StateOf(g, entropy)), r.used - 1) % upperBound
    ensures upperBound >= 2 && r.AllRejected? ==> AllBelow(old(StateOf(g, entropy)), Rejected(upperBound), limit)
  {
    if upperBound < 2 { return Result(0, 0); }
    hide StreamWord; hide StateOf; hide Past; hide RngState.Valid; hide Rejected; hide AllBelow;
    var min := Rejected(upperBound);
    var found, v, used := FirstAccepted(g, min, limit, entropy, StateOf(g, entropy));
    r := if found then Result(v % upperBound, used) else AllRejected;
  }

  /* Word number used - 1 is the first that is not rejected. */
  ghost predicate Settled(s: Rng, upperBound: nat, r: Drawn, limit: nat)
    requires 2 <= upperBound < W32 && r.Result?
  {
    && 0 < r.used <= limit && AllBelow(s, Rejected(upperBound), r.used - 1)
    && StreamWord(s, r.used - 1) >= Rejected(upperBound)
    && r.value == StreamWord(s, r.used - 1) % upperBound
  }

  /* The numbers from lo up to hi that are c modulo b. */
  function Residues(lo: nat, hi: nat, b: nat, c: nat): set<nat>
    requires b > 0
  {
    set v: nat | lo <= v < hi && v % b == c
  }

  /* b consecutive numbers contain each residue once. */
  lemma OneInWindow(lo: nat, b: nat, c: nat) returns (x: nat)
    requires c < b
    ensures lo <= x < lo + b && Residues(lo, lo + b, b, c) == {x}
  {
    var q, r := lo / b, lo % b;
    Quotient(lo, b);
    var at := lo - r;
    x := if r <= c then at + c else at + b + c;
    forall v: nat | lo <= v < lo + b ensures v % b == c <==> v == x { InWindow(at, b, q, v); }
  }

  lemma Quotient(x: nat, b: nat)
    requires b > 0
    ensures x == b * (x / b) + x % b && x % b < b
  {}

  /* The residue of a number in one of the two periods from b * q on. */
  lemma InWindow(at: nat, b: nat, q: nat, v: nat)
    requires b > 0 && at == b * q && at <= v < at + 2 * b
    ensures v % b == if v < at + b then v - at else v - at - b
  {
    assert b * (q + 1) == b * q + b;
    if v < at + b { DivMod(v, b, q, v - at); } else { DivMod(v, b, q + 1, v - at - b); }
  }

  /* q whole periods contain each residue q times. */
  lemma {:induction false} ResidueCount(lo: nat, q: nat, b: nat, c: nat)
    requires c < b
    ensures |Residues(lo, lo + q * b, b, c)| == q
    decreases q
  {
    if q == 0 {
      assert Residues(lo, lo, b, c) == {};
    } else {
      var mid := lo + (q - 1) * b;
      assert lo + q * b == mid + b;
      ResidueCount(lo, q - 1, b, c);
      var x := OneInWindow(mid, b, c);
      assert Residues(lo, mid + b, b, c) == Residues(lo, mid, b, c) + {x};
    }
  }

  /* The accepted words that are c modulo b. */
  function WordsFor(b: nat, c: nat): set<nat>
    requires 2 <= b < W32
  {
    Residues(Rejected(b), W32, b, c)
  }

  /* Exactness: a call returns c just when the first accepted word is one of a set of words, and these sets are
     equally large for all c; more than half of all words are accepted. */
  lemma UniformIsExact(b: nat, c: nat)
    requires 2 <= b < W32 && c < b
    ensures |WordsFor(b, c)| == (W32 - Rejected(b)) / b && (W32 - Rejected(b)) % b == 0
    ensures 2 * (W32 - Rejected(b)) > W32
    ensures forall s, r: Drawn, limit: nat {:trigger Settled(s, b, r, limit)} | r.Result? && Settled(s, b, r, limit) ::
        r.value == c <==> StreamWord(s, r.used - 1) in WordsFor(b, c)
  {
    CountExact(b, c);
    RejectedOk(b);
    forall s, r: Drawn, limit: nat | r.Result? && Settled(s, b, r, limit)
      ensures r.value == c <==> StreamWord(s, r.used - 1) in WordsFor(b, c)
    {
      hide StreamWord; hide Rejected; hide AllBelow;
      InResidues(Rejected(b), W32, b, c, StreamWord(s, r.used - 1));
    }
  }

  lemma InResidues(lo: nat, hi: nat, b: nat, c: nat, v: nat)
    requires b > 0 && lo <= v < hi
    ensures v in Residues(lo, hi, b, c) <==> v % b == c
  {}

  lemma CountExact(b: nat, c: nat)
    requires 2 <= b < W32 && c < b
    ensures var min := W32 % b;
            && |Residues(min, W32, b, c)| == (W32 - min) / b
            && (W32 - min) % b == 0 && 2 * (W32 - min) > W32
  {
    RejectedOk(b);
    var min, q := W32 % b, W32 / b;
    assert W32 - min == b * q;
    DivMod(W32 - min, b, q, 0);
    ResidueCount(min, q, b, c);
  }
}
