/**
 The proof-of-work search `mine(prefix, difficulty)`: try nonces 0, 1, 2, ...
 in order, hash `prefix` followed by the decimal text of the nonce, and stop
 at the first digest that starts with `difficulty` zeros.

 The hash is a parameter `hash: string -> string` standing for SHA-256
 (FIPS 180-4, section 6.2) of the UTF-8 encoding of its argument, rendered
 as lowercase hexadecimal. Nothing below depends on what the hash computes,
 only on it being a function.
 */
module Mining {
  import opened Decimal
  import opened Difficulty

  /** The hashed text: the prefix immediately followed by the nonce's decimal text. */
  function Payload(prefix: string, nonce: nat): (p: string)
    ensures |p| > |prefix|
    ensures p[..|prefix|] == prefix
    ensures p[|prefix|..] == Dec(nonce)
  {
    prefix + Dec(nonce)
  }

  /** For one prefix, different nonces are hashed as different texts. */
  lemma PayloadInjective(prefix: string, n: nat, m: nat)
    ensures Payload(prefix, n) == Payload(prefix, m) <==> n == m
  {
    if Payload(prefix, n) == Payload(prefix, m) {
      DecInjective(n, m);
    }
  }

  /** With no separator, a payload does not determine its prefix: different prefixes and nonces can hash the same text. */
  lemma PayloadHasNoSeparator()
    ensures exists p1: string, p2: string, n1: nat, n2: nat :: p1 != p2 && Payload(p1, n1) == Payload(p2, n2)
  {
    assert Payload("arthur1", 2) == Payload("arthur", 12);
  }

  /** `nonce` is accepted: the digest of its payload passes the acceptance test. */
  predicate Hits(hash: string -> string, prefix: string, d: int, nonce: nat) {
    Accepts(d, hash(Payload(prefix, nonce)))
  }

  /** `nonce` is accepted and no smaller nonce is. */
  predicate IsFirstHit(hash: string -> string, prefix: string, d: int, nonce: nat) {
    && Hits(hash, prefix, d, nonce)
    && forall k: nat :: k < nonce ==> !Hits(hash, prefix, d, k)
  }

  /** What one run reports, without the elapsed time. */
  datatype MiningResult = MiningResult(nonce: nat, digest: string)

  /**
   Reference definition of the search: the first accepted nonce at or after
   `from`, given an accepted nonce `bound` that caps the search.
   */
  function FirstHitFrom(hash: string -> string, prefix: string, d: int, from: nat, bound: nat): (n: nat)
    requires from <= bound
    requires Hits(hash, prefix, d, bound)
    ensures from <= n <= bound
    ensures Hits(hash, prefix, d, n)
    ensures forall k: nat :: from <= k < n ==> !Hits(hash, prefix, d, k)
    decreases bound - from
  {
    if Hits(hash, prefix, d, from) then from
    else FirstHitFrom(hash, prefix, d, from + 1, bound)
  }

  /** There is at most one first hit for a given prefix, difficulty and hash. */
  lemma FirstHitUnique(hash: string -> string, prefix: string, d: int, n: nat, m: nat)
    requires IsFirstHit(hash, prefix, d, n)
    requires IsFirstHit(hash, prefix, d, m)
    ensures n == m
  {
  }

  /**
   The reference search from 0 finds the first hit, whichever accepted
   nonce caps it: the answer depends on the prefix, the difficulty and the
   hash alone.
   */
  lemma FirstHitIndependentOfBound(hash: string -> string, prefix: string, d: int, b1: nat, b2: nat)
    requires Hits(hash, prefix, d, b1)
    requires Hits(hash, prefix, d, b2)
    ensures IsFirstHit(hash, prefix, d, FirstHitFrom(hash, prefix, d, 0, b1))
    ensures FirstHitFrom(hash, prefix, d, 0, b1) == FirstHitFrom(hash, prefix, d, 0, b2)
  {
    var n1 := FirstHitFrom(hash, prefix, d, 0, b1);
    var n2 := FirstHitFrom(hash, prefix, d, 0, b2);
    FirstHitUnique(hash, prefix, d, n1, n2);
  }

  /**
   A harder target never lets the search stop earlier: the first hit at
   difficulty `d1` is at most the first hit at any `d2 >= d1`.
   */
  lemma FirstHitMonotone(hash: string -> string, prefix: string, d1: int, d2: int, n1: nat, n2: nat)
    requires d1 <= d2
    requires IsFirstHit(hash, prefix, d1, n1)
    requires IsFirstHit(hash, prefix, d2, n2)
    ensures n1 <= n2
  {
    AcceptsMonotone(d1, d2, hash(Payload(prefix, n2)));
    assert Hits(hash, prefix, d1, n2);
  }

  /** If every digest has `len` characters, a difficulty above `len` has no hit at all, so the search never finds a nonce. */
  lemma NoHitAboveDigestLength(hash: string -> string, prefix: string, d: int, len: nat, nonce: nat)
    requires forall s :: |hash(s)| == len
    requires len < d
    ensures !Hits(hash, prefix, d, nonce)
  {
    ShortDigestRejected(d, hash(Payload(prefix, nonce)));
  }

  /**
   `mine(prefix, difficulty)` without the clock and the printing. The loop of
   the source is unbounded; the ghost `bound`, some accepted nonce, is what
   makes it terminate. The ghost `attempts` counts the hashes computed.
   */
  method Mine(hash: string -> string, prefix: string, difficulty: int, ghost bound: nat)
    returns (r: MiningResult, ghost attempts: nat)
    requires Hits(hash, prefix, difficulty, bound)
    ensures r.digest == hash(Payload(prefix, r.nonce))
    ensures Accepts(difficulty, r.digest)
    ensures forall k: nat :: k < r.nonce ==> !Hits(hash, prefix, difficulty, k)
    ensures r.nonce == FirstHitFrom(hash, prefix, difficulty, 0, bound)
    ensures attempts == r.nonce + 1
    ensures difficulty <= 0 ==> r.nonce == 0 && attempts == 1
  {
    var target := Target(difficulty);
    var nonce: nat := 0;
    attempts := 0;
    while true
      invariant nonce <= bound
      invariant attempts == nonce
      invariant forall k: nat :: k < nonce ==> !Hits(hash, prefix, difficulty, k)
      decreases bound - nonce
    {
      var payload := Payload(prefix, nonce);
      var digest := hash(payload);
      attempts := attempts + 1;
      if StartsWith(digest, target) {
        r := MiningResult(nonce, digest);
        FirstHitIndependentOfBound(hash, prefix, difficulty, nonce, bound);
        FirstHitUnique(hash, prefix, difficulty, nonce, FirstHitFrom(hash, prefix, difficulty, 0, bound));
        return;
      }
      nonce := nonce + 1;
    }
  }
}
