/**
 The acceptance test of the miner: a digest is accepted when it starts with
 the target, a run of `difficulty` '0' characters. Difficulty is an `int` as
 in the source; Python's `"0" * d` is the empty string for every `d <= 0`,
 so a negative difficulty accepts every digest, like difficulty 0.
 */
module Difficulty {

  /** Python's `s.startswith(p)`: false, not an error, when `s` is shorter than `p`. */
  function StartsWith(s: string, p: string): (b: bool)
    ensures b <==> |p| <= |s| && forall i :: 0 <= i < |p| ==> s[i] == p[i]
  {
    |p| <= |s| && s[..|p|] == p
  }

  /** Python's `"0" * d`. */
  function Target(d: int): (t: string)
    ensures |t| == if d <= 0 then 0 else d
    ensures forall i :: 0 <= i < |t| ==> t[i] == '0'
    decreases d
  {
    if d <= 0 then "" else "0" + Target(d - 1)
  }

  /** `digest.startswith(target)`: the first `d` characters exist and are all '0'. */
  function Accepts(d: int, digest: string): (ok: bool)
    ensures ok <==> d <= |digest| && forall i :: 0 <= i < d ==> digest[i] == '0'
  {
    StartsWith(digest, Target(d))
  }

  /** A digest shorter than the target is rejected rather than read past its end. */
  lemma ShortDigestRejected(d: int, digest: string)
    requires |digest| < d
    ensures !Accepts(d, digest)
  {
  }

  /** At difficulty 0 or below the target is empty and every digest is accepted. */
  lemma TrivialDifficultyAcceptsAll(d: int, digest: string)
    requires d <= 0
    ensures Target(d) == ""
    ensures Accepts(d, digest)
  {
  }

  /** Raising the difficulty only removes accepted digests. */
  lemma AcceptsMonotone(d1: int, d2: int, digest: string)
    requires d1 <= d2
    ensures Accepts(d2, digest) ==> Accepts(d1, digest)
  {
  }
}
