/** The proof-of-work puzzle on hexadecimal digest strings: a digest seals a
    block at difficulty d when its first d characters are all '0'. The mining
    loop of both Block classes compares `hash.substring(0, difficulty)` with a
    target built as `Array(difficulty + 1).join('0')`; this module gives those
    two string expressions their JavaScript meaning and proves what the
    comparison amounts to. */
module ProofOfWork {

  /** `Array(n).join(sep)`: the n slots of a fresh array are empty and render
      as "", so the result is n - 1 copies of sep (and "" when n <= 1). */
  function JoinEmpty(n: nat, sep: string): string
  {
    if n <= 1 then "" else JoinEmpty(n - 1, sep) + sep
  }

  /** The mining target `Array(difficulty + 1).join('0')`. */
  function Target(difficulty: nat): string
  {
    JoinEmpty(difficulty + 1, "0")
  }

  /** `s.substring(0, n)` for n >= 0: JavaScript clamps the end index to the
      length of the string. */
  function LeadingChars(s: string, n: nat): (r: string)
    ensures |r| == if n <= |s| then n else |s|
    ensures r <= s
  {
    if n <= |s| then s[..n] else s
  }

  /** The exit condition of the mining loop: the digest's leading characters
      equal the target. */
  predicate MeetsTarget(hash: string, difficulty: nat)
  {
    LeadingChars(hash, difficulty) == Target(difficulty)
  }

  predicate AllZeros(s: string)
  {
    forall i :: 0 <= i < |s| ==> s[i] == '0'
  }

  /** The target is exactly `difficulty` '0' characters. */
  lemma {:induction false} TargetIsZeros(difficulty: nat)
    ensures |Target(difficulty)| == difficulty
    ensures AllZeros(Target(difficulty))
  {
    if difficulty > 0 {
      TargetIsZeros(difficulty - 1);
      assert Target(difficulty) == Target(difficulty - 1) + "0";
    }
  }

  /** A digest meets the target exactly when it has at least `difficulty`
      characters and the first `difficulty` of them are all '0'. A digest
      shorter than the difficulty never meets it, because substring clamps. */
  lemma MeetsTargetIffLeadingZeros(hash: string, difficulty: nat)
    ensures MeetsTarget(hash, difficulty) <==>
            difficulty <= |hash| && AllZeros(hash[..difficulty])
  {
    TargetIsZeros(difficulty);
    if difficulty <= |hash| && AllZeros(hash[..difficulty]) {
      var t := Target(difficulty);
      assert forall i :: 0 <= i < difficulty ==> hash[..difficulty][i] == t[i];
      assert LeadingChars(hash, difficulty) == t;
    }
  }

  /** At difficulty 0 the target is empty, so every digest meets it. */
  lemma MeetsZeroDifficulty(hash: string)
    ensures MeetsTarget(hash, 0)
  {
  }
}
