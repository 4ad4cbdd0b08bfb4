/** The proof-of-work puzzle of blockchain.py: `validProof` and the linear
    search `proofOfWork`.

    SHA-256 is a foreign library call, so it enters as a parameter
    `sha256: string -> string` mapping the guess string to its hexadecimal
    digest. A Dafny function value is deterministic, which is the only
    property of the digest the puzzle relies on. */
module Pow {
  import Decimal

  /** The required prefix of the digest: four '0' hex characters. */
  const Target: string := "0000"

  /** Python's `h[:n]`: a string shorter than `n` is returned whole. */
  function Prefix(h: string, n: nat): (p: string)
    ensures |p| == if |h| < n then |h| else n
    ensures p <= h
  {
    if |h| < n then h else h[..n]
  }

  /** `f'{last_proof}{proof}'`: the two numerals, previous proof first, no separator. */
  /** `f'{last_proof}{proof}'`: the two numerals, previous proof first, no separator. */
  function Guess(lastProof: int, proof: int): string {
    Decimal.IntToDecimal(lastProof) + Decimal.IntToDecimal(proof)
  }

  /** Split at the length of the first numeral, the guess reads back as the
      two proofs. */
  lemma GuessReadsBack(lastProof: int, proof: int)
    ensures var g, k := Guess(lastProof, proof), |Decimal.IntToDecimal(lastProof)|;
      0 < k < |g| &&
      Decimal.IsNumeral(g[..k]) && Decimal.ParseInt(g[..k]) == lastProof &&
      Decimal.IsNumeral(g[k..]) && Decimal.ParseInt(g[k..]) == proof
  {
    var a, b := Decimal.IntToDecimal(lastProof), Decimal.IntToDecimal(proof);
    Decimal.IntRoundTrip(lastProof);
    Decimal.IntRoundTrip(proof);
    assert (a + b)[..|a|] == a && (a + b)[|a|..] == b;
  }

  /** `validProof(last_proof, proof)`: the digest of the guess passes exactly
      when it has at least four characters and the first four are all '0'. */
  predicate ValidProof(sha256: string -> string, lastProof: int, proof: int)
    ensures ValidProof(sha256, lastProof, proof) <==>
      var h := sha256(Guess(lastProof, proof));
      |h| >= 4 && h[0] == '0' && h[1] == '0' && h[2] == '0' && h[3] == '0'
  {
    var h := sha256(Guess(lastProof, proof));
    assert |h| >= 4 && h[0] == '0' && h[1] == '0' && h[2] == '0' && h[3] == '0' ==> h[..4] == Target;
    Prefix(h, |Target|) == Target
  }

  /** For a fixed previous proof, distinct candidates are hashed from distinct guesses. */
  lemma GuessInjectiveInCandidate(lastProof: int, p: int, q: int)
    requires Guess(lastProof, p) == Guess(lastProof, q)
    ensures p == q
  {
    var a := Decimal.IntToDecimal(lastProof);
    assert Decimal.IntToDecimal(p) == Guess(lastProof, p)[|a|..];
    assert Decimal.IntToDecimal(q) == Guess(lastProof, q)[|a|..];
    Decimal.IntToDecimalInjective(p, q);
  }

  /** Without a separator, different pairs can share a guess: (1, 23) and
      (12, 3) both hash "123", so one is valid exactly when the other is. */
  lemma GuessAmbiguousAcrossPairs(sha256: string -> string)
    ensures Guess(1, 23) == Guess(12, 3) == "123"
    ensures ValidProof(sha256, 1, 23) == ValidProof(sha256, 12, 3)
  {
    assert Decimal.NatToDecimal(23) == Decimal.NatToDecimal(2) + [Decimal.DigitChar(3)];
    assert Decimal.NatToDecimal(12) == Decimal.NatToDecimal(1) + [Decimal.DigitChar(2)];
  }

  /** `p` is what the search returns: the least non-negative valid candidate. */
  predicate IsLeastValidProof(sha256: string -> string, lastProof: int, p: int) {
    p >= 0 && ValidProof(sha256, lastProof, p) &&
    forall q :: 0 <= q < p ==> !ValidProof(sha256, lastProof, q)
  }

  /** The search result is determined by its input: two least valid proofs coincide. */
  lemma LeastValidProofUnique(sha256: string -> string, lastProof: int, p: int, p': int)
    requires IsLeastValidProof(sha256, lastProof, p)
    requires IsLeastValidProof(sha256, lastProof, p')
    ensures p == p'
  {
  }

  /** `proofOfWork(last_proof)`: scan 0, 1, 2, ... and return the first
      candidate `validProof` accepts. The source loops forever when no
      candidate is valid; the precondition names a valid candidate, which is
      the termination argument the source leaves implicit. */
  method ProofOfWork(sha256: string -> string, lastProof: int) returns (proof: int)
    requires exists w: int :: w >= 0 && ValidProof(sha256, lastProof, w)
    ensures IsLeastValidProof(sha256, lastProof, proof)
  {
    ghost var w: int :| w >= 0 && ValidProof(sha256, lastProof, w);
    proof := 0;
    while !ValidProof(sha256, lastProof, proof)
      invariant 0 <= proof <= w
      invariant forall q :: 0 <= q < proof ==> !ValidProof(sha256, lastProof, q)
      decreases w - proof
    {
      proof := proof + 1;
    }
  }
}
