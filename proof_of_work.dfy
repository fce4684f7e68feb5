/** The proof-of-work predicate: a proof is valid for the previous proof when
    the SHA-256 hex digest of their concatenated decimal numerals starts with
    four zero digits. SHA-256 itself is foreign and enters as a parameter. */
module ProofOfWork {
  import opened Decimal

  /** A lowercase hex SHA-256 digest: always 64 characters. */
  type Digest = s: string | |s| == 64
    witness "0000000000000000000000000000000000000000000000000000000000000000"

  /** Fixed difficulty: the digest prefix a valid proof must produce. */
  const Target: string := "0000"

  /** The string that is hashed: `last_proof.to_string()` followed by `proof.to_string()`. */
  function Guess(lastProof: nat, proof: nat): string {
    Render(lastProof) + Render(proof)
  }

  /** `valid_proof`: the digest of the guess starts with the target prefix,
      that is, its first four hex characters are all '0'. */
  predicate ValidProof(sha256Hex: string -> Digest, lastProof: nat, proof: nat): (valid: bool)
    ensures valid <==> forall i :: 0 <= i < |Target| ==> sha256Hex(Guess(lastProof, proof))[i] == '0'
  {
    var digest := sha256Hex(Guess(lastProof, proof));
    TargetPrefix(digest);
    digest[..4] == Target
  }

  /** Matching the target prefix means the first four characters are '0'. */
  lemma TargetPrefix(digest: Digest)
    ensures digest[..4] == Target <==> forall i :: 0 <= i < |Target| ==> digest[i] == '0'
  {
    if forall i :: 0 <= i < |Target| ==> digest[i] == '0' {
      assert digest[..4] == [digest[0], digest[1], digest[2], digest[3]];
    }
  }

  /** `proof` is what the linear search from 0 stops at: valid, and no smaller candidate is. */
  predicate IsLeastProof(sha256Hex: string -> Digest, lastProof: nat, proof: nat) {
    && ValidProof(sha256Hex, lastProof, proof)
    && forall q: nat :: q < proof ==> !ValidProof(sha256Hex, lastProof, q)
  }

  /** The search result is determined by the previous proof alone. */
  lemma LeastProofUnique(sha256Hex: string -> Digest, lastProof: nat, p: nat, q: nat)
    requires IsLeastProof(sha256Hex, lastProof, p)
    requires IsLeastProof(sha256Hex, lastProof, q)
    ensures p == q
  {
  }

  /** The verdict depends only on the concatenated numerals, so pairs that
      concatenate alike share it; for instance (1, 23) and (12, 3). */
  lemma SameGuessSameVerdict(sha256Hex: string -> Digest, a: nat, b: nat, c: nat, d: nat)
    requires Render(a) + Render(b) == Render(c) + Render(d)
    ensures ValidProof(sha256Hex, a, b) == ValidProof(sha256Hex, c, d)
  {
  }

  lemma SplitAmbiguity(sha256Hex: string -> Digest)
    ensures ValidProof(sha256Hex, 1, 23) == ValidProof(sha256Hex, 12, 3)
    ensures Guess(1, 23) == "123"
  {
    assert Render(1) == "1" && Render(23) == "23";
    assert Render(12) == "12" && Render(3) == "3";
    assert Guess(1, 23) == Guess(12, 3);
  }

  /** The digests the unit tests depend on: SHA-256("88484") starts with four
      zeros and SHA-256("2342") does not. */
  predicate AgreesWithTestDigests(sha256Hex: string -> Digest) {
    && sha256Hex("88484")[..4] == Target
    && sha256Hex("2342")[..4] != Target
  }

  /** Under those digests, (88, 484) is a valid proof pair and (23, 42) is not. */
  lemma TestFixtures(sha256Hex: string -> Digest)
    requires AgreesWithTestDigests(sha256Hex)
    ensures ValidProof(sha256Hex, 88, 484)
    ensures !ValidProof(sha256Hex, 23, 42)
  {
    assert Render(88) == "88";
    assert Render(484) == "484";
    assert Guess(88, 484) == "88484";
    assert Render(23) == "23";
    assert Render(42) == "42";
    assert Guess(23, 42) == "2342";
  }
}
