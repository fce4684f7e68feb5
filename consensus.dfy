/** Chain validation and the longest-valid-chain selection rule. */
module Consensus {
  import opened Results
  import opened Unsigned
  import opened ProofOfWork
  import opened Blocks

  /** Every block after the first is linked to its predecessor. The first
      block (the genesis block) is exempt. */
  predicate ValidChain(h: Hasher, chain: seq<Block>) {
    forall i :: 1 <= i < |chain| ==> Linked(h, chain[i - 1], chain[i])
  }

  /** `valid_chain`: walks the adjacent pairs and stops at the first broken link.
      It indexes `chain[0]`, so it needs a non-empty chain. */
  method CheckChain(h: Hasher, chain: seq<Block>) returns (valid: bool)
    requires |chain| > 0
    ensures valid <==> forall i :: 1 <= i < |chain| ==>
      chain[i].previousHash == HashBlock(h, chain[i - 1]) &&
      ValidProof(h.sha256Hex, chain[i - 1].proof, chain[i].proof)
    ensures valid == ValidChain(h, chain)
  {
    var lastBlock := chain[0];
    var currentIndex := 1;
    while currentIndex < |chain|
      invariant 1 <= currentIndex <= |chain|
      invariant lastBlock == chain[currentIndex - 1]
      invariant forall i :: 1 <= i < currentIndex ==> Linked(h, chain[i - 1], chain[i])
    {
      var block := chain[currentIndex];
      if block.previousHash != HashBlock(h, lastBlock) {
        return false;
      }
      if !ValidProof(h.sha256Hex, lastBlock.proof, block.proof) {
        return false;
      }
      lastBlock := block;
      currentIndex := currentIndex + 1;
    }
    return true;
  }

  /** A chain holding only its genesis block is valid. */
  lemma SingleBlockValid(h: Hasher, genesis: Block)
    ensures ValidChain(h, [genesis])
  {
  }

  /** Appending a block keeps a chain valid exactly when the new block is
      linked to the old last block. */
  lemma ValidChainSnoc(h: Hasher, chain: seq<Block>, block: Block)
    requires |chain| > 0
    ensures ValidChain(h, chain + [block]) <==> ValidChain(h, chain) && Linked(h, chain[|chain| - 1], block)
  {
    var extended := chain + [block];
    if ValidChain(h, extended) {
      forall i | 1 <= i < |chain| ensures Linked(h, chain[i - 1], chain[i]) {
        assert extended[i - 1] == chain[i - 1] && extended[i] == chain[i];
      }
      assert extended[|chain|] == block && extended[|chain| - 1] == chain[|chain| - 1];
    }
  }

  /** Rewriting the `previous_hash` of any block after the first breaks a valid chain. */
  lemma TamperedHashInvalid(h: Hasher, chain: seq<Block>, i: nat, forged: string)
    requires ValidChain(h, chain)
    requires 1 <= i < |chain|
    requires forged != chain[i].previousHash
    ensures !ValidChain(h, chain[i := chain[i].(previousHash := forged)])
  {
    var tampered := chain[i := chain[i].(previousHash := forged)];
    assert tampered[i - 1] == chain[i - 1];
    assert !Linked(h, tampered[i - 1], tampered[i]);
  }

  /** Replacing the proof of any block after the first with one that does not
      satisfy the puzzle breaks the chain. */
  lemma TamperedProofInvalid(h: Hasher, chain: seq<Block>, i: nat, forged: uint64)
    requires 1 <= i < |chain|
    requires !ValidProof(h.sha256Hex, chain[i - 1].proof, forged)
    ensures !ValidChain(h, chain[i := chain[i].(proof := forged)])
  {
    var tampered := chain[i := chain[i].(proof := forged)];
    assert tampered[i - 1] == chain[i - 1];
    assert !Linked(h, tampered[i - 1], tampered[i]);
  }

  /** What `new_consensus` accepts: a candidate strictly longer than
      `maxLength` whose every adjacent pair is linked. */
  predicate Accepts(h: Hasher, maxLength: nat, newChain: seq<Block>) {
    |newChain| > maxLength && ValidChain(h, newChain)
  }

  /** `new_consensus`: the length test comes first and short-circuits, so the
      chain walk is only reached with a chain of at least one block, which is
      what it needs to index `chain[0]`. */
  method NewConsensus(h: Hasher, maxLength: nat, newChain: seq<Block>) returns (accepted: bool)
    ensures accepted <==> |newChain| > maxLength && forall i :: 1 <= i < |newChain| ==>
      newChain[i].previousHash == HashBlock(h, newChain[i - 1]) &&
      ValidProof(h.sha256Hex, newChain[i - 1].proof, newChain[i].proof)
    ensures accepted == Accepts(h, maxLength, newChain)
    ensures accepted ==> |newChain| > 0
  {
    if |newChain| > maxLength {
      accepted := CheckChain(h, newChain);
    } else {
      accepted := false;
    }
  }

  /** A peer response: `None` when the request failed or the status was not OK. */
  type Response = Option<seq<Block>>

  /** A peer response that `new_consensus` would accept against `maxLength`. */
  predicate Beats(h: Hasher, maxLength: nat, response: Response) {
    response.Some? && Accepts(h, maxLength, response.value)
  }

  /** Response `k` is the selection: it beats the local length, no accepted
      response is longer, and every earlier accepted response is strictly
      shorter (first seen wins among equals). */
  predicate IsFirstLongest(h: Hasher, localLength: nat, responses: seq<Response>, k: int) {
    && 0 <= k < |responses|
    && Beats(h, localLength, responses[k])
    && (forall i :: 0 <= i < |responses| && Beats(h, localLength, responses[i]) ==>
          |responses[i].value| <= |responses[k].value|)
    && (forall i :: 0 <= i < k && Beats(h, localLength, responses[i]) ==>
          |responses[i].value| < |responses[k].value|)
  }

  /** The tie-break is deterministic: at most one response is the selection. */
  lemma FirstLongestUnique(h: Hasher, localLength: nat, responses: seq<Response>, j: int, k: int)
    requires IsFirstLongest(h, localLength, responses, j)
    requires IsFirstLongest(h, localLength, responses, k)
    ensures j == k
  {
  }

  /** The selection loop of `resolve_conflicts`: for each peer response, in
      iteration order, a chain that `new_consensus` accepts against the best
      length so far becomes the new best. `localLength` is the local chain's
      length, the starting `max_length`. */
  method SelectLongest(h: Hasher, localLength: nat, responses: seq<Response>)
    returns (maxLength: nat, newChain: seq<Block>)
    ensures (exists i :: 0 <= i < |responses| && Beats(h, localLength, responses[i])) <==> newChain != []
    ensures newChain == [] ==> maxLength == localLength
    ensures newChain != [] ==> maxLength == |newChain| > localLength && ValidChain(h, newChain)
    ensures newChain != [] ==> exists k :: IsFirstLongest(h, localLength, responses, k) && responses[k] == Some(newChain)
  {
    maxLength := localLength;
    newChain := [];
    ghost var winner := -1;
    for i := 0 to |responses|
      invariant maxLength >= localLength
      invariant winner == -1 ==> newChain == [] && maxLength == localLength
      invariant winner == -1 ==> forall j :: 0 <= j < i ==> !Beats(h, localLength, responses[j])
      invariant winner != -1 ==> 0 <= winner < i && responses[winner] == Some(newChain)
      invariant winner != -1 ==> maxLength == |newChain| && Accepts(h, localLength, newChain)
      invariant winner != -1 ==> forall j :: 0 <= j < i && Beats(h, localLength, responses[j]) ==>
        |responses[j].value| <= maxLength
      invariant winner != -1 ==> forall j :: 0 <= j < winner && Beats(h, localLength, responses[j]) ==>
        |responses[j].value| < maxLength
    {
      match responses[i]
      case None =>
      case Some(candidate) =>
        var accepted := NewConsensus(h, maxLength, candidate);
        if accepted {
          maxLength := |candidate|;
          newChain := candidate;
          winner := i;
        }
    }
    if winner != -1 {
      assert IsFirstLongest(h, localLength, responses, winner);
    }
  }

  /** The selection never adopts a chain that fails validation, however long
      it is and wherever it stands among the responses. */
  method NeverAdoptsInvalid(h: Hasher, localLength: nat, responses: seq<Response>, i: nat, forged: seq<Block>)
    returns (maxLength: nat, newChain: seq<Block>)
    requires i < |responses| && responses[i] == Some(forged)
    requires !ValidChain(h, forged)
    ensures newChain != forged
  {
    maxLength, newChain := SelectLongest(h, localLength, responses);
  }

  /** Local chain of length 3; peer A answers with a valid chain of length 5;
      peer B is unreachable. A's chain is selected. */
  method AdoptsLongerPeer(h: Hasher, peerA: seq<Block>)
    returns (maxLength: nat, newChain: seq<Block>)
    requires ValidChain(h, peerA) && |peerA| == 5
    ensures newChain == peerA && maxLength == 5
  {
    var responses: seq<Response> := [Some(peerA), None];
    assert Beats(h, 3, responses[0]);
    maxLength, newChain := SelectLongest(h, 3, responses);
    ghost var k :| IsFirstLongest(h, 3, responses, k) && responses[k] == Some(newChain);
    assert k == 0;
  }
}
