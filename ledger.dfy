/** The ledger state of the current engine: the block chain, the registered
    peers and the pool of pending transactions, updated in place. */
module Ledger {
  import opened Results
  import opened Unsigned
  import opened ProofOfWork
  import opened Blocks
  import opened Consensus

  const GenesisProof: uint64 := 100
  const GenesisPreviousHash: string := "1"
  /** Sender of the mining reward: the system itself. */
  const RewardSender: string := "0"
  const RewardAmount: uint32 := 1

  class Blockchain {
    /** The digest functions: fixed for the lifetime of the process. */
    const hasher: Hasher
    var chain: seq<Block>
    var nodes: set<string>
    var currentTransactions: seq<Transaction>

    /** Block `i` (0-based) carries index `i + 1`. */
    ghost predicate Indexed()
      reads this
    {
      forall i :: 0 <= i < |chain| ==> chain[i].index == i + 1
    }

    /** The ledger invariant: a non-empty chain, indexed from 1. */
    ghost predicate Valid()
      reads this
    {
      |chain| > 0 && Indexed()
    }

    /** `new`: empty pending pool, no peers, and the genesis block. */
    constructor (hasher: Hasher, now: Timestamp)
      ensures this.hasher == hasher
      ensures chain == [Block(1, now, [], GenesisProof, GenesisPreviousHash)]
      ensures nodes == {} && currentTransactions == []
      ensures Valid() && ValidChain(hasher, chain)
    {
      this.hasher := hasher;
      chain := [];
      nodes := {};
      currentTransactions := [];
      new;
      GenesisBlock(now);
    }

    /** `genesis_block`: appends the block with proof 100 and previous hash "1". */
    method GenesisBlock(now: Timestamp)
      requires |chain| + 1 < U32_LIMIT
      modifies this
      ensures chain == old(chain) + [Block(|old(chain)| + 1, now, old(currentTransactions), GenesisProof, GenesisPreviousHash)]
      ensures currentTransactions == [] && nodes == old(nodes)
      ensures old(Valid()) ==> Valid()
    {
      var _ := NewBlock(GenesisPreviousHash, GenesisProof, now);
    }

    /** `new_block`: appends a block holding the whole pending pool and drains
        the pool. The index is the new chain length; the `as u32` cast never
        truncates because the chain is kept below 2^32 - 1 blocks. */
    method NewBlock(previousHash: string, proof: uint64, now: Timestamp) returns (block: Block)
      requires |chain| + 1 < U32_LIMIT
      modifies this
      ensures block == Block(|old(chain)| + 1, now, old(currentTransactions), proof, previousHash)
      ensures chain == old(chain) + [block]
      ensures block == chain[|chain| - 1]
      ensures currentTransactions == [] && nodes == old(nodes)
      ensures old(Indexed()) ==> Indexed()
      ensures old(Valid()) ==> Valid()
    {
      block := Block(|chain| + 1, now, currentTransactions, proof, previousHash);
      currentTransactions := [];
      chain := chain + [block];
    }

    /** `register_node`: set insertion, so registering an address already
        present changes nothing. */
    method RegisterNode(address: string)
      modifies this
      ensures nodes == old(nodes) + {address}
      ensures address in old(nodes) ==> nodes == old(nodes)
      ensures chain == old(chain) && currentTransactions == old(currentTransactions)
      ensures old(Valid()) ==> Valid()
    {
      nodes := nodes + {address};
    }

    /** `new_transaction`: appends to the pending pool and returns the last
        block's index minus one (the chain length minus one on an indexed
        chain). It unwraps the last block and subtracts from its index, so it
        needs a non-empty chain whose last index is at least 1. */
    method NewTransaction(sender: string, recipient: string, amount: uint32) returns (index: uint32)
      requires |chain| > 0 && chain[|chain| - 1].index >= 1
      modifies this
      ensures currentTransactions == old(currentTransactions) + [Transaction(sender, recipient, amount)]
      ensures chain == old(chain) && nodes == old(nodes)
      ensures index == chain[|chain| - 1].index - 1
      ensures Indexed() ==> index == |chain| - 1
      ensures old(Valid()) ==> Valid()
    {
      currentTransactions := currentTransactions + [Transaction(sender, recipient, amount)];
      index := chain[|chain| - 1].index - 1;
    }

    /** `last_block`: the last block, or nothing on an empty chain. */
    function LastBlock(): (last: Option<Block>)
      reads this
      ensures last.Some? <==> |chain| > 0
      ensures last.Some? ==> last.value == chain[|chain| - 1]
    {
      if |chain| == 0 then None else Some(chain[|chain| - 1])
    }

    /** `last_block_hash`: the digest of the last block (it unwraps the last block). */
    function LastBlockHash(): (d: string)
      reads this
      requires |chain| > 0
      ensures |d| == 64
      ensures d == HashBlock(hasher, chain[|chain| - 1])
    {
      HashBlock(hasher, LastBlock().value)
    }

    /** `proof_of_work`: scans 0, 1, 2, ... and returns the first proof valid
        for the last block's proof. The scan has no bound in the source; the
        ghost `bound` is a valid proof that fits in a `u64`, which is what
        makes the scan stop before `proof += 1` could overflow. */
    method ProofOfWork(ghost bound: uint64) returns (proof: uint64)
      requires |chain| > 0
      requires ValidProof(hasher.sha256Hex, chain[|chain| - 1].proof, bound)
      ensures IsLeastProof(hasher.sha256Hex, chain[|chain| - 1].proof, proof)
      ensures proof <= bound
    {
      var lastProof := chain[|chain| - 1].proof;
      proof := 0;
      while !ValidProof(hasher.sha256Hex, lastProof, proof)
        invariant proof <= bound
        invariant forall q: nat :: q < proof ==> !ValidProof(hasher.sha256Hex, lastProof, q)
        decreases bound - proof
      {
        proof := proof + 1;
      }
    }

    /** `mine`: finds the proof for the last block, adds the reward
        transaction, and appends a block linked to the old last block. It
        always succeeds, and a valid chain stays valid. */
    method Mine(nodeIdentifier: string, now: Timestamp, ghost bound: uint64) returns (r: Result<Block>)
      requires |chain| > 0 && chain[|chain| - 1].index >= 1
      requires |chain| + 1 < U32_LIMIT
      requires ValidProof(hasher.sha256Hex, chain[|chain| - 1].proof, bound)
      modifies this
      ensures r.Ok?
      ensures |chain| == |old(chain)| + 1 && chain[..|old(chain)|] == old(chain)
      ensures r.value == chain[|chain| - 1]
      ensures r.value.index == |old(chain)| + 1 && r.value.timestamp == now
      ensures r.value.transactions == old(currentTransactions) + [Transaction(RewardSender, nodeIdentifier, RewardAmount)]
      ensures r.value.previousHash == HashBlock(hasher, old(chain)[|old(chain)| - 1])
      ensures IsLeastProof(hasher.sha256Hex, old(chain)[|old(chain)| - 1].proof, r.value.proof)
      ensures Linked(hasher, old(chain)[|old(chain)| - 1], r.value)
      ensures currentTransactions == [] && nodes == old(nodes)
      ensures old(Indexed()) ==> Indexed()
      ensures old(Valid()) ==> Valid()
      ensures old(ValidChain(hasher, chain)) ==> ValidChain(hasher, chain)
    {
      var proof := ProofOfWork(bound);
      var _ := NewTransaction(RewardSender, nodeIdentifier, RewardAmount);
      var previousHash := LastBlockHash();
      var block := NewBlock(previousHash, proof, now);
      ValidChainSnoc(hasher, old(chain), block);
      r := Ok(block);
    }

    /** `resolve_conflicts` as written: the peer requests are built but never
        driven, so no candidate is ever compared. It reports that the chain
        was not replaced and changes nothing. */
    method ResolveConflicts() returns (replaced: bool)
      ensures !replaced
    {
      replaced := false;
    }

    /** `resolve_conflicts` as intended: `responses` holds each peer's answer in
        the iteration order of `nodes`. The first-seen longest valid chain
        strictly longer than the local one replaces the local chain; the
        pending pool and the peers are left alone. */
    method ResolveConflictsAdopting(responses: seq<Response>) returns (replaced: bool)
      modifies this
      ensures replaced <==> exists i :: 0 <= i < |responses| && Beats(hasher, |old(chain)|, responses[i])
      ensures !replaced ==> chain == old(chain)
      ensures replaced ==> |chain| > |old(chain)| && ValidChain(hasher, chain)
      ensures replaced ==> exists k :: IsFirstLongest(hasher, |old(chain)|, responses, k) && responses[k] == Some(chain)
      ensures currentTransactions == old(currentTransactions) && nodes == old(nodes)
    {
      var maxLength, newChain := SelectLongest(hasher, |chain|, responses);
      replaced := newChain != [];
      if replaced {
        chain := newChain;
      }
    }
  }

  /** The discrepancy between the two: whenever some peer offers a strictly
      longer valid chain, the routine as written still reports no replacement
      and keeps the local chain, while the intended one adopts it. */
  method ResolveDiscrepancy(ledger: Blockchain, responses: seq<Response>)
    returns (asWritten: bool, intended: bool)
    requires exists i :: 0 <= i < |responses| && Beats(ledger.hasher, |ledger.chain|, responses[i])
    modifies ledger
    ensures !asWritten && intended
    ensures |ledger.chain| > |old(ledger.chain)|
  {
    asWritten := ledger.ResolveConflicts();
    assert ledger.chain == old(ledger.chain);
    intended := ledger.ResolveConflictsAdopting(responses);
  }

  /** A fresh ledger, one submitted transaction, then a block mined: the block
      holds that transaction followed by the single reward, the pool is empty,
      and the two-block chain passes `valid_chain`. */
  method TransactThenMine(hasher: Hasher, now: Timestamp, later: Timestamp,
                          sender: string, recipient: string, amount: uint32,
                          miner: string, ghost bound: uint64)
    returns (ledger: Blockchain, block: Block, valid: bool)
    requires ValidProof(hasher.sha256Hex, GenesisProof, bound)
    ensures fresh(ledger)
    ensures block.transactions == [Transaction(sender, recipient, amount), Transaction(RewardSender, miner, RewardAmount)]
    ensures ledger.currentTransactions == [] && |ledger.chain| == 2
    ensures valid
  {
    ledger := new Blockchain(hasher, now);
    var index := ledger.NewTransaction(sender, recipient, amount);
    assert index == 0;
    var r := ledger.Mine(miner, later, bound);
    block := r.value;
    valid := CheckChain(hasher, ledger.chain);
  }
}
