/** The older snapshot of the ledger: the same chain and pending pool, with
    `u32` proofs and a `u32` previous hash, and no peers. */
module LegacyLedger {
  import opened Results
  import opened Unsigned
  import opened ProofOfWork
  import Blocks

  type Timestamp = Blocks.Timestamp
  /** The same transaction record as the current ledger's. */
  type Transaction = Blocks.Transaction

  const GenesisProof: uint32 := 100
  const GenesisPreviousHash: uint32 := 1

  datatype Block = Block(
    index: uint32,
    timestamp: Timestamp,
    transactions: seq<Transaction>,
    proof: uint32,
    previousHash: uint32)

  class Blockchain {
    /** SHA-256 rendered as lowercase hex: fixed for the lifetime of the process. */
    const sha256Hex: string -> Digest
    var chain: seq<Block>
    var currentTransactions: seq<Transaction>

    ghost predicate Valid()
      reads this
    {
      && |chain| > 0
      && forall i :: 0 <= i < |chain| ==> chain[i].index == i + 1
    }

    /** `new`: an empty pending pool and the genesis block. */
    constructor (sha256Hex: string -> Digest, now: Timestamp)
      ensures this.sha256Hex == sha256Hex
      ensures chain == [Block(1, now, [], GenesisProof, GenesisPreviousHash)]
      ensures currentTransactions == []
      ensures Valid()
    {
      this.sha256Hex := sha256Hex;
      chain := [];
      currentTransactions := [];
      new;
      GenesisBlock(now);
    }

    /** `genesis_block`: appends the block with proof 100 and previous hash 1. */
    method GenesisBlock(now: Timestamp)
      requires |chain| + 1 < U32_LIMIT
      modifies this
      ensures chain == old(chain) + [Block(|old(chain)| + 1, now, old(currentTransactions), GenesisProof, GenesisPreviousHash)]
      ensures currentTransactions == []
      ensures old(Valid()) ==> Valid()
    {
      NewBlock(GenesisPreviousHash, GenesisProof, now);
    }

    /** `new_block`: appends a block holding the whole pending pool and drains
        the pool; earlier blocks are untouched. */
    method NewBlock(previousHash: uint32, proof: uint32, now: Timestamp)
      requires |chain| + 1 < U32_LIMIT
      modifies this
      ensures |chain| == |old(chain)| + 1 && chain[..|old(chain)|] == old(chain)
      ensures chain[|chain| - 1] == Block(|old(chain)| + 1, now, old(currentTransactions), proof, previousHash)
      ensures currentTransactions == []
      ensures old(Valid()) ==> Valid()
    {
      var block := Block(|chain| + 1, now, currentTransactions, proof, previousHash);
      currentTransactions := [];
      chain := chain + [block];
    }

    /** `new_transaction`: appends to the pending pool and returns the last
        block's index minus one. */
    method NewTransaction(sender: string, recipient: string, amount: uint32) returns (index: uint32)
      requires |chain| > 0 && chain[|chain| - 1].index >= 1
      modifies this
      ensures currentTransactions == old(currentTransactions) + [Blocks.Transaction(sender, recipient, amount)]
      ensures chain == old(chain)
      ensures index == chain[|chain| - 1].index - 1
      ensures Valid() ==> index == |chain| - 1
      ensures old(Valid()) ==> Valid()
    {
      currentTransactions := currentTransactions + [Blocks.Transaction(sender, recipient, amount)];
      index := chain[|chain| - 1].index - 1;
    }

    /** `last_block`: the last block, or nothing on an empty chain. */
    function LastBlock(): (last: Option<Block>)
      reads this
      ensures last.Some? <==> |chain| > 0
      ensures last.Some? ==> last.value == chain[|chain| - 1]
    {
      if |chain| == 0 then None else Some(chain[|chain| - 1])
    }

    /** `proof_of_work(last_proof)`: the least `u32` proof valid for
        `last_proof`. The ghost `bound` is a valid proof within `u32`, which
        keeps `proof += 1` from overflowing. */
    method ProofOfWork(lastProof: uint32, ghost bound: uint32) returns (proof: uint32)
      requires ValidProof(sha256Hex, lastProof, bound)
      ensures IsLeastProof(sha256Hex, lastProof, proof)
      ensures proof <= bound
    {
      proof := 0;
      while !ValidProof(sha256Hex, lastProof, proof)
        invariant proof <= bound
        invariant forall q: nat :: q < proof ==> !ValidProof(sha256Hex, lastProof, q)
        decreases bound - proof
      {
        proof := proof + 1;
      }
    }
  }
}
