/** Transactions, blocks and the block digest of the current ledger. */
module Blocks {
  import opened Unsigned
  import opened ProofOfWork

  /** `SystemTime::now()` is read by the ledger and passed in here as an opaque value. */
  type Timestamp = nat

  datatype Transaction = Transaction(sender: string, recipient: string, amount: uint32)

  datatype Block = Block(
    index: uint32,
    timestamp: Timestamp,
    transactions: seq<Transaction>,
    proof: uint64,
    previousHash: string)

  /** The two foreign computations the digest is built from: SHA-256 rendered
      as lowercase hex, and the JSON serialisation of a block. Both are fixed,
      deterministic functions whose definitions are not modelled. */
  datatype Hasher = Hasher(sha256Hex: string -> Digest, toJson: Block -> string)

  /** `hash_block`: the SHA-256 hex digest of the block's JSON text. */
  function HashBlock(h: Hasher, b: Block): (d: string)
    ensures |d| == 64
    ensures d == h.sha256Hex(h.toJson(b))
  {
    h.sha256Hex(h.toJson(b))
  }

  /** What `valid_chain` checks of each adjacent pair: the hash link and the proof link. */
  predicate Linked(h: Hasher, previous: Block, block: Block) {
    && block.previousHash == HashBlock(h, previous)
    && ValidProof(h.sha256Hex, previous.proof, block.proof)
  }
}
