/** The fixed-width unsigned integers the ledger stores. Overflow is never
    modelled as wrap-around: operations that could overflow carry a
    precondition instead. */
module Unsigned {

  const U32_LIMIT: nat := 0x1_0000_0000
  const U64_LIMIT: nat := 0x1_0000_0000_0000_0000

  /** Rust `u32`: block indices, amounts, and the older snapshot's proofs. */
  type uint32 = n: nat | n < U32_LIMIT

  /** Rust `u64`: proofs of the current ledger. */
  type uint64 = n: nat | n < U64_LIMIT
}
