# Proof-of-work ledger engine, modelled in Dafny

This project models the ledger engine of a minimal blockchain node. It covers
two versions of the engine. The current one lives in `src/lib/blockchain.rs`.
The older snapshot lives in `src/lib.rs` and uses `u32` proofs and a `u32`
previous hash.

The ledger holds three things:

- an append-only chain of blocks;
- a set of peer addresses;
- a pool of pending transactions.

Each block records its 1-based index, a timestamp, the transactions it bundles,
a proof, and the SHA-256 hex digest of the previous block. The chain starts
with a genesis block: index 1, proof 100, previous hash `"1"`.

A proof `p` is valid after the proof `l` when the SHA-256 hex digest of
`l.to_string() + p.to_string()` begins with `"0000"`. Mining does four things:

1. It scans 0, 1, 2, ... for the first valid proof.
2. It adds a reward transaction `("0", miner, 1)` to the pool.
3. It appends a block that links to the old last block.
4. It drains the pool.

A chain is valid when every block after the first carries the digest of its
predecessor and a valid proof for its predecessor's proof. Consensus accepts a
candidate chain only when it is strictly longer than the best length so far
and valid.

Modules, in dependency order:

- `Results`: `Option` and `Result`.
- `Unsigned`: `u32` and `u64`.
- `Decimal`: `to_string` on unsigned integers.
- `ProofOfWork`: `valid_proof` and the least-proof predicate.
- `Blocks`: transactions, blocks, `hash_block`.
- `Consensus`: `valid_chain`, `new_consensus`, and the selection loop of `resolve_conflicts`.
- `Ledger`: the `Blockchain` class of `src/lib/blockchain.rs`.
- `LegacyLedger`: the `Blockchain` class of `src/lib.rs`.

SHA-256 and the JSON serialisation of a block are foreign. They enter as
function values `sha256Hex: string -> Digest` and `toJson: Block -> string`,
bundled as a `Hasher`. `Digest` is the type of 64-character strings. The
current time enters as a `Timestamp` parameter. The miner's UUID enters as a
string.

`proof_of_work` has no bound in the source. Here each search takes a ghost
`bound`: a valid proof known to fit in the integer width. That bound is what
proves that the scan stops, and that `proof += 1` never overflows.

Three behaviours of the code are worth stating, because a reader might expect
otherwise:

- One might expect an empty chain to count as valid. `valid_chain` indexes
  `chain[0]`, however, so it needs a non-empty chain.
- One might expect `new_transaction` to return the index of the block that will
  hold the transaction. It returns the last block's index minus one, which is
  the chain length minus one.
- `resolve_conflicts` always reports `false` and never changes the chain. See
  Findings below.

## Model

| member | source | states |
|---|---|---|
| `Decimal.Render` | src/lib/blockchain.rs:201-202 | the numeral is a non-empty digit string; it has one digit exactly when n < 10; it starts with '0' exactly when n is 0 (no leading zeros) |
| `Decimal.ParseRender` | src/lib/blockchain.rs:201-202 | reading the rendered numeral back gives the number again |
| `Decimal.RenderInjective` | src/lib.rs:121-122 | distinct numbers render to distinct numerals |
| `ProofOfWork.ValidProof` | src/lib/blockchain.rs:199-208 | the SHA-256 hex digest of Render(last_proof) ++ Render(proof) has '0' as each of its first four characters; its properties are SameGuessSameVerdict, SplitAmbiguity and TestFixtures |
| `ProofOfWork.SameGuessSameVerdict` | src/lib/blockchain.rs:199-208 | the verdict depends only on the concatenated numerals: pairs that concatenate to the same string get the same verdict |
| `ProofOfWork.SplitAmbiguity` | src/lib.rs:119-128 | valid_proof(1, 23) equals valid_proof(12, 3), because both hash "123" |
| `ProofOfWork.TestFixtures` | tests/unit_tests.rs:17-31 | if SHA-256("88484") starts with four zeros and SHA-256("2342") does not, then (88, 484) is a valid pair and (23, 42) is not |
| `ProofOfWork.LeastProofUnique` | src/lib/blockchain.rs:176-184 | the least valid proof for a given last proof is unique, so the search is deterministic |
| `Blocks.HashBlock` | src/lib/blockchain.rs:165-170 | the block digest is the SHA-256 hex digest of the block's JSON, 64 characters long |
| `Consensus.CheckChain` | src/lib/blockchain.rs:88-108 | on a non-empty chain: true iff every block i >= 1 has previous_hash == hash_block(chain[i-1]) and a valid proof for chain[i-1].proof |
| `Consensus.SingleBlockValid` | src/lib/blockchain.rs:90-93 | a chain with only a genesis block is valid |
| `Consensus.ValidChainSnoc` | src/lib/blockchain.rs:93-105 | chain ++ [b] is valid iff the chain is valid and b links to its last block (both directions) |
| `Consensus.TamperedHashInvalid` | src/lib/blockchain.rs:95-97 | changing the previous_hash of any block after the first makes a valid chain invalid |
| `Consensus.TamperedProofInvalid` | src/lib/blockchain.rs:99-101 | putting an invalid proof into any block after the first makes the chain invalid |
| `Consensus.NewConsensus` | src/lib/blockchain.rs:110-116 | true iff the length of c exceeds max_length and every adjacent pair is linked by hash and proof; the length test comes first, so the chain walk is only given a non-empty chain |
| `Consensus.FirstLongestUnique` | src/lib/blockchain.rs:126-146 | at most one response is the first-seen longest accepted response |
| `Consensus.SelectLongest` | src/lib/blockchain.rs:120-146 | a chain is chosen iff some response beats the local length; the chosen chain is valid, strictly longer than the local chain, and the first-seen longest accepted response; max_length rises to its length; with no winner, max_length stays the local length |
| `Consensus.NeverAdoptsInvalid` | src/lib/blockchain.rs:135-138 | for any list of responses, a peer chain at any position that fails validation is never the selected chain, however long it is |
| `Consensus.AdoptsLongerPeer` | src/lib/blockchain.rs:126-146 | local length 3, peer A answers a valid chain of 5, peer B fails: A's chain is selected with max_length 5 |
| `Ledger.Blockchain.constructor` | src/lib/blockchain.rs:55-68 | a new ledger holds only the genesis block (index 1, no transactions, proof 100, previous hash "1"); pending and nodes are empty; the chain is indexed and valid |
| `Ledger.Blockchain.GenesisBlock` | src/lib/blockchain.rs:66-68 | appends a block with proof 100 and previous hash "1" holding the old pending pool; drains the pool |
| `Ledger.Blockchain.NewBlock` | src/lib/blockchain.rs:70-82 | appends exactly one block (index = old length + 1, the old pending list, the given proof and previous hash) and returns it as the new last block; pending becomes empty; earlier blocks and nodes are unchanged; the index invariant is kept |
| `Ledger.Blockchain.RegisterNode` | src/lib/blockchain.rs:84-86 | nodes becomes old nodes plus the address; registering a present address changes nothing; chain and pending are unchanged |
| `Ledger.Blockchain.NewTransaction` | src/lib/blockchain.rs:159-163 | appends Transaction(sender, recipient, amount) at the end of pending; chain and nodes are unchanged; returns last index - 1, which is chain length - 1 on an indexed chain |
| `Ledger.Blockchain.LastBlock` | src/lib/blockchain.rs:172-174 | Some(last block) iff the chain is non-empty |
| `Ledger.Blockchain.LastBlockHash` | src/lib/blockchain.rs:186-189 | the 64-character digest of the last block |
| `Ledger.Blockchain.ProofOfWork` | src/lib/blockchain.rs:176-184 | returns the least proof p valid for the last block's proof: no q < p is valid |
| `Ledger.Blockchain.Mine` | src/lib/blockchain.rs:191-197 | always Ok; the chain grows by exactly one block and keeps its old blocks; the new block has index old length + 1, transactions old pending ++ [("0", id, 1)], previous_hash = hash_block(old last block), and the least valid proof for the old last proof; pending is empty and nodes are unchanged; an indexed chain stays indexed, `Valid()` is kept, and a valid chain stays valid |
| `Ledger.Blockchain.ResolveConflicts` | src/lib/blockchain.rs:118-147 | as written: always reports false and changes no field |
| `Ledger.Blockchain.ResolveConflictsAdopting` | src/lib/blockchain.rs:118-147 | as intended: replaces the chain iff some peer chain is valid and strictly longer; the new chain is the first-seen longest one; pending and nodes are unchanged |
| `Ledger.ResolveDiscrepancy` | src/lib/blockchain.rs:135-146 | whenever a strictly longer valid peer chain exists, the as-written routine reports false but the intended one reports true and lengthens the chain |
| `Ledger.TransactThenMine` | src/lib/blockchain.rs:159-197 | new ledger, one transaction, one mined block: the block holds that transaction and then exactly one reward; pending is empty; the two-block chain passes valid_chain |
| `LegacyLedger.Blockchain.constructor` | src/lib.rs:56-64 | a new ledger holds one block with index 1, proof 100, previous hash 1 and no transactions; pending is empty |
| `LegacyLedger.Blockchain.GenesisBlock` | src/lib.rs:66-68 | appends a block with proof 100 and previous hash 1; drains the pool |
| `LegacyLedger.Blockchain.NewBlock` | src/lib.rs:70-81 | appends one block with index old length + 1 and the old pending list; earlier blocks are unchanged; pending becomes empty; the index invariant is kept |
| `LegacyLedger.Blockchain.NewTransaction` | src/lib.rs:93-97 | appends to the end of pending; the chain is unchanged; returns last index - 1 |
| `LegacyLedger.Blockchain.LastBlock` | src/lib.rs:106-108 | Some(last block) iff the chain is non-empty |
| `LegacyLedger.Blockchain.ProofOfWork` | src/lib.rs:110-117 | returns the least u32 proof valid for last_proof |

## Left out

- HTTP routes, the response structs and the `RwLock` around the ledger (`src/main.rs`, `src/lib/response_types.rs`) are request handling and concurrency. They are not part of this model.
- The network part of `resolve_conflicts` is not modelled: the hyper client, the tokio core and the futures that are never run. The selection rule runs instead over a given sequence of peer responses. `None` stands for a failed request or a non-OK status.
- Ledger.Blockchain.ResolveConflicts: does not model the panics that do run, eagerly, before anything is returned: `Core::new().unwrap()`, and `node.parse().unwrap()` on a registered address that is not a URI. The model always returns `false`.
- A malformed peer payload makes `serde_json::from_slice(...).unwrap()` panic inside a future that is never driven. The model has no such case: a response is either a chain or `None`.
- SHA-256 and serde_json are function parameters (`Hasher`). Their output is not modelled beyond a digest being 64 characters long.
- `SystemTime::now()` is a `Timestamp` parameter. The UUID is a string; the `simple()` hex formatting of the UUID is not modelled.
- `Ledger.Blockchain.ProofOfWork`, `Ledger.Blockchain.Mine` and `LegacyLedger.Blockchain.ProofOfWork` each need a ghost witness `bound`: a valid proof below the integer limit. The source scans without limit and would overflow `proof += 1` if no such proof existed.
- The `expect` and `unwrap` calls on the last block panic on an empty chain (src/lib/blockchain.rs:162, 177, 187). `NewTransaction`, `LastBlockHash`, `ProofOfWork` and `Mine` require a non-empty chain, so those panics are unreachable in the model. The ledger invariant `Valid()` (a non-empty chain indexed from 1) meets these preconditions: the constructor establishes it, and every state-changing method keeps it.
- `NewBlock`, `GenesisBlock` and `Mine` require fewer than 2^32 - 1 blocks, so the `as u32` cast of the index never truncates. `NewTransaction` requires a last index of at least 1, so the `u32` subtraction never underflows.
- There is no single lemma saying that `new()` followed by any number of `mine` calls passes `valid_chain`. The constructor ensures that the genesis chain is valid, and `Mine` ensures that a valid chain stays valid. Together they give that result by induction over the calls. `TransactThenMine` carries it out for one call.
- The accessors `chain()` and `transactions()`, the private helper `clear_transactions` and `Transaction::new` are not separate members. The fields can be read directly, the pool is reset inside `NewBlock`, and the constructor is the datatype's own.
- `hash` in `src/lib.rs` is never called. Its `String` result cannot be stored in that snapshot's `u32` previous hash, so it is not part of this model.
- `mine` returns a reference to the new last block. The model returns the block value, which `Mine` equates with the last block.
- The `create_blockchain` unit test expects `new()` to give an empty chain. That contradicts the genesis block pushed at `src/lib.rs:62`, so it is not modelled.
- A chain adopted by `ResolveConflictsAdopting` is valid but need not be indexed from 1, because `valid_chain` does not check indices. For that reason the method does not promise the index invariant.

## Findings

| source | as written | input that shows it | evidently intended | confidence | as-written member | corrected member |
|---|---|---|---|---|---|---|
| src/lib/blockchain.rs:118-147 | the peer requests are built but never run, and the function returns `false` without touching the chain | a registered peer whose chain is valid and longer than the local one | adopt the first-seen longest valid, strictly longer peer chain and report `true` | not executed; high (the futures are never polled and the return is a literal) | `Ledger.Blockchain.ResolveConflicts` | `Ledger.Blockchain.ResolveConflictsAdopting` |
