# Hash-linked ledger: a verified model

This project models two small Python implementations of the same
append-only ledger: `blockchain_simulation.py` and `simple_blockchain.py`.

Each `Block` holds five fields: an index, a timestamp, its transactions,
the previous block's hash and a nonce. It also stores a hash computed from
those five fields. A `Blockchain` owns a list of blocks that starts with a
genesis block and grows by `add_block`. `is_chain_valid` checks two
invariants at every position after the genesis block:

- **I1 (sealed):** a block's stored hash equals the digest of its five fields.
- **I2 (linked):** a block's `previous_hash` equals the stored hash of the
  block before it.

The two implementations differ in three ways:

- **Mining.** `blockchain_simulation.py` mines every appended block: it
  bumps the nonce until the hash starts with `difficulty` zeros.
  `simple_blockchain.py` never mines.
- **The proof-of-work exit test.** `blockchain_simulation.py` asks
  `hash.startswith('0' * d)`. `simple_blockchain.py` asks
  `hash[:d] == '0' * d`.
- **Tampering.** `simple_blockchain.py` has a `tamper_block` that
  recomputes the tampered block's hash. `blockchain_simulation.py`'s
  demonstration instead overwrites a block's transactions and leaves the
  hash stale.

Layout:

- **`ledger.dfy`** (module `Ledger`) holds the shared vocabulary:
  - the `Digest`, `Payload` and `BlockView` values;
  - the hash primitive as a parameter `sha: Hasher`;
  - I1 (`Sealed`) and the verdict of `is_chain_valid` (`ChainIntact`);
  - lemmas on how that verdict reacts to appending and to replacing one
    block.
- **`proof_of_work.dfy`** (module `ProofOfWork`) models Python's `'0' * d`,
  `str.startswith` and `s[:d]`, both exit tests, and what each test means.
- **`blockchain_simulation.dfy`** and **`simple_blockchain.dfy`** model
  each implementation's classes:
  - `Block` and `Blockchain` are Dafny classes whose methods update fields
    in place.
  - Each `Blockchain` exposes its blocks as a ghost sequence of snapshots,
    `Blocks()`.
  - Every method is proved against that sequence.

The hash primitive is SHA-256 over the `str()` / f-string rendering of the
five fields. It is a parameter of type `Hasher`: a function from the five
fields to 64 lower-case hex characters. Nothing assumes it is injective,
which no function into a finite set of digests can be. Every detection
result is therefore an exact "if and only if" over the equality of two
digests. For example, on a valid chain a `tamper_block` of a block before
the tail is detected exactly when the recomputed hash differs from the
old one, while a tamper of the tail block is never detected.

`difficulty` is an unbounded integer with Python's semantics. `'0' * d`
is empty for `d <= 0`. A negative slice bound counts from the end. So for
`-63 <= d <= -1`, `blockchain_simulation.py`'s test passes at once while
`simple_blockchain.py`'s test can never pass on a 64-character digest
(`ExitTestsDisagreeOnNegative`). Neither file restricts `difficulty`:
`'0' * d` and `hash[:d]` accept any integer, and the model follows the
code.

## Model

| member | source | states |
|---|---|---|
| Ledger.Reseal | simple_blockchain.py:52-53 | Recomputing the hash of a snapshot gives a sealed block (I1) that differs from the input in its hash alone. |
| Ledger.HashDeterminedByFields | blockchain_simulation.py:19-31 | `calculate_hash` is a function of (index, timestamp, transactions, previous_hash, nonce) only: equal fields give equal digests, whatever hash is stored. |
| Ledger.GenesisOnlyIntact | blockchain_simulation.py:81-93 | A chain of the genesis block alone is valid, whatever the genesis block holds. |
| Ledger.IntactAppend | blockchain_simulation.py:81-93 | Appending a block: the longer chain is valid iff the shorter one is, the new block is sealed, and it links to the old tail. |
| Ledger.GenesisNeverChecked | blockchain_simulation.py:81 | The scan starts at 1: replacing the genesis block by any block with the same stored hash never changes the verdict. |
| Ledger.IntactReplace | simple_blockchain.py:38-46 | Replacing block k of a valid chain by a block with the same previous_hash: the result is valid iff the new block is sealed (unless k = 0) and keeps the hash the next block links to (unless k is the tail). |
| ProofOfWork.ZeroTarget | blockchain_simulation.py:38 | `'0' * d` is d zeros for d > 0 and empty otherwise. |
| ProofOfWork.PrefixSlice | simple_blockchain.py:20 | `s[:d]` is a prefix of s; its length is d clamped to 0..\|s\|, with a negative d counting from the end. |
| ProofOfWork.StartsWithTargetMeaning | blockchain_simulation.py:38-39 | The `startswith` exit test holds iff d <= 0 or the hash begins with d zeros. |
| ProofOfWork.SliceTargetMeaning | simple_blockchain.py:19-20 | The slice exit test holds iff d = 0, d <= -\|h\|, or 0 < d <= \|h\| and the hash begins with d zeros. |
| ProofOfWork.SliceTargetUnreachable | simple_blockchain.py:18-22 | On a 64-character digest the slice test never holds for d > 64 or -64 < d < 0, so `mine_block` cannot exit there. |
| ProofOfWork.ExitTestsAgree | simple_blockchain.py:19-20 | For d >= 0 the slice test and the `startswith` test of the other implementation are the same test. |
| ProofOfWork.ExitTestsDisagreeOnNegative | blockchain_simulation.py:38-39 | For -64 < d < 0, `startswith` passes at once on every digest while the slice test never does. |
| BlockchainSimulation.Block.constructor | blockchain_simulation.py:12-17 | A new block holds the given fields, nonce 0 and a sealed hash (I1). |
| BlockchainSimulation.Block.CalculateHash | blockchain_simulation.py:19-31 | The digest is the hasher applied to index, timestamp, transactions, previous_hash and nonce, in source order. A block storing it is sealed (I1). |
| BlockchainSimulation.Block.MineBlock | blockchain_simulation.py:33-41 | On exit the hash starts with `'0' * difficulty`. I1 is kept. Only nonce and hash change, and the nonce never decreases. A hash that already passes (any difficulty <= 0 included) is left untouched. Otherwise the new hash is recomputed and no nonce skipped over passes. |
| BlockchainSimulation.GenesisView | blockchain_simulation.py:57 | The genesis block: index 0, the string "Genesis Block", previous hash "0", nonce 0, sealed. |
| BlockchainSimulation.Blockchain.CreateGenesisBlock | blockchain_simulation.py:52-57 | Builds a fresh block equal to the genesis snapshot. |
| BlockchainSimulation.Blockchain.constructor | blockchain_simulation.py:44-50 | A new chain holds exactly the unmined genesis block (built before the difficulty, default 4, is recorded), and is valid and I3-compliant. |
| BlockchainSimulation.Blockchain.GetLatestBlock | blockchain_simulation.py:59-64 | Returns the tail block, whose index is the length minus one. |
| BlockchainSimulation.MinedAppend | blockchain_simulation.py:66-74 | I3 (every non-genesis hash passes the difficulty test) holds after an append iff it held before and the new block passes. |
| BlockchainSimulation.Blockchain.MinedBlock | blockchain_simulation.py:72-73 | `Block(...)` then `mine_block(d)`: a fresh block with the given fields, sealed, passing the test, and with the least passing nonce. |
| BlockchainSimulation.Blockchain.AddBlock | blockchain_simulation.py:66-74 | The length grows by one and the earlier blocks and their snapshots are unchanged. The new block has index = old length, links to the old tail's hash, is sealed and mined. Validity and I3 each hold afterwards iff they held before. |
| BlockchainSimulation.Blockchain.IsChainValid | blockchain_simulation.py:76-93 | Returns true iff I1 and I2 hold at every position 1..n-1. |
| BlockchainSimulation.StaleEdit | blockchain_simulation.py:125 | Assigning block k's transactions directly keeps the length, every other block, and every field of block k but its transactions. In particular block k keeps its stale hash. |
| BlockchainSimulation.StaleEditDetection | blockchain_simulation.py:125 | Overwriting block k's transactions on a valid chain and leaving its hash stale goes undetected iff k = 0 or the digest of the edited fields equals the stale hash. |
| SimpleBlockchain.Block.constructor | simple_blockchain.py:6-12 | A new block holds the given fields, nonce 0 and a sealed hash (I1). |
| SimpleBlockchain.Block.CalculateHash | simple_blockchain.py:14-16 | The digest is the hasher applied to index, timestamp, transactions, previous_hash and nonce, in source order. A block storing it is sealed (I1). |
| SimpleBlockchain.Block.MineBlock | simple_blockchain.py:18-22 | On exit `hash[:difficulty] == '0' * difficulty`. I1 is kept. Only nonce and hash change, and the nonce never decreases. A hash that already passes is left untouched. Otherwise no nonce skipped over passes. |
| SimpleBlockchain.GenesisView | simple_blockchain.py:30 | The genesis block: index 0, the list ["Genesis Block"], previous hash "0", nonce 0, sealed. |
| SimpleBlockchain.Blockchain.CreateGenesisBlock | simple_blockchain.py:29-30 | Builds a fresh block equal to the genesis snapshot. |
| SimpleBlockchain.Blockchain.constructor | simple_blockchain.py:26-27 | A new chain holds exactly the genesis block and is valid. |
| SimpleBlockchain.Blockchain.AddBlock | simple_blockchain.py:32-35 | Appends exactly one unmined block with nonce 0, index = old length, the old tail's hash as previous hash, and a sealed hash. Earlier snapshots are unchanged. Validity holds afterwards iff it held before. |
| SimpleBlockchain.Blockchain.IsChainValid | simple_blockchain.py:37-48 | Returns true iff I1 and I2 hold at every position 1..n-1. |
| SimpleBlockchain.TamperedShape | simple_blockchain.py:50-53 | The snapshot effect of a tamper. An out-of-range index changes nothing. Otherwise the length and the other blocks are kept, block k gets the new transactions and a resealed hash, and its other fields are kept. |
| SimpleBlockchain.Blockchain.TamperBlock | simple_blockchain.py:50-53 | The list and its block objects stay the same, and the snapshots become exactly that tampered sequence. |
| SimpleBlockchain.TamperDetection | simple_blockchain.py:37-53 | On a valid chain, an in-range tamper leaves it valid iff it hits the tail or the resealed hash equals the old one. |
| SimpleBlockchain.TamperCaughtAtNext | simple_blockchain.py:42-46 | A tamper of a block k before the tail that changes its hash is noticed only by the I2 check at k+1. Block k+1 is still sealed, but its previous hash no longer matches, and both checks pass at every other position. |
| SimpleBlockchain.TamperTailUndetected | simple_blockchain.py:50-53 | Tampering the tail of a valid chain is never detected, for any hash function. |
| SimpleBlockchain.DemonstrationChain | simple_blockchain.py:64-66 | The script's chain: three fresh blocks, valid, block 1 holding ["Alice pays Bob 10 BTC"] linked to the genesis hash. |
| SimpleBlockchain.Demonstration | simple_blockchain.py:64-76 | The first check prints true. The check after tampering block 1 to ["Alice pays Eve 20 BTC"] prints true iff the forged digest equals the original one. |

## Left out

- `print_chain` and `display_chain`, and the messages `is_chain_valid` prints before returning false: console output only.
- `time.time()` and `datetime.datetime.now()`: the clock is a constructor parameter of the abstract type `Timestamp`.
- SHA-256, `.encode()` and the `str()` / f-string rendering of the fields: these are foreign code. They are the parameter `sha`, whose results are only known to be 64 lower-case hex characters.
- Transactions other than one string or a list of strings (`Payload`): both implementations accept any Python value here.
- `index`, `timestamp` and `previous_hash` are `const` fields: no code in either file reassigns them after construction.
- BlockchainSimulation.Block.MineBlock: requires that the stored hash already passes or some later nonce passes. The search is unbounded, and runs that never end are not modelled.
- SimpleBlockchain.Block.MineBlock: requires a passing nonce in the same way. `SliceTargetUnreachable` shows which difficulties make the source loop for ever.
- BlockchainSimulation.Blockchain.AddBlock: requires some nonce from 0 on to pass, for the same reason. `MinedBlock` carries the same premise.
- The demonstration script of `blockchain_simulation.py` is not replayed as a method. Each of its mined appends would need a premise about an unknown digest. Its tampering step (line 125) is modelled as `StaleEdit` and `StaleEditDetection`.
- Transaction lists are modelled as values (`Payload`). In Python a block keeps a reference to the caller's list (blockchain_simulation.py:14, simple_blockchain.py:9 and 52). A later mutation of that list by the caller changes the block's content, and leaves its hash stale, outside any operation. This aliasing is not captured.
- Python lists can alias each other. Each `Blockchain` here owns its `chain`, and no other reference to it is modelled.
