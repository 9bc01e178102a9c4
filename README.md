# Educational blockchain, modelled in Dafny

The repository holds a small proof-of-work blockchain written twice.
`index.js` is a ledger. It keeps a chain of blocks carrying transactions and
a pool of pending transactions. Mining seals the pool into a new block and
puts the miner's reward in the next pool. Balances come from replaying every
sealed transaction. `index.ts` is a block-only chain: each block carries an
arbitrary JSON value. Both programs mine a block by bumping its nonce until
its hex digest starts with `difficulty` zeros. Both validate a chain by
re-checking every block after the genesis block.

As written, and for numeric amounts (the model's integers), the `index.js`
ledger never leaves the state its constructor builds through its own
methods. The genesis block has
no transactions, so every balance is 0. `addTransaction` needs a sender,
rejects an amount ≤ 0 and rejects an amount above the sender's balance, so
it rejects every integer transfer, the pool stays empty, and
`minePendingTransactions` returns without mining. Its example driver
therefore admits none of its three transfers and mines nothing
(`Ledger.NothingAdmittedAtGenesis`, `Ledger.StaysAtGenesis`). The mining
and reward contracts hold for every pool on a chain that starts with a
genesis block, and the conservation lemmas hold for every chain. Only
outside writes to the public `chain` or `pendingTransactions` fields reach
them: a transaction pushed straight onto `pendingTransactions` is mined by
the next `minePendingTransactions` call, which then puts the reward in the
pool.

Modules:

- `ProofOfWork` (`proof_of_work.dfy`) defines the mining target
  `Array(d + 1).join('0')` and the clamping `substring(0, d)`, and proves
  what comparing them means.
- `Blocks` (`blocks.dfy`) holds the `Block` class, which both files define
  identically apart from the payload (type parameter `D`). It also holds the
  mining loop, the value `BlockRecord` of a block's fields, chain validity
  and the validation loop.
- `Ledger` (`ledger.dfy`) is the `Blockchain` class of `index.js`, with
  `Transaction`, balance derivation and admission.
- `SimpleChain` (`simple_chain.dfy`) is the `Blockchain` class of
  `index.ts`, with a `Json` payload.

The SHA-256 digest is a parameter `hasher` of type
`(previousHash, timestamp, payload, nonce) -> string`, so every property
holds for every digest function. The current time is a parameter `now`.

## Model

| member | source | states |
|---|---|---|
| `ProofOfWork.LeadingChars` | index.js:24 | `hash.substring(0, d)` is the prefix of length d, or the whole hash when it is shorter |
| `ProofOfWork.TargetIsZeros` | index.ts:30 | the target built from `Array(d + 1).join('0')` is exactly d `'0'` characters |
| `ProofOfWork.MeetsTargetIffLeadingZeros` | index.ts:32 | the loop exit condition holds iff the hash has at least d characters and the first d are all `'0'`; a hash shorter than d never passes |
| `ProofOfWork.MeetsZeroDifficulty` | index.js:23-24 | at difficulty 0 the target is empty and every hash meets it |
| `Blocks.Unmined` | index.js:5-11 | a new block has nonce 0, the given payload, previous hash and time, and a hash equal to its calculated hash |
| `Blocks.Block.constructor` | index.ts:7-14 | the constructed object's fields are exactly `Unmined`, its hash set by `calculateHash()`, and it keeps the digest function it was given |
| `Blocks.Block.CalculateHash` | index.ts:16-27 | the digest depends on previousHash, timestamp, payload and nonce only |
| `Blocks.DigestDeterministic` | index.js:12-21 | blocks agreeing on the four hashed fields get the same digest, whatever hash they store |
| `Blocks.SolvableStep` | index.js:24-26 | a search that has a solution from nonce n either succeeds at n or has one from n + 1 |
| `Blocks.Block.MineBlock` | index.js:22-33 | on return the hash meets the target (its first d characters are `'0'`); payload, previous hash and time are unchanged; the nonce never decreases; the body runs iff the stored hash missed the target; after any iteration hash == calculateHash(); consistency is kept; every skipped nonce failed; mining a fresh block (nonce 0, consistent hash) ends at the first nonce from 0 whose digest meets the target; with d = 0 nothing changes (index.ts:29-43 is the same loop) |
| `Blocks.CheckChain` | index.js:91-107 | returns true iff every block at index i ≥ 1 stores its calculated hash and links to block i - 1's hash; on false there is a first failing index with all earlier ones passing; the genesis block is not checked |
| `Blocks.ChainValidAppend` | index.js:69-72 | appending a block to a non-empty chain keeps it valid iff the block is consistent and links to the old tip |
| `Blocks.GenesisNotChecked` | index.ts:74 | validity does not depend on the genesis block's contents, only on its hash |
| `Blocks.TamperingDetected` | index.ts:79-88 | changing a non-genesis block of a valid chain makes it invalid when the stored hash is kept but the digest changes, when the block is re-hashed and has a successor, or when its back-link is replaced |
| `Ledger.Reward` | index.js:73-75 | the reward has no sender, pays minerAddress the mining reward, and fails the party check |
| `Ledger.CreateGenesisBlock` | index.js:42-44 | the genesis block has no transactions, previous hash `"0"`, nonce 0 and a consistent hash |
| `Ledger.Blockchain.constructor` | index.js:36-41 | the chain is exactly the genesis block, the pool is empty, difficulty and reward are stored, and the chain is valid |
| `Ledger.Blockchain.GetLatestBlock` | index.js:45-47 | returns the last block; it exists because the chain is never empty |
| `Ledger.Blockchain.GetChain` | index.js:108-110 | returns the chain, which is non-empty |
| `Ledger.Blockchain.GetBalanceOfAddress` | index.js:77-90 | the nested loop returns `BalanceOf(chain, a)`, the sum over all sealed transactions of amount received minus amount sent; the pool is not counted |
| `Ledger.BalanceAppend` | index.js:79-88 | one more block changes every balance by its transactions' net effect |
| `Ledger.EmptyBlocksBalanceZero` | index.js:77-89 | a chain of blocks without transactions, such as the genesis-only chain, gives every address balance 0 |
| `Ledger.Blockchain.IsChainValid` | index.js:91-107 | returns true iff `ChainValid(hasher, chain)` |
| `Ledger.Blockchain.AddTransaction` | index.js:48-63 | rejects, leaving pool and chain unchanged, with MissingParty iff sender or recipient is missing or empty, else with NonPositiveAmount iff amount ≤ 0, else with InsufficientBalance iff the sender's sealed balance is below amount; otherwise the pool becomes the old pool plus tx |
| `Ledger.RewardNeverAdmitted` | index.js:49-56 | a transaction without a sender, with an empty recipient or with a non-positive amount is never admitted |
| `Ledger.PendingPoolCanOverdraw` | index.js:57-62 | admission reserves nothing: on a valid chain with a sealed balance of 50, two pending transfers of 50 from the same sender are both admitted (a chain only outside writes can produce) |
| `Ledger.NothingAdmittedAtGenesis` | index.js:49-60 | against the genesis-only chain no transaction with an integer amount is admitted: every balance is 0, amounts must be positive, and a sender is required |
| `Ledger.StaysAtGenesis` | index.js:36-76 | from the constructor's state, `addTransaction` followed by `minePendingTransactions` admits nothing, mines nothing, and leaves the chain and the empty pool as they were |
| `Ledger.Blockchain.MinePendingTransactions` | index.js:64-76 | on an empty pool nothing changes; otherwise the chain grows by exactly one block, earlier blocks are unchanged, the new block holds the old pool, links to the old tip's hash, carries the time and is sealed at the first nonce from 0 whose digest meets the target, the pool becomes exactly the reward to minerAddress, every balance moves by the old pool's net effect, and chain validity is preserved |
| `Ledger.SumNetOne` | index.js:81-86 | over distinct addresses, one transaction adds its amount once for a listed recipient and subtracts it once for a listed sender |
| `Ledger.TransactionsConserve` | index.js:80-87 | summed over distinct addresses covering every party, the net effect of a transaction list equals the amounts minted by its sender-less transactions |
| `Ledger.BalancesConserve` | index.js:77-90 | summed over distinct addresses covering every party, the derived balances equal the total of the sealed rewards: transfers are zero-sum |
| `SimpleChain.CreateGenesisBlock` | index.ts:55-57 | the genesis block carries `{message: "Genesis Block"}`, previous hash `"0"`, nonce 0 and a consistent hash |
| `SimpleChain.Blockchain.constructor` | index.ts:50-53 | the chain is exactly the genesis block; it is grown from genesis and valid |
| `SimpleChain.Blockchain.GetLatestBlock` | index.ts:59-61 | returns the last block; it exists because the chain is never empty |
| `SimpleChain.Blockchain.GetChain` | index.ts:93-95 | returns the chain, which is non-empty and starts with the genesis data |
| `SimpleChain.Blockchain.AddBlock` | index.ts:63-71 | appends exactly one block; earlier blocks are unchanged; the new block carries data and the time, links to the old tip's hash and is sealed at the first nonce from 0 whose digest meets the target; validity and grown-from-genesis are preserved |
| `SimpleChain.Blockchain.IsChainValid` | index.ts:73-91 | returns true iff `ChainValid(hasher, chain)` |
| `SimpleChain.GrownChainIsValid` | index.ts:63-91 | every chain built by the constructor and `addBlock` alone passes `isChainValid` |

The constructor establishes the grown-from-genesis property and `AddBlock`
preserves it. With `GrownChainIsValid`, this shows that `IsChainValid`
returns true on any chain the class itself builds. The ledger gets the same
result from its constructor, the validity clause of
`MinePendingTransactions`, and `IsChainValid`.

Three behaviours of the code worth noting:

- `addTransaction` tests `!transaction.sender`, so a sender-less
  transaction is always rejected, reward transactions included.
- The genesis block of `index.ts` carries `{message: "Genesis Block"}`; the
  genesis block of `index.js` carries an empty transaction list.
- `addTransaction` and `minePendingTransactions` log a message and return
  nothing. The model's `Admission` and `mined` results only name which
  branch was taken.

## Left out

- SHA-256 and `JSON.stringify` are foreign library calls. The digest is the
  `hasher` parameter, and its 64-character hex output format is not modelled.
- `Date.now()` becomes the `now` parameter.
- All console logging is omitted, including the progress message every
  10000 nonces.
- The example-usage drivers at the end of both files are not modelled.
- The `./transaction` module is not part of this model. `Transaction` is a
  datatype with an optional sender, a recipient and an integer amount.
- A `NaN` or non-numeric amount passes both amount checks at index.js:53
  and index.js:57, because both comparisons are false, and is admitted.
  Integer amounts cannot express this, so `Ledger.NothingAdmittedAtGenesis`
  and `Ledger.StaysAtGenesis` speak of integer amounts only.
- JavaScript number semantics are not modelled:
  - amounts and JSON numbers are unbounded integers;
  - the nonce is an unbounded natural number, with no loss of precision
    past 2^53;
  - difficulty is a natural number, while JavaScript would accept, or
    throw on, negative and fractional values.
- Default constructor arguments are not modelled. Those are difficulty 4
  and reward 100 for the ledger, difficulty 4 for the simple chain, and
  previous hash `''` for a block. The model's constructors take every value
  explicitly.
- Termination of mining is not proved. `Blocks.Block.MineBlock`,
  `Ledger.Blockchain.MinePendingTransactions` and
  `SimpleChain.Blockchain.AddBlock` require that some nonce seals the block.
  Without one, the source loops forever.
- The chain stores each mined block as a `BlockRecord` value rather than a
  reference to the `Block` object. The source never changes a block after
  pushing it. Outside mutation through public block fields, and aliasing of
  the array returned by `getChain`, are not modelled: `GetChain` is
  read-only.
