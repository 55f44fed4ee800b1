# Ledger engine of BlockchainRestAPI, in Dafny

This project models the ledger engine of an Express/Mongo blockchain demo and
proves properties of the model. The engine has four parts:

- **Merkle reduction and block hashing** (`src/models/Block.js`). An ordered list of transaction
  hashes is reduced pairwise, an odd last hash pairing with itself. The block hash is SHA-256 of the
  undelimited string `index + previousHash + timestamp + merkleRoot + nonce`.
- **Mining** (`mineBlock` in `src/controllers/blockchain.js`). It:
  - takes at most ten pending transactions in store order;
  - links to the highest-index block, or to 64 `'0'` characters on an empty chain;
  - searches nonces upward from 0 for a hash with four leading zeros;
  - stores the block, which the schema's `required` check can reject;
  - confirms each selected transaction and moves its balances.
- **Chain validation** (`validateChain`, same file). It walks the blocks in index order and
  re-checks linkage, the hash prefix, the Merkle root and each transaction's HMAC tag.
- **Admission and re-verification of transactions** (`createTransaction` and `validateTransaction`
  in `src/controllers/transaction.js`, with the schema and `generateHash` of
  `src/models/Transaction.js`).

The three collections are plain sequences (`Store.Ledger`):

- blocks, in store order (the validators walk them as the index-sorted query returns them);
- transactions, each identified by its position;
- wallets, looked up first-match by address or id.

SHA-256, HMAC-SHA256 and `JSON.stringify` are uninterpreted: they are fields of a `Primitives.Crypto`
value passed to every operation, so each result holds for every choice of them. Where a result
needs collision freedom, it says so with `StringifyInjective` or `HmacInjective`. Amounts are
integer hundredths: the minimum amount and the fee are both 1, which is 0.01.

Files, one module each:

- `wrappers.dfy`: `Option` and `Result`.
- `variants.dfy`: the as-written and corrected readings of an operation.
- `text.dfy`: zero strings and decimal rendering.
- `primitives.dfy`: the crypto interface and the signed payload.
- `blocks.dfy`: the block record and its hash.
- `transactions.dfy`: the transaction record, `generateHash`, tags and `populate`.
- `wallets.dfy`: the wallet directory.
- `merkle.dfy`: the Merkle root.
- `admission.dfy`: `createTransaction` and `validateTransaction`.
- `store.dfy`: the ledger state.
- `mining.dfy`: `mineBlock`.
- `validation.dfy`: `validateChain`.
- `ledger.dfy`: the invariant kept across operations.
- `status.dfy`: `getStatus`.

Where verification showed the source doing something it evidently does not mean to (see "## Findings"),
the operation takes a `Variants.Variant`: `AsWritten` computes what the source computes and
`Corrected` what it evidently intends. Validation, the block save and mining settlement are modelled
both ways; the ledger invariant is proved for either reading of mining.

Where the code and its design description disagree, the model follows the code:

- **Validation walk.** The design says the walk stops at the first failure. In the code, a header
  or Merkle failure ends the walk (`break` at `src/controllers/blockchain.js:95` and `:100`). A tag
  mismatch only leaves the inner transaction loop (`:114`), and the walk goes on to the next block
  with the flag cleared. `Validation.Walk` does the same.
- **Block hash.** The design expects each block's proof-of-work to be checked. The code only checks
  that the stored `hash` has the zero prefix; it never recomputes `calculateHash`
  (`src/controllers/blockchain.js:93`). The model checks the prefix only.
- **Empty pool.** The design says a pool with no pending transaction still mines a block with the
  empty Merkle root. In the code the schema marks `merkleRoot` as a required String
  (`src/models/Block.js:12`), which rejects `""`, so `block.save()` (`src/controllers/blockchain.js:71`)
  fails and nothing is stored. `Mining.MineWith` does the same as written; the corrected reading
  stores the empty block.

## Model

| member | source | states |
|---|---|---|
| Text.Zeros | src/controllers/blockchain.js:47 | `'0'.repeat(n)`: exactly `n` characters, each `'0'` |
| Text.DecimalString | src/models/Block.js:32 | the rendering of a number in the hash pre-image: at least one character, all decimal digits, no leading zero |
| Text.DecimalRoundTrip | src/models/Block.js:32 | JavaScript's decimal rendering of index, timestamp and nonce in the hash pre-image reads back to the same number, so it loses nothing |
| Text.DecimalStringInjective | src/models/Block.js:32 | distinct numbers render to distinct strings |
| Blocks.MeetsDifficultyIff | src/controllers/blockchain.js:57 | `startsWith('0'.repeat(d))` holds exactly when the hash has at least `d` characters and the first `d` are all `'0'` |
| Blocks.PreimageIsAmbiguous | src/models/Block.js:31-33 | `calculateHash` is SHA-256 of a pre-image without delimiters: index 1 with previous hash `"2abc"` and index 12 with `"abc"` concatenate to the same string, so `calculateHash` gives them the same hash whatever SHA-256 is |
| Merkle.NextLevel | src/models/Block.js:19-26 | one pass over a level of length n yields ceil(n/2) hashes |
| Merkle.NextLevelEntries | src/models/Block.js:21-25 | entry i of the next level is `H(l[2i] + l[2i+1])`, or `H(l[2i] + l[2i])` when `2i+1` is out of range |
| Merkle.NextLevelShrinks | src/models/Block.js:19-26 | a level of more than one hash yields a strictly shorter, non-empty level, so the `while` loop terminates |
| Merkle.SmallRoots | src/models/Block.js:17-28 | no transactions give `""`; `[h1]` gives `h1`; `[h1,h2]` gives `H(h1+h2)`; `[h1,h2,h3]` gives `H(H(h1+h2) + H(h3+h3))` |
| Merkle.DuplicateLastSameLevel | src/models/Block.js:23 | pairing an odd last hash with itself makes a level indistinguishable from the same level with its last hash appended again |
| Merkle.DuplicateLastSameRoot | src/models/Block.js:16-29 | a list of an odd number (at least three) of hashes has the same root as that list with its last hash repeated |
| Merkle.PairUp | src/models/Block.js:20-25 | the inner `for` loop builds exactly the next level |
| Merkle.CalculateMerkleRoot | src/models/Block.js:16-29 | the nested loops compute the level-by-level reduction, `""` for no transactions, and a single hash is its own root |
| Transactions.NewTx | src/models/Transaction.js:8-14 | a record built without `timestamp`, `status` or `blockId` takes the schema defaults: pending, no block, fee 0.01, the clock reading at construction |
| Transactions.TxHashes | src/models/Block.js:18 | the Merkle input is each transaction's `hash`, in order |
| Transactions.Populate | src/controllers/blockchain.js:88 | resolving a block's references keeps order, yields only stored records, and yields exactly the referenced records when every reference resolves |
| Transactions.TagSeparatesPayloads | src/controllers/transaction.js:28 | with collision-free serialisation and HMAC, one key gives two payloads the same tag exactly when they are the same payload |
| Transactions.PopulateHashesStable | src/models/Block.js:18 | the root of a block depends only on its referenced hashes: a store that only changed statuses and block ids, or only grew, gives the same hash list |
| Wallets.FindByAddress | src/controllers/blockchain.js:76-77 | `findOne({ address })` yields the first wallet with that address, and nothing exactly when no wallet has it |
| Wallets.FindById | src/controllers/transaction.js:16 | `findById` yields a wallet with that id, and nothing exactly when none has it |
| Wallets.FindOwnAddress | src/models/Wallet.js:7 | under the unique index on `address`, each wallet's address finds that wallet |
| Wallets.FindByAddressIgnoresBalances | src/controllers/blockchain.js:76-81 | balance updates never change which wallet an address finds |
| Admission.OwnedWallet | src/controllers/transaction.js:16-19 | the sender wallet is accepted exactly when it exists and belongs to the requesting user |
| Admission.AdmissionChecks | src/controllers/transaction.js:12-25 | each rejection, in the source's order, happens exactly when the earlier checks pass and its own check fails: amount below 0.01 or no recipient, wallet missing or not owned, `balance < amount + 0.01`, recipient address unknown |
| Admission.CreateTransactionAsWritten | src/controllers/transaction.js:27-39 | an admitted record carries sender, recipient, amount, fee 0.01, pending status and no block; its tag and hash cover a payload with the signing-time timestamp, while the stored timestamp is the later schema default |
| Admission.CreateTransaction | src/controllers/transaction.js:27-41 | storing the timestamp it signs, the admitted record's stored fields carry the sender key's tag and the hash of those fields |
| Admission.ValidateTransaction | src/controllers/transaction.js:83-99 | 404 exactly for an unknown id; 403 exactly when the sender wallet is missing or not the user's; otherwise `isValid` holds exactly when the tag over the stored fields matches and the sender's balance covers `amount + fee` |
| Admission.AcceptedTransactionValidates | src/controllers/transaction.js:20-41 | when stored and signed fields agree, a transaction admitted against a directory validates as `true` while the balance has not moved |
| Admission.AsWrittenValidatesWhenClocksAgree | src/controllers/transaction.js:27-39 | with the timestamp serialised as one integer on both sides, the as-written round trip holds when the signing and storing clock readings coincide |
| Admission.AsWrittenTimestampDriftFailsValidation | src/controllers/transaction.js:27-39 | as written, when the two clock readings differ a freshly admitted transaction validates as `false` (serialisation and HMAC collision-free) |
| Admission.AlteredTransactionFailsValidation | src/controllers/transaction.js:90-98 | a stored record whose signed fields changed after signing validates as `false` (serialisation and HMAC collision-free) |
| Mining.SelectFrom | src/controllers/blockchain.js:44 | the selection from a position on: at most `limit` positions, all of stored pending transactions from that position, strictly increasing |
| Mining.SelectFromTakesAll | src/controllers/blockchain.js:44 | a selection that stops short of its limit holds every pending transaction from that position on |
| Mining.SelectFromNoGaps | src/controllers/blockchain.js:44 | a pending transaction before the last one selected is selected too |
| Mining.SelectPending | src/controllers/blockchain.js:44 | at most ten transactions, all stored and pending, in store order |
| Mining.SelectPendingSkipsNone | src/controllers/blockchain.js:44 | the batch skips no pending transaction before its last one, and takes every pending one when it holds fewer than ten |
| Mining.TipPosition | src/controllers/blockchain.js:45 | nothing exactly on an empty chain; otherwise a block whose index no block exceeds |
| Mining.TipFrom | src/controllers/blockchain.js:45 | the scan yields a block of greatest index |
| Mining.SearchNonce | src/controllers/blockchain.js:50-57 | the search returns the least nonce whose hash has the zero prefix, with that hash |
| Mining.NetDeltaUninvolved | src/controllers/blockchain.js:76-81 | a wallet on neither side of any transfer keeps its balance |
| Mining.TransferAsWritten | src/controllers/blockchain.js:76-81 | as written, the step succeeds exactly when both parties exist and moves only balances |
| Mining.Transfer | src/controllers/blockchain.js:76-81 | the step succeeds exactly when both parties exist; under unique addresses every wallet gains its credit and loses its debit of `amount + fee` |
| Mining.TransferAsWrittenAgreesBetweenDistinctWallets | src/controllers/blockchain.js:76-81 | between two distinct wallets the as-written step is the corrected one |
| Mining.SelfTransferAsWrittenMintsAmount | src/controllers/blockchain.js:76-81 | a transfer to oneself leaves the wallet `amount` richer as written, and costs the fee when corrected |
| Mining.Step | src/controllers/blockchain.js:76-81 | either reading of the balance step succeeds exactly when both parties exist, and changes balances only |
| Mining.Settle | src/controllers/blockchain.js:72-82 | settlement, with the as-written or the corrected balance step, keeps every wallet but its balance and every transaction but the selected ones, each of which is unchanged or confirmed into the block |
| Mining.PartiesKnownIgnoresBalances | src/controllers/blockchain.js:76-77 | balance updates do not change whether a transfer's parties are found |
| Mining.ConfirmKeepsParties | src/controllers/blockchain.js:73-74 | confirming a transaction changes no transaction's sender or recipient |
| Mining.SettleCompletes | src/controllers/blockchain.js:72-82 | when every selected transaction's sender and recipient are in the directory, the settlement loop runs to the end |
| Mining.SettleCompleteKnowsParties | src/controllers/blockchain.js:76-77 | a settlement that ran to the end found the sender and recipient of every selected transaction |
| Mining.SettleCompleteIffPartiesKnown | src/controllers/blockchain.js:72-82 | the settlement loop runs to the end exactly when every selected transaction's sender and recipient are in the directory |
| Mining.SettleConfirmsBatch | src/controllers/blockchain.js:72-75 | a completed settlement confirms every selected transaction with the block's id |
| Mining.CorrectedSettleMovesBalances | src/controllers/blockchain.js:72-82 | a completed corrected settlement under unique addresses moves each balance by the batch's net credits of `amount` and debits of `amount + fee` |
| Mining.ConfirmKeepsNoSelfTransfers | src/controllers/blockchain.js:73-74 | confirming the head of a batch keeps the rest of it free of transfers to oneself |
| Mining.SettleVariantsAgree | src/controllers/blockchain.js:72-82 | on a batch with no transfer from a wallet to itself, the as-written settlement is the corrected one: same transactions, same wallets, same completion |
| Mining.SettleMovesBalances | src/controllers/blockchain.js:72-82 | a completed settlement under unique addresses moves each balance by the batch's net transfers: corrected for every batch, as written for every batch without a transfer to oneself |
| Mining.SettleSelfTransfer | src/controllers/blockchain.js:76-81 | a batch of one transfer from a wallet to itself leaves it `amount` richer as written, and `fee` poorer corrected |
| Mining.NetDeltaContentOnly | src/controllers/blockchain.js:73-78 | the balance effect of a batch ignores statuses and block ids |
| Mining.MineWith | src/controllers/blockchain.js:43-82 | with either settlement: the block built has an index one past the tip's and links to the tip's hash (0 and 64 zeros on an empty chain); it holds the selection, its count and its Merkle root (`""` and 0 for an empty pool); its hash is `calculateHash` at the nonce; the save stores it exactly when its required strings are non-empty (as written the root too, corrected not the root); a rejected save leaves the store unchanged, a stored block is appended and the store is the settlement's result |
| Mining.Mine | src/controllers/blockchain.js:50-71 | the outcome is `MineWith` at the block's nonce, which is the least whose hash meets difficulty 4, and the block's hash is that hash |
| Mining.MineConfirmsOnlyBatch | src/controllers/blockchain.js:72-75 | mining changes no transaction outside the batch; a changed one went from pending to confirmed into the new block; a completed run confirms the whole batch |
| Mining.MineKeepsKeys | src/controllers/blockchain.js:76-81 | mining keeps every wallet's id, owner, address and key, changing balances only |
| Mining.MineCompleteIffPartiesKnown | src/controllers/blockchain.js:71-82 | mining settles its whole batch exactly when the block is stored and every batched transaction's sender and recipient are in the directory |
| Mining.MineMovesBalances | src/controllers/blockchain.js:72-82 | a completed mining run under unique addresses moves each balance by the batch's net credits and debits: corrected always, as written when no batched transaction is a transfer to oneself |
| Mining.MineSelfTransfer | src/controllers/blockchain.js:44-81 | mining a pool whose only pending transaction is a transfer from a wallet to itself leaves that wallet, once the block is stored, `amount` richer as written and `fee` poorer corrected, and unchanged when the save rejects |
| Mining.MineEmptyPoolRejected | src/models/Block.js:12-17 | as written, mining a pool with no pending transaction builds a block with the empty Merkle root, the save rejects it, and the store is unchanged |
| Validation.CheckSignatures | src/controllers/blockchain.js:102-116 | as written, any transaction makes the tag step throw (`crypto` is not imported); corrected, the answer is whether every transaction's tag matches; it throws only when some sender has no wallet, and never when every sender has one |
| Validation.Walk | src/controllers/blockchain.js:90-117 | the walk from block `i` says `true` only when its flag was set and every block from `i` on passes linkage, prefix and root checks; as written it can only raise the missing-`crypto` error, corrected only the unknown-sender one |
| Validation.ValidateChainAsWritten | src/controllers/blockchain.js:87-119 | as written, `true` guarantees only that the blocks from the second on pass linkage, prefix and root checks; the only error is the missing `crypto` |
| Validation.ValidateChain | src/controllers/blockchain.js:87-119 | corrected, `true` guarantees that every block passes linkage, prefix and root checks; the only error is an unknown sender |
| Validation.BlockAnswer | src/controllers/blockchain.js:102-116 | for a block whose header and root pass, the corrected tag loop answers whether the block passes every check |
| Validation.WalkAnswer | src/controllers/blockchain.js:90-117 | when the corrected walk answers, it answers whether every remaining block passes linkage, prefix, root and tag checks |
| Validation.WalkFaultWitness | src/controllers/blockchain.js:103-111 | the corrected walk throws only when some referenced transaction's sender has no wallet |
| Validation.PassesFromStep | src/controllers/blockchain.js:90-117 | every block from `i` on passes exactly when block `i` passes and every block after it does |
| Validation.WalkStep | src/controllers/blockchain.js:91-116 | on a block whose senders all have wallets the tag loop answers, and the walk answers `false` on a header or root failure and otherwise goes on with the flag and-ed with the loop's answer |
| Validation.WalkNoFault | src/controllers/blockchain.js:103-111 | the corrected walk answers whenever every referenced sender has a wallet |
| Validation.ValidateChainCorrect | src/controllers/blockchain.js:87-119 | the corrected validator says `true` exactly when every block, the first included, passes every check; it throws only when some referenced sender has no wallet, and never when every one has |
| Validation.RehashedBlockFailsValidation | src/controllers/blockchain.js:93 | overwriting the hash of a block that has a linked successor makes validation fail |
| Validation.ForgedMerkleRootFailsValidation | src/controllers/blockchain.js:97-101 | overwriting a block's correct Merkle root makes validation fail |
| Validation.AsWrittenAcceptsShortChains | src/controllers/blockchain.js:90 | as written, a chain of at most one block is valid whatever it contains |
| Validation.GenesisTamperUndetectedAsWritten | tests/blockchain.test.js:215-223 | a lone block whose hash misses its target is accepted as written and rejected corrected |
| Validation.TamperedHashMissesTarget | tests/blockchain.test.js:216 | the test's `"tampered-hash"` misses difficulty 4 |
| Validation.AsWrittenStep | src/controllers/blockchain.js:93-111 | one as-written step: a header or root failure answers `false`, a block that references no stored transaction passes the flag to the next block, and any other block throws at the missing HMAC |
| Validation.AsWrittenThrowsOnTransactions | src/controllers/blockchain.js:4 | as written, the walk can only throw the missing-`crypto` error, says `true` only when no checked block references a stored transaction, and throws at the first checked block that does |
| Invariants.EmptyConsistent | src/models/Wallet.js:7 | an empty chain and transaction store over a directory with unique addresses meets the ledger invariant |
| Invariants.Submit | src/controllers/transaction.js:11-43 | admission storing the timestamp it signs rejects exactly as its checks say and otherwise appends one pending, unassigned record, leaving blocks and every wallet balance untouched |
| Invariants.SubmitPreservesConsistent | src/controllers/transaction.js:11-43 | admission storing the timestamp it signs keeps the ledger invariant |
| Invariants.ConsistentIndexed | src/controllers/blockchain.js:45-47 | in a consistent store every block sits at the position its index names |
| Invariants.TipIsLast | src/controllers/blockchain.js:45 | when every block sits at its index, the highest-index block is the last one stored |
| Invariants.MinedBlockFollowsLast | src/controllers/blockchain.js:45-47 | when every block sits at its index, a new block takes the next index and links to the last hash |
| Invariants.MiningCompletes | src/controllers/blockchain.js:71-82 | in a consistent store settlement never meets a missing wallet, so it runs to the end exactly when the block is stored |
| Invariants.TxSignedIgnoresBalances | src/controllers/blockchain.js:103-111 | balance updates do not change whose tag verifies |
| Invariants.MineIsMiningStep | src/controllers/blockchain.js:59-82 | a mining run that stores its block appends that one block, moves only balances, and only confirms pending transactions it lists |
| Invariants.StepKeepsTxs | src/controllers/blockchain.js:72-81 | such a step keeps every transaction signed, with known parties, and either pending or confirmed into a block that lists it |
| Invariants.StepKeepsOldBlocks | src/controllers/blockchain.js:88-101 | such a step leaves every earlier block linked, at its target and matching its Merkle root |
| Invariants.StepNewBlockOk | src/controllers/blockchain.js:45-69 | the appended block, placed and linked after the last one and at its target, meets the invariant |
| Invariants.MinePreservesLinked | src/controllers/blockchain.js:45-71 | with either settlement and whatever the transaction store holds, mining at a hash that meets difficulty 4 keeps every block at its index, the first linked to 64 zeros, and every block linked, at its target and with a non-empty hash |
| Invariants.LinkedAppend | src/controllers/blockchain.js:45-69 | a block at the next index, linked to the last hash (64 zeros on an empty chain), at its target and with a non-empty hash, keeps the chain linked |
| Invariants.MineEmptyPoolStoresEmptyBlock | src/controllers/blockchain.js:44-71 | on a linked chain with no pending transaction and a hash at difficulty 4, the as-written save stores nothing, while the corrected one appends a block with no transactions, count 0 and the empty root, leaves transactions and wallets alone, and keeps the chain linked |
| Invariants.MinePreservesConsistent | src/controllers/blockchain.js:43-82 | mining, with either settlement, keeps the ledger invariant whether or not the save stores the block, and a stored block's settlement always runs to the end |
| Invariants.ReferencedTxsSigned | src/controllers/blockchain.js:102-116 | in a consistent store every transaction a block references has a sender wallet and a matching tag |
| Invariants.ConsistentValidates | src/controllers/blockchain.js:87-119 | a consistent store is already in index order, so it is what the sorted query returns, and the corrected validator says `true` on it |
| Invariants.NoTxInTwoBlocks | src/controllers/blockchain.js:72-74 | in a consistent store no transaction is referenced by two blocks |
| Invariants.AdmittedTransfersCanOverdraw | src/controllers/blockchain.js:76-81 | funds are checked only at admission: two transfers each admissible on a balance of 0.02 take it to -0.02 when mined |
| Status.LatestPosition | src/controllers/blockchain.js:32 | nothing exactly on an empty chain; otherwise a block whose timestamp no block exceeds |
| Status.LatestFrom | src/controllers/blockchain.js:32 | the scan yields a block of greatest timestamp |
| Status.GetStatus | src/controllers/blockchain.js:29-41 | the counts of blocks and transactions, and `""` on an empty chain, otherwise the hash of a latest block |
| Status.StatusAfterSubmit | src/controllers/blockchain.js:29-41 | an admission adds one to the transaction count and changes nothing else in the status |
| Status.LatestAfterLaterAppend | src/controllers/blockchain.js:32 | a block appended with a timestamp later than every stored one is the latest |
| Status.StatusAfterMine | src/controllers/blockchain.js:29-41 | once mining stores a block at a clock reading later than every stored block, the status has one more block and the new block's hash; a rejected save leaves the status unchanged |

## Left out

- HTTP plumbing (routing, response shapes, status codes beyond the error kinds), authentication, rate limiting, the admin gate and the wallet-ownership gate (`checkWalletOwnership`, which answers 403 before `createTransaction` runs): no ledger logic. `Admission.AdmissionChecks` models the controller's own checks in their order.
- Mongoose persistence: replaced by sequences. Document ids become positions, and a block's id is its position in the block store.
- `getBlocks`, `getBlock`, `getTransaction`, `listTransactions` and `getWalletTransactions`: database queries and pagination, outside the ledger engine.
- Wallet creation, `Wallet.generateWallet`, key generation and funding: randomness and CRUD. A directory of wallets is an input; `Invariants.EmptyConsistent` asks only that its addresses be unique, as the unique index guarantees.
- The internals of SHA-256, HMAC-SHA256 and `JSON.stringify`: uninterpreted functions.
- JSON rendering of the timestamp. The signer serialises `Date.now()`, a number. Both verifiers serialise the stored `Date`, which `JSON.stringify` renders as an ISO string. The model passes the timestamp as one integer to an abstract serialiser, so it cannot show that difference.
- Floating-point money: amounts and balances are integer hundredths, so `amount + 0.01` rounding is not modelled.
- Concurrency between requests, such as two simultaneous mines selecting the same pending transactions.
- Validation.ValidateChain: walks `chain` in the order given. The source walks the result of `Block.find().sort({ index: 1 })` (src/controllers/blockchain.js:88), so `chain` stands for that sorted result (`Validation.SortedByIndex`); the sort itself is not modelled. A consistent store is already sorted (`Invariants.ConsistentValidates`).
- Validation.ValidateChainAsWritten: the same, for the as-written walk.
- Mongo's order among equal sort keys is unspecified. `Mining.TipPosition` and `Status.LatestPosition` pick the earliest stored block among ties; pending selection follows store order.
- Mining.Mine: asks for a ghost nonce known to meet the target. The source's search has no bound and does not terminate when no nonce meets the target.
- Mining.Transfer: states the balance movement only under unique addresses. That is the directory's unique index; without it the first-match lookups still decide who is debited and credited.
- Admission.AsWrittenValidatesWhenClocksAgree: holds only in the model's single-integer timestamp. The source's verifier serialises the stored `Date` (src/controllers/transaction.js:95,97) where the signer serialised the number `Date.now()`, so in the real program the tag does not match even when the clocks agree.
- Invariants.Submit: admits with `Admission.CreateTransaction`, which stores the timestamp it signs. The source stores a later schema default, modelled by `Admission.CreateTransactionAsWritten`.
- Invariants.SubmitPreservesConsistent: covers that single-clock admission only. As written, a drifted timestamp breaks the invariant's tag clause (`Admission.AsWrittenTimestampDriftFailsValidation`). `Invariants.MinePreservesLinked` keeps the linkage and prefix guarantees without any transaction clause.
- Mining.SettleMovesBalances: as written, the net-transfer formula is promised only for batches without a transfer to oneself, because the source's settlement does not move a self-transfer's balance that way (`Mining.SettleSelfTransfer`).
- Mining.MineMovesBalances: same restriction as `Mining.SettleMovesBalances`, for the same reason.
- Admission.AsWrittenTimestampDriftFailsValidation: holds only when serialisation and HMAC are collision-free; an uninterpreted function could map the two payloads together.
- Admission.AlteredTransactionFailsValidation: same collision-freedom requirement.
- Invariants.MinePreservesConsistent: asks that the mined hash meet difficulty 4, which `Mining.Mine` guarantees.
- What a thrown exception does to the response (an unhandled rejection in Express): the model stops at the error value, with the state as far as the source had saved it.

## Findings

| source | as written | input that shows it | evidently intended | confidence | as-written member | corrected member |
|---|---|---|---|---|---|---|
| src/controllers/blockchain.js:90 | the walk starts at `i = 1`, so the first block is never checked | a one-block chain whose hash is `"tampered-hash"`, as the tamper test at tests/blockchain.test.js:215-223 builds | every block passes its own prefix and root checks, the first one without linkage | high, not executed | Validation.GenesisTamperUndetectedAsWritten | Validation.ValidateChainCorrect |
| src/controllers/blockchain.js:111 | `crypto.HmacSHA256` names a module the file never imports (line 4 imports only `createHash`), so the walk throws at the first transaction it checks | any chain of two blocks whose second block references a stored transaction and passes linkage, prefix and root | recompute the tag with HMAC-SHA256 as `createTransaction` does | high, not executed | Validation.AsWrittenThrowsOnTransactions | Validation.ValidateChainCorrect |
| src/controllers/transaction.js:27-39 | the signed payload's `timestamp` is not stored; the record takes the schema default, a later clock reading | an admission where the schema default is read one millisecond after the signed `Date.now()` | store the signed timestamp so the tag verifies over the stored fields, with the timestamp serialised as one integer on both sides (the real verifier also serialises a `Date`, see "## Left out") | high, not executed | Admission.AsWrittenTimestampDriftFailsValidation | Admission.AcceptedTransactionValidates |
| src/models/Block.js:12 | `merkleRoot` is a required String and Mongoose's `required` rejects `""`, while `calculateMerkleRoot` returns `""` for no transactions (line 17), so `block.save()` (src/controllers/blockchain.js:71) throws when the pool is empty | a store with no pending transaction: mining stores no block and the request ends in an unhandled rejection | an empty pool still mines a block with the empty root and no transactions, as the design describes | high, not executed | Mining.MineEmptyPoolRejected | Invariants.MineEmptyPoolStoresEmptyBlock |
| src/controllers/blockchain.js:76-81 | both wallet documents are loaded before either is saved, so with `fromWallet == toWallet` the credit is saved over the debit | a pending transfer of 0.01 from a wallet to itself: its balance rises by 0.01 instead of falling by the fee | the sender pays `amount + fee` and the recipient receives `amount`, so a self-transfer costs the fee | medium, not executed | Mining.MineSelfTransfer | Mining.CorrectedSettleMovesBalances |
