/** The three collections the ledger reads and writes, in place of the database. */
module Store {
  import opened Blocks
  import opened Transactions
  import opened Wallets

  /** Blocks in index order; transactions in insertion order, a transaction's
      id being its position; wallets in insertion order. */
  datatype Ledger = Ledger(blocks: seq<Block>, txs: seq<Tx>, wallets: seq<Wallet>)

  const EmptyLedger: Ledger := Ledger([], [], [])
}
