/** `mineBlock`: select pending transactions, link to the tip, search a nonce,
    store the block, confirm the transactions and move the balances. */
module Mining {
  import opened Wrappers
  import opened Text
  import opened Primitives
  import opened Merkle
  import opened Blocks
  import opened Transactions
  import opened Wallets
  import opened Store
  import opened Variants

  /** At most this many pending transactions go into one block. */
  const BATCH_SIZE: nat := 10
  /** The difficulty `mineBlock` fixes for every block it mines. */
  const MINING_DIFFICULTY: nat := 4
  /** `previousHash` of the first block: 64 `'0'` characters. */
  const GENESIS_PREVIOUS_HASH: string := Zeros(64)

  // ---------------------------------------------------------------- selection

  /** `Transaction.find({ status: 'pending' }).limit(limit)` over the store from
      position `from` on, in store order. */
  function SelectFrom(txs: seq<Tx>, from: nat, limit: nat): (sel: seq<TxId>)
    requires from <= |txs|
    ensures |sel| <= limit
    ensures forall k :: 0 <= k < |sel| ==> from <= sel[k] < |txs| && txs[sel[k]].status == Pending
    ensures forall k, m :: 0 <= k < m < |sel| ==> sel[k] < sel[m]
    decreases |txs| - from
  {
    if from == |txs| || limit == 0 then []
    else if txs[from].status == Pending then [from] + SelectFrom(txs, from + 1, limit - 1)
    else SelectFrom(txs, from + 1, limit)
  }

  /** A selection that stops short of its limit takes every pending transaction. */
  lemma {:induction false} SelectFromTakesAll(txs: seq<Tx>, from: nat, limit: nat)
    requires from <= |txs|
    requires |SelectFrom(txs, from, limit)| < limit
    ensures forall p :: from <= p < |txs| && txs[p].status == Pending ==> p in SelectFrom(txs, from, limit)
    decreases |txs| - from
  {
    if from < |txs| {
      var sel := SelectFrom(txs, from, limit);
      if txs[from].status == Pending {
        var rest := SelectFrom(txs, from + 1, limit - 1);
        assert sel == [from] + rest;
        SelectFromTakesAll(txs, from + 1, limit - 1);
        assert from in sel;
        assert forall p :: p in rest ==> p in sel;
      } else {
        assert sel == SelectFrom(txs, from + 1, limit);
        SelectFromTakesAll(txs, from + 1, limit);
      }
    }
  }

  /** The selection skips no pending transaction before the last one it takes. */
  lemma {:induction false} SelectFromNoGaps(txs: seq<Tx>, from: nat, limit: nat, p: nat)
    requires from <= p < |txs| && txs[p].status == Pending
    requires |SelectFrom(txs, from, limit)| > 0 && p < SelectFrom(txs, from, limit)[|SelectFrom(txs, from, limit)| - 1]
    ensures p in SelectFrom(txs, from, limit)
    decreases |txs| - from
  {
    var sel := SelectFrom(txs, from, limit);
    if txs[from].status == Pending {
      var rest := SelectFrom(txs, from + 1, limit - 1);
      assert sel == [from] + rest;
      if p == from {
        assert sel[0] == p;
      } else {
        assert sel[|sel| - 1] == rest[|rest| - 1];
        SelectFromNoGaps(txs, from + 1, limit - 1, p);
        assert p in rest;
      }
    } else {
      assert sel == SelectFrom(txs, from + 1, limit);
      SelectFromNoGaps(txs, from + 1, limit, p);
    }
  }

  /** The batch of a new block: the first (at most) ten pending transactions. */
  function SelectPending(txs: seq<Tx>): (sel: seq<TxId>)
    ensures |sel| <= BATCH_SIZE
    ensures forall k :: 0 <= k < |sel| ==> sel[k] < |txs| && txs[sel[k]].status == Pending
    ensures forall k, m :: 0 <= k < m < |sel| ==> sel[k] < sel[m]
  {
    SelectFrom(txs, 0, BATCH_SIZE)
  }

  /** The batch is the first pending transactions in store order: every pending
      one when fewer than ten are taken, and none skipped before the last taken. */
  lemma SelectPendingSkipsNone(txs: seq<Tx>)
    ensures var sel := SelectPending(txs);
      |sel| < BATCH_SIZE ==> forall p :: 0 <= p < |txs| && txs[p].status == Pending ==> p in sel
    ensures var sel := SelectPending(txs);
      forall p :: 0 <= p < |txs| && txs[p].status == Pending && |sel| > 0 && p < sel[|sel| - 1] ==> p in sel
  {
    if |SelectPending(txs)| < BATCH_SIZE {
      SelectFromTakesAll(txs, 0, BATCH_SIZE);
    }
    forall p | 0 <= p < |txs| && txs[p].status == Pending && |SelectPending(txs)| > 0
                 && p < SelectPending(txs)[|SelectPending(txs)| - 1]
      ensures p in SelectPending(txs)
    {
      SelectFromNoGaps(txs, 0, BATCH_SIZE, p);
    }
  }

  // ---------------------------------------------------------------- the tip

  /** `Block.findOne().sort({ index: -1 })`: the position of a block of greatest
      index (the earliest such, among equal indices). */
  function TipPosition(blocks: seq<Block>): (r: Option<nat>)
    ensures r.None? <==> |blocks| == 0
    ensures r.Some? ==> r.value < |blocks| && forall j :: 0 <= j < |blocks| ==> blocks[j].index <= blocks[r.value].index
  {
    if |blocks| == 0 then None else Some(TipFrom(blocks, 0, 1))
  }

  function TipFrom(blocks: seq<Block>, best: nat, from: nat): (r: nat)
    requires best < from <= |blocks|
    requires forall j :: 0 <= j < from ==> blocks[j].index <= blocks[best].index
    ensures r < |blocks| && forall j :: 0 <= j < |blocks| ==> blocks[j].index <= blocks[r].index
    decreases |blocks| - from
  {
    if from == |blocks| then best
    else if blocks[from].index > blocks[best].index then TipFrom(blocks, from, from + 1)
    else TipFrom(blocks, best, from + 1)
  }

  /** The index and `previousHash` of the next block. */
  function NextIndex(blocks: seq<Block>): nat
  {
    match TipPosition(blocks)
    case None => 0
    case Some(q) => blocks[q].index + 1
  }

  function NextPreviousHash(blocks: seq<Block>): string
  {
    match TipPosition(blocks)
    case None => GENESIS_PREVIOUS_HASH
    case Some(q) => blocks[q].hash
  }

  // ---------------------------------------------------------------- the nonce

  /** Everything the block hash covers except the nonce, fixed before the search. */
  datatype Header = Header(index: nat, previousHash: string, timestamp: nat, merkleRoot: string, transactions: seq<TxId>)

  function Candidate(c: Crypto, l: Ledger, now: nat): Header
  {
    var sel := SelectPending(l.txs);
    Header(NextIndex(l.blocks), NextPreviousHash(l.blocks), now, MerkleRoot(c, TxHashes(Populate(sel, l.txs))), sel)
  }

  function HeaderHash(c: Crypto, h: Header, nonce: nat): string
  {
    CalculateHash(c, h.index, h.previousHash, h.timestamp, h.merkleRoot, nonce)
  }

  /** The `do { ... } while` search upward from 0. It stops only at a hash meeting
      the target, so its caller must know one exists: `bound` is such a nonce. */
  method SearchNonce(c: Crypto, h: Header, difficulty: nat, ghost bound: nat) returns (nonce: nat, hash: string)
    requires MeetsDifficulty(HeaderHash(c, h, bound), difficulty)
    ensures hash == HeaderHash(c, h, nonce)
    ensures MeetsDifficulty(hash, difficulty)
    ensures nonce <= bound
    ensures forall n :: 0 <= n < nonce ==> !MeetsDifficulty(HeaderHash(c, h, n), difficulty)
  {
    nonce := 0;
    hash := HeaderHash(c, h, nonce);
    while !StartsWith(hash, Zeros(difficulty))
      invariant nonce <= bound
      invariant hash == HeaderHash(c, h, nonce)
      invariant forall n :: 0 <= n < nonce ==> !MeetsDifficulty(HeaderHash(c, h, n), difficulty)
      decreases bound - nonce
    {
      nonce := nonce + 1;
      hash := HeaderHash(c, h, nonce);
    }
  }

  // ---------------------------------------------------------------- balances

  /** What one transfer does to the balance of `address`: the recipient gains
      `amount`, the sender loses `amount + fee`. */
  function Delta(address: Address, t: Tx): int
  {
    (if address == t.toWallet then t.amount else 0) - (if address == t.fromWallet then t.amount + t.fee else 0)
  }

  function NetDelta(address: Address, ts: seq<Tx>): int
  {
    if |ts| == 0 then 0 else Delta(address, ts[0]) + NetDelta(address, ts[1..])
  }

  /** An address on neither side of any transfer keeps its balance. */
  lemma {:induction false} NetDeltaUninvolved(address: Address, ts: seq<Tx>)
    requires forall k :: 0 <= k < |ts| ==> ts[k].fromWallet != address && ts[k].toWallet != address
    ensures NetDelta(address, ts) == 0
  {
    if |ts| > 0 {
      NetDeltaUninvolved(address, ts[1..]);
    }
  }

  predicate PartiesKnown(ws: seq<Wallet>, t: Tx)
  {
    FindByAddress(ws, t.fromWallet).Some? && FindByAddress(ws, t.toWallet).Some?
  }

  /** The balance step for one transaction as written: both wallets are loaded,
      then the sender saved with `balance - (amount + fee)`, then the recipient
      saved with its LOADED balance plus `amount`. A missing wallet throws (`None`). */
  function TransferAsWritten(ws: seq<Wallet>, t: Tx): (r: Option<seq<Wallet>>)
    ensures r.Some? <==> PartiesKnown(ws, t)
    ensures r.Some? ==> SameKeys(ws, r.value)
  {
    match (FindByAddress(ws, t.fromWallet), FindByAddress(ws, t.toWallet))
    case (Some(f), Some(g)) =>
      var loadedTo := ws[g];
      var debited := ws[f := ws[f].(balance := ws[f].balance - (t.amount + t.fee))];
      Some(debited[g := loadedTo.(balance := loadedTo.balance + t.amount)])
    case _ => None
  }

  /** The balance step for one transaction, the credit applied to the balance as
      it stands after the debit. */
  function Transfer(ws: seq<Wallet>, t: Tx): (r: Option<seq<Wallet>>)
    ensures r.Some? <==> PartiesKnown(ws, t)
    ensures r.Some? ==> SameKeys(ws, r.value)
    ensures r.Some? && UniqueAddresses(ws) ==>
              forall q :: 0 <= q < |ws| ==> r.value[q].balance == ws[q].balance + Delta(ws[q].address, t)
  {
    match (FindByAddress(ws, t.fromWallet), FindByAddress(ws, t.toWallet))
    case (Some(f), Some(g)) =>
      var debited := ws[f := ws[f].(balance := ws[f].balance - (t.amount + t.fee))];
      Some(debited[g := debited[g].(balance := debited[g].balance + t.amount)])
    case _ => None
  }

  /** Between distinct wallets the two versions agree. */
  lemma TransferAsWrittenAgreesBetweenDistinctWallets(ws: seq<Wallet>, t: Tx)
    requires t.fromWallet != t.toWallet
    ensures TransferAsWritten(ws, t) == Transfer(ws, t)
  {
  }

  /** A transfer to oneself, as written, leaves the wallet `amount` richer: the
      recipient's save overwrites the sender's debit. Corrected, it costs the fee. */
  lemma SelfTransferAsWrittenMintsAmount(ws: seq<Wallet>, t: Tx, q: nat)
    requires UniqueAddresses(ws)
    requires q < |ws| && ws[q].address == t.fromWallet == t.toWallet
    ensures TransferAsWritten(ws, t).Some? && Transfer(ws, t).Some?
    ensures TransferAsWritten(ws, t).value[q].balance == ws[q].balance + t.amount
    ensures Transfer(ws, t).value[q].balance == ws[q].balance - t.fee
  {
    FindOwnAddress(ws, q);
  }

  /** The balance step mining applies to one transaction. */
  function Step(ws: seq<Wallet>, t: Tx, v: Variant): (r: Option<seq<Wallet>>)
    ensures r.Some? <==> PartiesKnown(ws, t)
    ensures r.Some? ==> SameKeys(ws, r.value)
  {
    if v == AsWritten then TransferAsWritten(ws, t) else Transfer(ws, t)
  }

  // ---------------------------------------------------------------- settlement

  datatype Settlement = Settlement(txs: seq<Tx>, wallets: seq<Wallet>, complete: bool)

  /** `tx.status = 'confirmed'; tx.blockId = block._id`. */
  function Confirm(t: Tx, blockId: nat): Tx
  {
    t.(status := Confirmed, blockId := Some(blockId))
  }

  /** The loop after `block.save()`: each selected transaction is confirmed with
      the block's id and saved, then its balances move by `Step` (as written, the
      recipient's stale load is saved last). A missing wallet throws mid-loop
      (`complete` false): that transaction is already confirmed, the rest stay
      as they were. */
  function Settle(txs: seq<Tx>, ws: seq<Wallet>, ps: seq<TxId>, blockId: nat, v: Variant): (s: Settlement)
    requires forall k :: 0 <= k < |ps| ==> ps[k] < |txs|
    ensures |s.txs| == |txs| && SameKeys(ws, s.wallets)
    ensures forall p :: 0 <= p < |txs| ==> s.txs[p] == txs[p] || s.txs[p] == Confirm(txs[p], blockId)
    ensures forall p :: 0 <= p < |txs| && p !in ps ==> s.txs[p] == txs[p]
    decreases |ps|
  {
    if |ps| == 0 then Settlement(txs, ws, true)
    else
      var t := txs[ps[0]];
      var confirmed := txs[ps[0] := Confirm(t, blockId)];
      match Step(ws, t, v)
      case None => Settlement(confirmed, ws, false)
      case Some(ws1) =>
        var rest := Settle(confirmed, ws1, ps[1..], blockId, v);
        assert forall p :: 0 <= p < |txs| && p !in ps ==> p !in ps[1..] && p != ps[0];
        rest
  }

  /** Balance changes do not change who is known. */
  lemma PartiesKnownIgnoresBalances(ws: seq<Wallet>, ws': seq<Wallet>, t: Tx)
    requires SameKeys(ws, ws')
    ensures PartiesKnown(ws', t) == PartiesKnown(ws, t)
  {
    FindByAddressIgnoresBalances(ws, ws', t.fromWallet);
    FindByAddressIgnoresBalances(ws, ws', t.toWallet);
  }

  /** Confirming a transaction keeps its parties. */
  lemma ConfirmKeepsParties(txs: seq<Tx>, p: nat, q: nat, blockId: nat)
    requires p < |txs| && q < |txs|
    ensures txs[p := Confirm(txs[p], blockId)][q].fromWallet == txs[q].fromWallet
    ensures txs[p := Confirm(txs[p], blockId)][q].toWallet == txs[q].toWallet
  {
  }

  /** Settlement runs to the end when every party is in the directory. */
  lemma {:induction false} SettleCompletes(txs: seq<Tx>, ws: seq<Wallet>, ps: seq<TxId>, blockId: nat, v: Variant)
    requires forall k :: 0 <= k < |ps| ==> ps[k] < |txs|
    requires forall k :: 0 <= k < |ps| ==> PartiesKnown(ws, txs[ps[k]])
    ensures Settle(txs, ws, ps, blockId, v).complete
    decreases |ps|
  {
    if |ps| > 0 {
      var t := txs[ps[0]];
      var confirmed := txs[ps[0] := Confirm(t, blockId)];
      assert PartiesKnown(ws, t);
      var ws1 := Step(ws, t, v).value;
      var tail := ps[1..];
      forall k | 0 <= k < |tail|
        ensures PartiesKnown(ws1, confirmed[tail[k]])
      {
        assert tail[k] == ps[k + 1];
        assert PartiesKnown(ws, txs[ps[k + 1]]);
        ConfirmKeepsParties(txs, ps[0], tail[k], blockId);
        PartiesKnownIgnoresBalances(ws, ws1, confirmed[tail[k]]);
      }
      SettleCompletes(confirmed, ws1, tail, blockId, v);
    }
  }

  /** A settlement that runs to the end found every party in the directory. */
  lemma {:induction false} SettleCompleteKnowsParties(txs: seq<Tx>, ws: seq<Wallet>, ps: seq<TxId>, blockId: nat, v: Variant)
    requires forall k :: 0 <= k < |ps| ==> ps[k] < |txs|
    requires Settle(txs, ws, ps, blockId, v).complete
    ensures forall k :: 0 <= k < |ps| ==> PartiesKnown(ws, txs[ps[k]])
    decreases |ps|
  {
    if |ps| > 0 {
      var t := txs[ps[0]];
      assert PartiesKnown(ws, t);
      var confirmed := txs[ps[0] := Confirm(t, blockId)];
      var ws1 := Step(ws, t, v).value;
      var tail := ps[1..];
      assert Settle(txs, ws, ps, blockId, v) == Settle(confirmed, ws1, tail, blockId, v);
      SettleCompleteKnowsParties(confirmed, ws1, tail, blockId, v);
      forall k | 1 <= k < |ps|
        ensures PartiesKnown(ws, txs[ps[k]])
      {
        assert tail[k - 1] == ps[k];
        assert PartiesKnown(ws1, confirmed[tail[k - 1]]);
        ConfirmKeepsParties(txs, ps[0], ps[k], blockId);
        PartiesKnownIgnoresBalances(ws, ws1, confirmed[ps[k]]);
      }
    }
  }

  /** Settlement runs to the end exactly when every selected transaction's
      sender and recipient are in the directory. */
  lemma SettleCompleteIffPartiesKnown(txs: seq<Tx>, ws: seq<Wallet>, ps: seq<TxId>, blockId: nat, v: Variant)
    requires forall k :: 0 <= k < |ps| ==> ps[k] < |txs|
    ensures Settle(txs, ws, ps, blockId, v).complete <==> forall k :: 0 <= k < |ps| ==> PartiesKnown(ws, txs[ps[k]])
  {
    if forall k :: 0 <= k < |ps| ==> PartiesKnown(ws, txs[ps[k]]) {
      SettleCompletes(txs, ws, ps, blockId, v);
    }
    if Settle(txs, ws, ps, blockId, v).complete {
      SettleCompleteKnowsParties(txs, ws, ps, blockId, v);
    }
  }

  /** A completed settlement confirms every selected transaction into the block. */
  lemma {:induction false} SettleConfirmsBatch(txs: seq<Tx>, ws: seq<Wallet>, ps: seq<TxId>, blockId: nat, v: Variant)
    requires forall k :: 0 <= k < |ps| ==> ps[k] < |txs|
    ensures Settle(txs, ws, ps, blockId, v).complete ==>
              forall k :: 0 <= k < |ps| ==> Settle(txs, ws, ps, blockId, v).txs[ps[k]] == Confirm(txs[ps[k]], blockId)
    decreases |ps|
  {
    if |ps| > 0 {
      var t := txs[ps[0]];
      var confirmed := txs[ps[0] := Confirm(t, blockId)];
      match Step(ws, t, v) {
        case None =>
        case Some(ws1) =>
          var rest := Settle(confirmed, ws1, ps[1..], blockId, v);
          assert Settle(txs, ws, ps, blockId, v) == rest;
          if rest.complete {
            SettleConfirmsBatch(confirmed, ws1, ps[1..], blockId, v);
            forall k | 0 <= k < |ps|
              ensures rest.txs[ps[k]] == Confirm(txs[ps[k]], blockId)
            {
              if k > 0 {
                assert ps[k] == ps[1..][k - 1];
              }
            }
          }
      }
    }
  }

  /** No transaction of the batch is a transfer to oneself. */
  ghost predicate NoSelfTransfers(txs: seq<Tx>, ps: seq<TxId>)
  {
    forall k :: 0 <= k < |ps| && ps[k] < |txs| ==> txs[ps[k]].fromWallet != txs[ps[k]].toWallet
  }

  /** Confirming the head of a batch keeps the rest free of transfers to oneself. */
  lemma ConfirmKeepsNoSelfTransfers(txs: seq<Tx>, ps: seq<TxId>, blockId: nat)
    requires |ps| > 0 && forall k :: 0 <= k < |ps| ==> ps[k] < |txs|
    requires NoSelfTransfers(txs, ps)
    ensures NoSelfTransfers(txs[ps[0] := Confirm(txs[ps[0]], blockId)], ps[1..])
  {
    var confirmed := txs[ps[0] := Confirm(txs[ps[0]], blockId)];
    var tail := ps[1..];
    forall k | 0 <= k < |tail| && tail[k] < |confirmed|
      ensures confirmed[tail[k]].fromWallet != confirmed[tail[k]].toWallet
    {
      assert tail[k] == ps[k + 1];
      ConfirmKeepsParties(txs, ps[0], ps[k + 1], blockId);
    }
  }

  /** The corrected settlement moves every balance by the net of the batch's
      transfers: credits of `amount` in, debits of `amount + fee` out. */
  lemma {:induction false} CorrectedSettleMovesBalances(txs: seq<Tx>, ws: seq<Wallet>, ps: seq<TxId>, blockId: nat)
    requires forall k :: 0 <= k < |ps| ==> ps[k] < |txs|
    ensures Settle(txs, ws, ps, blockId, Corrected).complete && UniqueAddresses(ws) ==>
              forall q :: 0 <= q < |ws| ==>
                Settle(txs, ws, ps, blockId, Corrected).wallets[q].balance == ws[q].balance + NetDelta(ws[q].address, Populate(ps, txs))
    decreases |ps|
  {
    if |ps| > 0 && Settle(txs, ws, ps, blockId, Corrected).complete && UniqueAddresses(ws) {
      var t := txs[ps[0]];
      var confirmed := txs[ps[0] := Confirm(t, blockId)];
      assert Step(ws, t, Corrected) == Transfer(ws, t);
      var ws1 := Transfer(ws, t).value;
      var rest := Settle(confirmed, ws1, ps[1..], blockId, Corrected);
      assert Settle(txs, ws, ps, blockId, Corrected) == rest;
      assert UniqueAddresses(ws1);
      CorrectedSettleMovesBalances(confirmed, ws1, ps[1..], blockId);
      forall q | 0 <= q < |ws|
        ensures rest.wallets[q].balance == ws[q].balance + NetDelta(ws[q].address, Populate(ps, txs))
      {
        NetDeltaContentOnly(ws[q].address, ps[1..], txs, confirmed);
        assert Populate(ps, txs)[1..] == Populate(ps[1..], txs);
      }
    }
  }

  /** On a batch without a transfer to oneself the two settlements coincide. */
  lemma {:induction false} SettleVariantsAgree(txs: seq<Tx>, ws: seq<Wallet>, ps: seq<TxId>, blockId: nat)
    requires forall k :: 0 <= k < |ps| ==> ps[k] < |txs|
    requires NoSelfTransfers(txs, ps)
    ensures Settle(txs, ws, ps, blockId, AsWritten) == Settle(txs, ws, ps, blockId, Corrected)
    decreases |ps|
  {
    if |ps| > 0 {
      var t := txs[ps[0]];
      TransferAsWrittenAgreesBetweenDistinctWallets(ws, t);
      var confirmed := txs[ps[0] := Confirm(t, blockId)];
      if PartiesKnown(ws, t) {
        ConfirmKeepsNoSelfTransfers(txs, ps, blockId);
        SettleVariantsAgree(confirmed, Transfer(ws, t).value, ps[1..], blockId);
      }
    }
  }

  /** A completed settlement moves every balance by the net of the batch's
      transfers. Corrected this holds of every batch; as written, of every batch
      without a transfer to oneself. */
  lemma SettleMovesBalances(txs: seq<Tx>, ws: seq<Wallet>, ps: seq<TxId>, blockId: nat, v: Variant)
    requires forall k :: 0 <= k < |ps| ==> ps[k] < |txs|
    ensures (v == Corrected || NoSelfTransfers(txs, ps)) && Settle(txs, ws, ps, blockId, v).complete && UniqueAddresses(ws) ==>
              forall q :: 0 <= q < |ws| ==>
                Settle(txs, ws, ps, blockId, v).wallets[q].balance == ws[q].balance + NetDelta(ws[q].address, Populate(ps, txs))
  {
    CorrectedSettleMovesBalances(txs, ws, ps, blockId);
    if v == AsWritten && NoSelfTransfers(txs, ps) {
      SettleVariantsAgree(txs, ws, ps, blockId);
    }
  }

  /** A batch of one transfer from a wallet to itself: as written the wallet
      ends `amount` richer, corrected it pays the fee. */
  lemma SettleSelfTransfer(txs: seq<Tx>, ws: seq<Wallet>, p: TxId, blockId: nat, q: nat)
    requires UniqueAddresses(ws)
    requires p < |txs| && q < |ws| && ws[q].address == txs[p].fromWallet == txs[p].toWallet
    ensures Settle(txs, ws, [p], blockId, AsWritten).complete && Settle(txs, ws, [p], blockId, Corrected).complete
    ensures Settle(txs, ws, [p], blockId, AsWritten).wallets[q].balance == ws[q].balance + txs[p].amount
    ensures Settle(txs, ws, [p], blockId, Corrected).wallets[q].balance == ws[q].balance - txs[p].fee
  {
    var t := txs[p];
    SelfTransferAsWrittenMintsAmount(ws, t, q);
    assert [p][1..] == [];
    var confirmed := txs[p := Confirm(t, blockId)];
    assert Settle(txs, ws, [p], blockId, AsWritten) == Settlement(confirmed, TransferAsWritten(ws, t).value, true);
    assert Settle(txs, ws, [p], blockId, Corrected) == Settlement(confirmed, Transfer(ws, t).value, true);
  }

  /** `NetDelta` reads only senders, recipients, amounts and fees. */
  lemma {:induction false} NetDeltaContentOnly(address: Address, ps: seq<TxId>, txs: seq<Tx>, txs': seq<Tx>)
    requires |txs'| == |txs|
    requires forall k :: 0 <= k < |ps| ==> ps[k] < |txs|
    requires forall p :: 0 <= p < |txs| ==> SameContent(txs[p], txs'[p])
    ensures NetDelta(address, Populate(ps, txs')) == NetDelta(address, Populate(ps, txs))
    decreases |ps|
  {
    if |ps| > 0 {
      NetDeltaContentOnly(address, ps[1..], txs, txs');
      assert Populate(ps, txs) == [txs[ps[0]]] + Populate(ps[1..], txs);
      assert Populate(ps, txs') == [txs'[ps[0]]] + Populate(ps[1..], txs');
      assert Populate(ps, txs)[1..] == Populate(ps[1..], txs);
      assert Populate(ps, txs')[1..] == Populate(ps[1..], txs');
    }
  }

  // ---------------------------------------------------------------- the whole operation

  /** The outcome of a mining request: the store afterwards, the block built,
      whether `block.save()` stored it, and whether the settlement loop ran to
      the end. */
  datatype Mined = Mined(ledger: Ledger, block: Block, stored: bool, complete: bool)

  /** Whether `block.save()` accepts a block. As written the schema requires a
      non-empty Merkle root, which an empty batch never has, so mining an empty
      pool rejects. Corrected, the root may be empty, so that an empty pool
      still mines a block. */
  predicate SaveAccepts(b: Block, v: Variant)
  {
    if v == AsWritten then RequiredFieldsSet(b) else b.previousHash != "" && b.hash != ""
  }

  /** `mineBlock` once the nonce is fixed. The block's id is its position in the
      store. A rejected save ends the request before any transaction is settled. */
  function MineWith(c: Crypto, l: Ledger, now: nat, nonce: nat, v: Variant): (m: Mined)
    ensures m.stored == SaveAccepts(m.block, v)
    ensures !m.stored ==> m.ledger == l && !m.complete
    ensures m.stored ==> m.ledger.blocks == l.blocks + [m.block]
    ensures |l.blocks| == 0 ==> m.block.index == 0 && m.block.previousHash == GENESIS_PREVIOUS_HASH
    ensures |l.blocks| > 0 ==>
              var tip := l.blocks[TipPosition(l.blocks).value];
              m.block.index == tip.index + 1 && m.block.previousHash == tip.hash
    ensures m.block.transactions == SelectPending(l.txs)
    ensures m.block.transactionCount == |m.block.transactions|
    ensures m.block.merkleRoot == MerkleRoot(c, TxHashes(Populate(m.block.transactions, l.txs)))
    ensures (forall p :: 0 <= p < |l.txs| ==> l.txs[p].status != Pending) ==>
              m.block.transactions == [] && m.block.transactionCount == 0 && m.block.merkleRoot == ""
    ensures m.block.timestamp == now && m.block.nonce == nonce && m.block.difficulty == MINING_DIFFICULTY
    ensures m.block.hash == CalculateHash(c, m.block.index, m.block.previousHash, now, m.block.merkleRoot, nonce)
    ensures m.stored ==> m.ledger.txs == Settle(l.txs, l.wallets, m.block.transactions, |l.blocks|, v).txs
    ensures m.stored ==> m.ledger.wallets == Settle(l.txs, l.wallets, m.block.transactions, |l.blocks|, v).wallets
    ensures m.stored ==> m.complete == Settle(l.txs, l.wallets, m.block.transactions, |l.blocks|, v).complete
    ensures SameKeys(l.wallets, m.ledger.wallets)
  {
    var h := Candidate(c, l, now);
    var block := Block(h.index, now, h.transactions, |h.transactions|, h.previousHash,
                       HeaderHash(c, h, nonce), nonce, h.merkleRoot, MINING_DIFFICULTY);
    if !SaveAccepts(block, v) then
      Mined(l, block, false, false)
    else
      var s := Settle(l.txs, l.wallets, h.transactions, |l.blocks|, v);
      Mined(Ledger(l.blocks + [block], s.txs, s.wallets), block, true, s.complete)
  }

  /** `mineBlock`: search the least nonce whose hash meets the target, then store
      the block and settle. `bound` is a nonce known to meet the target; without
      one the source's search does not terminate. */
  method Mine(c: Crypto, l: Ledger, now: nat, ghost bound: nat, v: Variant) returns (m: Mined)
    requires MeetsDifficulty(HeaderHash(c, Candidate(c, l, now), bound), MINING_DIFFICULTY)
    ensures m == MineWith(c, l, now, m.block.nonce, v)
    ensures MeetsDifficulty(m.block.hash, MINING_DIFFICULTY)
    ensures m.block.nonce <= bound
    ensures forall n :: 0 <= n < m.block.nonce ==>
              !MeetsDifficulty(CalculateHash(c, m.block.index, m.block.previousHash, now, m.block.merkleRoot, n), MINING_DIFFICULTY)
  {
    var h := Candidate(c, l, now);
    var nonce, hash := SearchNonce(c, h, MINING_DIFFICULTY, bound);
    m := MineWith(c, l, now, nonce, v);
    forall n | 0 <= n < nonce
      ensures !MeetsDifficulty(CalculateHash(c, m.block.index, m.block.previousHash, now, m.block.merkleRoot, n), MINING_DIFFICULTY)
    {
      assert HeaderHash(c, h, n) == CalculateHash(c, m.block.index, m.block.previousHash, now, m.block.merkleRoot, n);
    }
  }

  /** Mining touches only its batch: each of those transactions goes from
      pending to confirmed into the new block, every other one is unchanged, and
      when the run completes the whole batch is confirmed. */
  lemma MineConfirmsOnlyBatch(c: Crypto, l: Ledger, now: nat, nonce: nat, v: Variant)
    ensures |MineWith(c, l, now, nonce, v).ledger.txs| == |l.txs|
    ensures forall p :: 0 <= p < |l.txs| ==>
              var t' := MineWith(c, l, now, nonce, v).ledger.txs[p];
              t' == l.txs[p] || (l.txs[p].status == Pending && t' == Confirm(l.txs[p], |l.blocks|))
    ensures forall p :: 0 <= p < |l.txs| && p !in MineWith(c, l, now, nonce, v).block.transactions ==>
              MineWith(c, l, now, nonce, v).ledger.txs[p] == l.txs[p]
    ensures MineWith(c, l, now, nonce, v).complete ==>
              var m := MineWith(c, l, now, nonce, v);
              forall k :: 0 <= k < |m.block.transactions| ==>
                m.ledger.txs[m.block.transactions[k]] == Confirm(l.txs[m.block.transactions[k]], |l.blocks|)
  {
    var m := MineWith(c, l, now, nonce, v);
    var ps := m.block.transactions;
    if m.stored {
      SettleConfirmsBatch(l.txs, l.wallets, ps, |l.blocks|, v);
      forall p | 0 <= p < |l.txs| && m.ledger.txs[p] != l.txs[p]
        ensures l.txs[p].status == Pending
      {
        assert p in ps;
      }
    }
  }

  /** Mining changes no wallet's id, owner, address or key. */
  lemma MineKeepsKeys(c: Crypto, l: Ledger, now: nat, nonce: nat, v: Variant)
    ensures SameKeys(l.wallets, MineWith(c, l, now, nonce, v).ledger.wallets)
  {
  }

  /** Mining's run completes exactly when the block is stored and every party
      of the batch is in the directory. */
  lemma MineCompleteIffPartiesKnown(c: Crypto, l: Ledger, now: nat, nonce: nat, v: Variant)
    ensures var m := MineWith(c, l, now, nonce, v);
      m.complete <==> m.stored && forall k :: 0 <= k < |m.block.transactions| ==> PartiesKnown(l.wallets, l.txs[m.block.transactions[k]])
  {
    var ps := SelectPending(l.txs);
    SettleCompleteIffPartiesKnown(l.txs, l.wallets, ps, |l.blocks|, v);
  }

  /** A completed run moves every balance by the batch's net transfers:
      corrected always, as written when no batched transaction is a transfer to
      oneself. */
  lemma MineMovesBalances(c: Crypto, l: Ledger, now: nat, nonce: nat, v: Variant)
    ensures var m := MineWith(c, l, now, nonce, v);
      (v == Corrected || NoSelfTransfers(l.txs, m.block.transactions)) && m.complete && UniqueAddresses(l.wallets) ==>
        forall q :: 0 <= q < |l.wallets| ==>
          m.ledger.wallets[q].balance
          == l.wallets[q].balance + NetDelta(l.wallets[q].address, Populate(m.block.transactions, l.txs))
  {
    var ps := SelectPending(l.txs);
    SettleMovesBalances(l.txs, l.wallets, ps, |l.blocks|, v);
  }


  /** Mining a pool whose one pending transaction moves funds from a wallet to
      itself: once the block is stored, as written the wallet ends `amount`
      richer, corrected it pays the fee. */
  lemma MineSelfTransfer(c: Crypto, l: Ledger, now: nat, nonce: nat, q: nat)
    requires UniqueAddresses(l.wallets)
    requires |l.txs| == 1 && l.txs[0].status == Pending
    requires q < |l.wallets| && l.wallets[q].address == l.txs[0].fromWallet == l.txs[0].toWallet
    ensures var m := MineWith(c, l, now, nonce, AsWritten);
      m.ledger.wallets[q].balance == l.wallets[q].balance + (if m.stored then l.txs[0].amount else 0)
    ensures var m := MineWith(c, l, now, nonce, Corrected);
      m.ledger.wallets[q].balance == l.wallets[q].balance - (if m.stored then l.txs[0].fee else 0)
  {
    assert SelectFrom(l.txs, 1, BATCH_SIZE - 1) == [];
    assert SelectPending(l.txs) == [0];
    SettleSelfTransfer(l.txs, l.wallets, 0, |l.blocks|, q);
  }

  /** Mining a pool with no pending transaction, as written: the empty batch
      has the empty Merkle root, which the schema's `required` rejects, so
      `block.save()` fails and the store is left as it was. */
  lemma MineEmptyPoolRejected(c: Crypto, l: Ledger, now: nat, nonce: nat)
    requires forall p :: 0 <= p < |l.txs| ==> l.txs[p].status != Pending
    ensures var m := MineWith(c, l, now, nonce, AsWritten);
      !m.stored && !m.complete && m.ledger == l && m.block.merkleRoot == ""
  {
  }
}
