/** The state the ledger keeps consistent across `createTransaction` and
    `mineBlock`, and what that state buys: the corrected validator accepts it. */
module Invariants {
  import opened Wrappers
  import opened Primitives
  import opened Merkle
  import opened Blocks
  import opened Transactions
  import opened Wallets
  import opened Store
  import opened Admission
  import opened Mining
  import opened Variants
  import opened Validation

  // ---------------------------------------------------------------- the invariant

  /** Stored transaction `p`: signed by its sender's current key over its stored
      fields, recipient in the directory, schema-valid with the fixed fee, and
      either pending and unassigned or confirmed into a block that lists it. */
  ghost predicate TxOk(c: Crypto, l: Ledger, p: nat)
    requires p < |l.txs|
  {
    var t := l.txs[p];
    TxSigned(c, l.wallets, t) && FindByAddress(l.wallets, t.toWallet).Some?
    && SchemaValid(t) && t.fee == DEFAULT_FEE
    && ((t.status == Pending && t.blockId == None)
        || (t.status == Confirmed && t.blockId.Some? && t.blockId.value < |l.blocks|
            && p in l.blocks[t.blockId.value].transactions))
  }

  /** Block `i`: stored at its own index, linked and at its target, the genesis
      block on the sentinel, its count and Merkle root matching its references,
      and each reference naming a transaction confirmed into this block. */
  ghost predicate BlockOk(c: Crypto, l: Ledger, i: nat)
    requires i < |l.blocks|
  {
    var b := l.blocks[i];
    b.index == i && HeaderOk(l.blocks, i)
    && (i == 0 ==> b.previousHash == GENESIS_PREVIOUS_HASH)
    && b.transactionCount == |b.transactions|
    && (forall k :: 0 <= k < |b.transactions| ==> b.transactions[k] < |l.txs| && l.txs[b.transactions[k]].blockId == Some(i))
    && MerkleOk(c, l.blocks, l.txs, i)
  }

  ghost predicate TxsOk(c: Crypto, l: Ledger)
  {
    forall p :: 0 <= p < |l.txs| ==> TxOk(c, l, p)
  }

  ghost predicate BlocksOk(c: Crypto, l: Ledger)
  {
    forall i :: 0 <= i < |l.blocks| ==> BlockOk(c, l, i)
  }

  ghost predicate Consistent(c: Crypto, l: Ledger)
  {
    UniqueAddresses(l.wallets) && TxsOk(c, l) && BlocksOk(c, l)
  }

  /** The empty store is consistent, whatever wallets it starts with, as long as
      their addresses are unique. */
  lemma EmptyConsistent(c: Crypto, ws: seq<Wallet>)
    requires UniqueAddresses(ws)
    ensures Consistent(c, EmptyLedger.(wallets := ws))
  {
  }

  // ---------------------------------------------------------------- admission

  /** `createTransaction` followed by `transaction.save()`: the record is
      appended, nothing else in the store changes. */
  function Submit(c: Crypto, l: Ledger, user: UserId, walletId: string, req: Request, now: int): (r: Result<Ledger, AdmissionError>)
    ensures r.Ok? <==> AdmissionChecks(l.wallets, user, walletId, req).Ok?
    ensures r.Err? ==> r.error == AdmissionChecks(l.wallets, user, walletId, req).error
    ensures r.Ok? ==>
              && r.value.blocks == l.blocks && r.value.wallets == l.wallets
              && |r.value.txs| == |l.txs| + 1 && r.value.txs[..|l.txs|] == l.txs
              && r.value.txs[|l.txs|].status == Pending && r.value.txs[|l.txs|].blockId == None
  {
    match CreateTransaction(c, l.wallets, user, walletId, req, now)
    case Err(e) => Err(e)
    case Ok(t) => Ok(l.(txs := l.txs + [t]))
  }

  /** Admission keeps the store consistent. */
  lemma SubmitPreservesConsistent(c: Crypto, l: Ledger, user: UserId, walletId: string, req: Request, now: int)
    requires Consistent(c, l)
    ensures Submit(c, l, user, walletId, req, now).Ok? ==> Consistent(c, Submit(c, l, user, walletId, req, now).value)
  {
    var r := Submit(c, l, user, walletId, req, now);
    if r.Ok? {
      var l' := r.value;
      var ws := l.wallets;
      var w := AdmissionChecks(ws, user, walletId, req).value;
      var q := FindById(ws, walletId).value;
      assert ws[q] == w;
      FindOwnAddress(ws, q);
      assert l'.txs[|l.txs|] == CreateTransaction(c, ws, user, walletId, req, now).value;
      assert TxOk(c, l', |l.txs|);
      forall p | 0 <= p < |l.txs|
        ensures TxOk(c, l', p)
      {
        assert l'.txs[p] == l.txs[p];
        assert TxOk(c, l, p);
      }
      forall i | 0 <= i < |l.blocks|
        ensures BlockOk(c, l', i)
      {
        assert BlockOk(c, l, i);
        PopulateHashesStable(l.blocks[i].transactions, l.txs, l'.txs);
      }
    }
  }

  // ---------------------------------------------------------------- mining

  /** Blocks stored at their own index. */
  ghost predicate Indexed(blocks: seq<Block>)
  {
    forall i :: 0 <= i < |blocks| ==> blocks[i].index == i
  }

  lemma ConsistentIndexed(c: Crypto, l: Ledger)
    requires Consistent(c, l)
    ensures Indexed(l.blocks)
  {
    forall i | 0 <= i < |l.blocks|
      ensures l.blocks[i].index == i
    {
      assert BlockOk(c, l, i);
    }
  }

  /** When blocks sit at their own index the tip is the last block. */
  lemma TipIsLast(blocks: seq<Block>)
    requires Indexed(blocks)
    requires |blocks| > 0
    ensures TipPosition(blocks) == Some(|blocks| - 1)
  {
    var q := TipPosition(blocks).value;
    assert blocks[|blocks| - 1].index <= blocks[q].index;
  }

  /** So a mined block goes right after the last block. */
  lemma MinedBlockFollowsLast(c: Crypto, l: Ledger, now: nat, nonce: nat, v: Variant)
    requires Indexed(l.blocks)
    ensures MineWith(c, l, now, nonce, v).block.index == |l.blocks|
    ensures |l.blocks| > 0 ==> MineWith(c, l, now, nonce, v).block.previousHash == l.blocks[|l.blocks| - 1].hash
  {
    var b := MineWith(c, l, now, nonce, v).block;
    if |l.blocks| > 0 {
      TipIsLast(l.blocks);
      var last := l.blocks[|l.blocks| - 1];
      assert last.index == |l.blocks| - 1;
      assert b.index == last.index + 1 && b.previousHash == last.hash;
    }
  }

  /** The chain's shape alone: every block sits at its index, the first links
      to 64 zeros, and every block passes the linkage and prefix checks with
      the non-empty hash its schema requires. No transaction and no signature
      plays a part. */
  ghost predicate Linked(blocks: seq<Block>)
  {
    Indexed(blocks)
    && (|blocks| > 0 ==> blocks[0].previousHash == GENESIS_PREVIOUS_HASH)
    && forall i :: 0 <= i < |blocks| ==> HeaderOk(blocks, i) && blocks[i].hash != ""
  }

  /** Mining keeps a chain linked whatever the transaction store holds, so a
      chain built by successive mining runs passes the linkage and prefix
      checks at every block. */
  lemma MinePreservesLinked(c: Crypto, l: Ledger, now: nat, nonce: nat, v: Variant)
    requires Linked(l.blocks)
    requires MeetsDifficulty(MineWith(c, l, now, nonce, v).block.hash, MINING_DIFFICULTY)
    ensures Linked(MineWith(c, l, now, nonce, v).ledger.blocks)
  {
    var m := MineWith(c, l, now, nonce, v);
    if m.stored {
      MinedBlockFollowsLast(c, l, now, nonce, v);
      MeetsDifficultyIff(m.block.hash, MINING_DIFFICULTY);
      LinkedAppend(l.blocks, m.block);
    }
  }

  /** Appending a block at the next index, linked to the last block (or to 64
      zeros on an empty chain), at its target and with a non-empty hash keeps
      a chain linked. */
  lemma LinkedAppend(blocks: seq<Block>, b: Block)
    requires Linked(blocks)
    requires b.index == |blocks| && MeetsDifficulty(b.hash, b.difficulty) && b.hash != ""
    requires if |blocks| == 0 then b.previousHash == GENESIS_PREVIOUS_HASH else b.previousHash == blocks[|blocks| - 1].hash
    ensures Linked(blocks + [b])
  {
    var bs := blocks + [b];
    forall i | 0 <= i < |bs|
      ensures bs[i].index == i && HeaderOk(bs, i) && bs[i].hash != ""
    {
      if i < |blocks| {
        assert bs[i] == blocks[i];
        assert HeaderOk(blocks, i);
        if i > 0 {
          assert bs[i - 1] == blocks[i - 1];
        }
      } else {
        assert bs[i] == b;
        if i > 0 {
          assert bs[i - 1] == blocks[|blocks| - 1];
        }
      }
    }
    if |blocks| > 0 {
      assert bs[0] == blocks[0];
    }
  }

  /** An empty pool on a linked chain: as written the save rejects the empty
      Merkle root and nothing is stored; corrected, a block with no
      transactions and the empty root is appended, the transactions and
      wallets are untouched, and the chain stays linked. */
  lemma MineEmptyPoolStoresEmptyBlock(c: Crypto, l: Ledger, now: nat, nonce: nat)
    requires Linked(l.blocks)
    requires forall p :: 0 <= p < |l.txs| ==> l.txs[p].status != Pending
    requires MeetsDifficulty(MineWith(c, l, now, nonce, Corrected).block.hash, MINING_DIFFICULTY)
    ensures !MineWith(c, l, now, nonce, AsWritten).stored
    ensures var m := MineWith(c, l, now, nonce, Corrected);
      m.stored && m.complete
      && m.ledger == Ledger(l.blocks + [m.block], l.txs, l.wallets)
      && m.block.transactions == [] && m.block.transactionCount == 0 && m.block.merkleRoot == ""
      && Linked(m.ledger.blocks)
  {
    var m := MineWith(c, l, now, nonce, Corrected);
    MineEmptyPoolRejected(c, l, now, nonce);
    MinedBlockFollowsLast(c, l, now, nonce, Corrected);
    MeetsDifficultyIff(m.block.hash, MINING_DIFFICULTY);
    if |l.blocks| == 0 {
      assert m.block.previousHash[0] == '0';
    } else {
      assert m.block.previousHash == l.blocks[|l.blocks| - 1].hash;
    }
    assert m.stored;
    MinePreservesLinked(c, l, now, nonce, Corrected);
  }

  /** In a consistent store every party of every transaction is in the
      directory, so settlement never throws. */
  lemma MiningCompletes(c: Crypto, l: Ledger, now: nat, nonce: nat, v: Variant)
    requires Consistent(c, l)
    ensures MineWith(c, l, now, nonce, v).complete == MineWith(c, l, now, nonce, v).stored
  {
    var m := MineWith(c, l, now, nonce, v);
    MineCompleteIffPartiesKnown(c, l, now, nonce, v);
    forall k | 0 <= k < |m.block.transactions|
      ensures PartiesKnown(l.wallets, l.txs[m.block.transactions[k]])
    {
      assert TxOk(c, l, m.block.transactions[k]);
    }
  }

  /** Balance changes do not change whose tag verifies. */
  lemma TxSignedIgnoresBalances(c: Crypto, ws: seq<Wallet>, ws': seq<Wallet>, t: Tx)
    requires SameKeys(ws, ws')
    ensures TxSigned(c, ws', t) == TxSigned(c, ws, t)
  {
    FindByAddressIgnoresBalances(ws, ws', t.fromWallet);
  }

  /** What a mining step does to the store, stated without the search: a block
      is appended, balances alone move, and each transaction either stays as it
      was or goes from pending to confirmed into the new block, which lists it. */
  ghost predicate MiningStep(l: Ledger, l': Ledger, b: Block)
  {
    && l'.blocks == l.blocks + [b]
    && SameKeys(l.wallets, l'.wallets)
    && |l'.txs| == |l.txs|
    && forall p :: 0 <= p < |l.txs| ==>
         l'.txs[p] == l.txs[p]
         || (l.txs[p].status == Pending && l'.txs[p] == Confirm(l.txs[p], |l.blocks|) && p in b.transactions)
  }

  /** `mineBlock` is such a step. */
  lemma MineIsMiningStep(c: Crypto, l: Ledger, now: nat, nonce: nat, v: Variant)
    ensures MineWith(c, l, now, nonce, v).stored ==>
              MiningStep(l, MineWith(c, l, now, nonce, v).ledger, MineWith(c, l, now, nonce, v).block)
  {
    var m := MineWith(c, l, now, nonce, v);
    if m.stored {
      MineConfirmsOnlyBatch(c, l, now, nonce, v);
      MineKeepsKeys(c, l, now, nonce, v);
      forall p | 0 <= p < |l.txs| && m.ledger.txs[p] != l.txs[p]
        ensures p in m.block.transactions
      {
      }
    }
  }

  /** A mining step keeps every transaction within the invariant. */
  lemma StepKeepsTxs(c: Crypto, l: Ledger, l': Ledger, b: Block)
    requires Consistent(c, l)
    requires MiningStep(l, l', b)
    ensures TxsOk(c, l')
  {
    forall p | 0 <= p < |l'.txs|
      ensures TxOk(c, l', p)
    {
      var t := l.txs[p];
      var t' := l'.txs[p];
      assert TxOk(c, l, p);
      TxSignedIgnoresBalances(c, l.wallets, l'.wallets, t);
      FindByAddressIgnoresBalances(l.wallets, l'.wallets, t.toWallet);
      if t' == t {
        if t.status == Confirmed {
          assert l'.blocks[t.blockId.value] == l.blocks[t.blockId.value];
        }
      } else {
        assert StoredPayload(t') == StoredPayload(t);
        assert l'.blocks[|l.blocks|] == b;
      }
    }
  }

  /** A mining step leaves every earlier block within the invariant. */
  lemma StepKeepsOldBlocks(c: Crypto, l: Ledger, l': Ledger, b: Block)
    requires Consistent(c, l)
    requires MiningStep(l, l', b)
    ensures forall i :: 0 <= i < |l.blocks| ==> BlockOk(c, l', i)
  {
    assert forall p :: 0 <= p < |l.txs| ==> l'.txs[p].hash == l.txs[p].hash;
    forall i | 0 <= i < |l.blocks|
      ensures BlockOk(c, l', i)
    {
      assert BlockOk(c, l, i);
      var bi := l.blocks[i];
      assert l'.blocks[i] == bi;
      assert i > 0 ==> l'.blocks[i - 1] == l.blocks[i - 1];
      forall k | 0 <= k < |bi.transactions|
        ensures l'.txs[bi.transactions[k]] == l.txs[bi.transactions[k]]
      {
        assert TxOk(c, l, bi.transactions[k]);
      }
      PopulateHashesStable(bi.transactions, l.txs, l'.txs);
    }
  }

  /** The appended block is within the invariant when it sits at its own index,
      links to the last block (or the sentinel), meets its target, commits to
      its references, and every reference was confirmed into it. */
  lemma StepNewBlockOk(c: Crypto, l: Ledger, l': Ledger, b: Block)
    requires Consistent(c, l)
    requires MiningStep(l, l', b)
    requires b.index == |l.blocks|
    requires if |l.blocks| == 0 then b.previousHash == GENESIS_PREVIOUS_HASH else b.previousHash == l.blocks[|l.blocks| - 1].hash
    requires MeetsDifficulty(b.hash, b.difficulty)
    requires b.transactionCount == |b.transactions|
    requires b.merkleRoot == MerkleRoot(c, TxHashes(Populate(b.transactions, l.txs)))
    requires forall k :: 0 <= k < |b.transactions| ==>
               b.transactions[k] < |l.txs| && l'.txs[b.transactions[k]] == Confirm(l.txs[b.transactions[k]], |l.blocks|)
    ensures BlockOk(c, l', |l.blocks|)
  {
    assert l'.blocks[|l.blocks|] == b;
    assert |l.blocks| > 0 ==> l'.blocks[|l.blocks| - 1] == l.blocks[|l.blocks| - 1];
    assert HeaderOk(l'.blocks, |l.blocks|);
    assert forall p :: 0 <= p < |l.txs| ==> l'.txs[p].hash == l.txs[p].hash;
    PopulateHashesStable(b.transactions, l.txs, l'.txs);
  }

  /** Mining a block whose hash meets the target keeps the store consistent,
      and whenever the block is stored its settlement runs to the end. */
  lemma MinePreservesConsistent(c: Crypto, l: Ledger, now: nat, nonce: nat, v: Variant)
    requires Consistent(c, l)
    requires MeetsDifficulty(MineWith(c, l, now, nonce, v).block.hash, MINING_DIFFICULTY)
    ensures Consistent(c, MineWith(c, l, now, nonce, v).ledger)
    ensures MineWith(c, l, now, nonce, v).complete == MineWith(c, l, now, nonce, v).stored
  {
    var m := MineWith(c, l, now, nonce, v);
    MiningCompletes(c, l, now, nonce, v);
    if !m.stored {
      return;
    }
    var l' := m.ledger;
    var b := m.block;
    MineKeepsKeys(c, l, now, nonce, v);
    MineIsMiningStep(c, l, now, nonce, v);
    ConsistentIndexed(c, l);
    MinedBlockFollowsLast(c, l, now, nonce, v);
    MineConfirmsOnlyBatch(c, l, now, nonce, v);
    assert UniqueAddresses(l'.wallets);
    StepKeepsTxs(c, l, l', b);
    StepKeepsOldBlocks(c, l, l', b);
    StepNewBlockOk(c, l, l', b);
    assert BlocksOk(c, l') by {
      forall i | 0 <= i < |l'.blocks|
        ensures BlockOk(c, l', i)
      {
        if i == |l.blocks| {
          assert BlockOk(c, l', |l.blocks|);
        }
      }
    }
  }

  // ---------------------------------------------------------------- consequences

  /** In a consistent store every transaction a block resolves to carries its
      sender's tag. */
  lemma ReferencedTxsSigned(c: Crypto, l: Ledger)
    requires Consistent(c, l)
    ensures forall i, t :: 0 <= i < |l.blocks| && t in Populate(l.blocks[i].transactions, l.txs) ==> TxSigned(c, l.wallets, t)
    ensures SendersKnown(l.blocks, l.txs, l.wallets)
  {
    forall i, t | 0 <= i < |l.blocks| && t in Populate(l.blocks[i].transactions, l.txs)
      ensures TxSigned(c, l.wallets, t) && SenderKnown(l.wallets, t)
    {
      var p :| 0 <= p < |l.txs| && l.txs[p] == t;
      assert TxOk(c, l, p);
    }
  }

  /** A consistent store is already in index order, so it is what the
      validator's sorted query returns, and it passes the corrected validator. */
  lemma ConsistentValidates(c: Crypto, l: Ledger)
    requires Consistent(c, l)
    ensures SortedByIndex(l.blocks)
    ensures ValidateChain(c, l.blocks, l.txs, l.wallets) == Ok(true)
  {
    ConsistentIndexed(c, l);
    ReferencedTxsSigned(c, l);
    assert PassesFrom(c, l.blocks, l.txs, l.wallets, 0) by {
      forall i | 0 <= i < |l.blocks|
        ensures BlockPasses(c, l.blocks, l.txs, l.wallets, i)
      {
        assert BlockOk(c, l, i);
      }
    }
    ValidateChainCorrect(c, l.blocks, l.txs, l.wallets);
  }

  /** In a consistent store no transaction is listed by two blocks. */
  lemma NoTxInTwoBlocks(c: Crypto, l: Ledger, p: nat, i: nat, j: nat)
    requires Consistent(c, l)
    requires i < |l.blocks| && j < |l.blocks|
    requires p in l.blocks[i].transactions && p in l.blocks[j].transactions
    ensures i == j
  {
    assert BlockOk(c, l, i) && BlockOk(c, l, j);
    var k :| 0 <= k < |l.blocks[i].transactions| && l.blocks[i].transactions[k] == p;
    var k' :| 0 <= k' < |l.blocks[j].transactions| && l.blocks[j].transactions[k'] == p;
  }

  /** Funds are checked at admission only. A wallet holding 0.02 passes
      `balance >= amount + 0.01` for a transfer of 0.01, and, admission leaving
      balances alone, passes it again for a second one; settling both takes the
      balance to -0.02. */
  lemma AdmittedTransfersCanOverdraw(c: Crypto, now: int, v: Variant)
    ensures var ws := [Wallet("w1", "u", "A", "k1", 2), Wallet("w2", "v", "B", "k2", 0)];
      var r := CreateTransaction(c, ws, "u", "w1", Request("B", 1), now);
      && r.Ok?
      && Settle([r.value, r.value], ws, [0, 1], 0, v).complete
      && Settle([r.value, r.value], ws, [0, 1], 0, v).wallets[0].balance == -2
  {
    var ws := [Wallet("w1", "u", "A", "k1", 2), Wallet("w2", "v", "B", "k2", 0)];
    assert FindById(ws, "w1") == Some(0);
    assert FindByAddress(ws, "A") == Some(0);
    assert FindByAddress(ws, "B") == Some(1);
    var t := CreateTransaction(c, ws, "u", "w1", Request("B", 1), now).value;
    assert t.fromWallet == "A" && t.toWallet == "B" && t.amount == 1 && t.fee == 1;
    var ws1 := Step(ws, t, v).value;
    assert ws1 == [ws[0].(balance := 0), ws[1].(balance := 1)];
    assert FindByAddress(ws1, "A") == Some(0);
    assert FindByAddress(ws1, "B") == Some(1);
    var ws2 := Step(ws1, t, v).value;
    assert ws2 == [ws[0].(balance := -2), ws[1].(balance := 2)];
    var txs := [t, t];
    var s1 := Settle(txs[0 := Confirm(t, 0)], ws1, [1], 0, v);
    assert Settle(txs[0 := Confirm(t, 0)][1 := Confirm(t, 0)], ws2, [], 0, v).wallets == ws2;
    assert s1.wallets == ws2 && s1.complete;
  }
}
