/** `validateChain`: walk the stored blocks in index order and re-check
    linkage, proof-of-work prefix, Merkle commitment and transaction tags. */
module Validation {
  import opened Wrappers
  import opened Primitives
  import opened Merkle
  import opened Blocks
  import opened Transactions
  import opened Wallets
  import opened Variants

  // The validator as written starts at the second block and cannot compute a
  // tag, since `crypto` is never imported in that file; corrected, it starts at
  // the first block and computes the tag.

  /** The exceptions the walk can raise instead of answering. The labels are
      descriptive: which JavaScript error surfaces depends on the runtime (a
      global Web Crypto `crypto` has no `HmacSHA256` either) and on evaluation
      order (`wallet.privateKey` is read before the call, so an unknown sender
      fails first). */
  datatype Fault =
    | HmacUnavailable  // `crypto.HmacSHA256` on a name that is not imported
    | UnknownSender    // `wallet.privateKey` on a wallet lookup that found nothing

  /** Linkage to the predecessor (from the second block on) and the hash prefix. */
  predicate HeaderOk(chain: seq<Block>, i: nat)
    requires i < |chain|
  {
    (i == 0 || chain[i].previousHash == chain[i - 1].hash)
    && MeetsDifficulty(chain[i].hash, chain[i].difficulty)
  }

  /** The stored root equals the root recomputed from the block's transactions. */
  predicate MerkleOk(c: Crypto, chain: seq<Block>, txs: seq<Tx>, i: nat)
    requires i < |chain|
  {
    MerkleRoot(c, TxHashes(Populate(chain[i].transactions, txs))) == chain[i].merkleRoot
  }

  predicate SenderKnown(ws: seq<Wallet>, t: Tx)
  {
    FindByAddress(ws, t.fromWallet).Some?
  }

  /** The sender's wallet exists and its key reproduces the stored tag. */
  predicate TxSigned(c: Crypto, ws: seq<Wallet>, t: Tx)
  {
    match FindByAddress(ws, t.fromWallet)
    case None => false
    case Some(q) => SignedBy(c, t, ws[q].privateKey)
  }

  /** The loop over one block's transactions; its `break` leaves only this loop. */
  function CheckSignatures(c: Crypto, ts: seq<Tx>, ws: seq<Wallet>, v: Variant): (r: Result<bool, Fault>)
    ensures v == AsWritten ==> r == (if |ts| == 0 then Ok(true) else Err(HmacUnavailable))
    ensures v == Corrected && r.Ok? ==> (r.value <==> forall t :: t in ts ==> TxSigned(c, ws, t))
    ensures v == Corrected && r.Err? ==> r.error == UnknownSender && exists t :: t in ts && !SenderKnown(ws, t)
    ensures v == Corrected && (forall t :: t in ts ==> SenderKnown(ws, t)) ==> r.Ok?
  {
    if |ts| == 0 then Ok(true)
    else if v == AsWritten then Err(HmacUnavailable)
    else match FindByAddress(ws, ts[0].fromWallet)
      case None =>
        assert ts[0] in ts && !SenderKnown(ws, ts[0]);
        Err(UnknownSender)
      case Some(q) =>
        if !SignedBy(c, ts[0], ws[q].privateKey) then
          assert ts[0] in ts && !TxSigned(c, ws, ts[0]);
          Ok(false)
        else
          assert forall t :: t in ts ==> t == ts[0] || t in ts[1..];
          CheckSignatures(c, ts[1..], ws, v)
  }

  /** The outer loop from block `i` on, `valid` being the flag so far. A header or
      Merkle failure ends the walk with `false`; a tag mismatch only clears the
      flag and the walk goes on to the next block. */
  function Walk(c: Crypto, chain: seq<Block>, txs: seq<Tx>, ws: seq<Wallet>, i: nat, valid: bool, v: Variant): (r: Result<bool, Fault>)
    ensures r == Ok(true) ==> valid && forall j :: i <= j < |chain| ==> HeaderOk(chain, j) && MerkleOk(c, chain, txs, j)
    ensures r.Err? ==> r.error == if v == AsWritten then HmacUnavailable else UnknownSender
    decreases |chain| - i
  {
    if i >= |chain| then Ok(valid)
    else if !HeaderOk(chain, i) then Ok(false)
    else if !MerkleOk(c, chain, txs, i) then Ok(false)
    else match CheckSignatures(c, Populate(chain[i].transactions, txs), ws, v)
      case Err(f) => Err(f)
      case Ok(signed) => Walk(c, chain, txs, ws, i + 1, valid && signed, v)
  }

  /** The order `Block.find().sort({ index: 1 })` hands the validators: `chain`
      stands for that query's result, not for the store's own order. */
  predicate SortedByIndex(chain: seq<Block>)
  {
    forall j, k :: 0 <= j < k < |chain| ==> chain[j].index <= chain[k].index
  }

  /** `validateChain` as written: from the second block on, and throwing at the
      first transaction whose tag it tries to recompute. */
  function ValidateChainAsWritten(c: Crypto, chain: seq<Block>, txs: seq<Tx>, ws: seq<Wallet>): (r: Result<bool, Fault>)
    ensures r == Ok(true) ==> forall j :: 1 <= j < |chain| ==> HeaderOk(chain, j) && MerkleOk(c, chain, txs, j)
    ensures r.Err? ==> r.error == HmacUnavailable
  {
    Walk(c, chain, txs, ws, 1, true, AsWritten)
  }

  /** `validateChain` checking every block, the genesis block without linkage. */
  function ValidateChain(c: Crypto, chain: seq<Block>, txs: seq<Tx>, ws: seq<Wallet>): (r: Result<bool, Fault>)
    ensures r == Ok(true) ==> forall j :: 0 <= j < |chain| ==> HeaderOk(chain, j) && MerkleOk(c, chain, txs, j)
    ensures r.Err? ==> r.error == UnknownSender
  {
    Walk(c, chain, txs, ws, 0, true, Corrected)
  }

  /** Everything block `i` must satisfy. */
  ghost predicate BlockPasses(c: Crypto, chain: seq<Block>, txs: seq<Tx>, ws: seq<Wallet>, i: nat)
    requires i < |chain|
  {
    HeaderOk(chain, i) && MerkleOk(c, chain, txs, i)
    && forall t :: t in Populate(chain[i].transactions, txs) ==> TxSigned(c, ws, t)
  }

  /** Every transaction block `i` refers to has a sender wallet. */
  ghost predicate BlockSendersKnown(chain: seq<Block>, txs: seq<Tx>, ws: seq<Wallet>, i: nat)
    requires i < |chain|
  {
    forall t :: t in Populate(chain[i].transactions, txs) ==> SenderKnown(ws, t)
  }

  /** Every transaction some block refers to has a sender wallet. */
  ghost predicate SendersKnown(chain: seq<Block>, txs: seq<Tx>, ws: seq<Wallet>)
  {
    forall i :: 0 <= i < |chain| ==> BlockSendersKnown(chain, txs, ws, i)
  }

  /** Every block from `i` on passes. */
  ghost predicate PassesFrom(c: Crypto, chain: seq<Block>, txs: seq<Tx>, ws: seq<Wallet>, i: nat)
  {
    forall j :: i <= j < |chain| ==> BlockPasses(c, chain, txs, ws, j)
  }

  lemma PassesFromStep(c: Crypto, chain: seq<Block>, txs: seq<Tx>, ws: seq<Wallet>, i: nat)
    requires i < |chain|
    ensures PassesFrom(c, chain, txs, ws, i) <==> BlockPasses(c, chain, txs, ws, i) && PassesFrom(c, chain, txs, ws, i + 1)
  {
  }

  /** One block of the corrected walk: its answer is whether the block passes. */
  lemma BlockAnswer(c: Crypto, chain: seq<Block>, txs: seq<Tx>, ws: seq<Wallet>, i: nat)
    requires i < |chain| && HeaderOk(chain, i) && MerkleOk(c, chain, txs, i)
    ensures var sigs := CheckSignatures(c, Populate(chain[i].transactions, txs), ws, Corrected);
      sigs.Ok? ==> sigs.value == BlockPasses(c, chain, txs, ws, i)
  {
  }

  /** When the corrected walk answers, it answers the conjunction of the flag
      and every remaining block passing. */
  lemma {:induction false} WalkAnswer(c: Crypto, chain: seq<Block>, txs: seq<Tx>, ws: seq<Wallet>, i: nat, valid: bool)
    ensures var r := Walk(c, chain, txs, ws, i, valid, Corrected);
      r.Ok? ==> (r.value <==> valid && PassesFrom(c, chain, txs, ws, i))
    decreases |chain| - i
  {
    if i < |chain| {
      PassesFromStep(c, chain, txs, ws, i);
      if !HeaderOk(chain, i) || !MerkleOk(c, chain, txs, i) {
        assert Walk(c, chain, txs, ws, i, valid, Corrected) == Ok(false);
      } else {
        var sigs := CheckSignatures(c, Populate(chain[i].transactions, txs), ws, Corrected);
        BlockAnswer(c, chain, txs, ws, i);
        if sigs.Ok? {
          assert Walk(c, chain, txs, ws, i, valid, Corrected) == Walk(c, chain, txs, ws, i + 1, valid && sigs.value, Corrected);
          WalkAnswer(c, chain, txs, ws, i + 1, valid && sigs.value);
        }
      }
    }
  }

  /** The corrected walk throws only on a referenced transaction without a
      sender wallet. */
  lemma {:induction false} WalkFaultWitness(c: Crypto, chain: seq<Block>, txs: seq<Tx>, ws: seq<Wallet>, i: nat, valid: bool)
    ensures var r := Walk(c, chain, txs, ws, i, valid, Corrected);
      r.Err? ==> r.error == UnknownSender && exists j :: i <= j < |chain| && !BlockSendersKnown(chain, txs, ws, j)
    decreases |chain| - i
  {
    if i < |chain| && BlockSendersKnown(chain, txs, ws, i) {
      WalkStep(c, chain, txs, ws, i, valid);
      var sigs := CheckSignatures(c, Populate(chain[i].transactions, txs), ws, Corrected);
      WalkFaultWitness(c, chain, txs, ws, i + 1, valid && sigs.value);
    }
  }

  /** One step of the corrected walk over a block whose senders all have wallets:
      a header or Merkle failure answers `false`, otherwise the walk goes on. */
  lemma WalkStep(c: Crypto, chain: seq<Block>, txs: seq<Tx>, ws: seq<Wallet>, i: nat, valid: bool)
    requires i < |chain| && BlockSendersKnown(chain, txs, ws, i)
    ensures var sigs := CheckSignatures(c, Populate(chain[i].transactions, txs), ws, Corrected);
      sigs.Ok?
      && Walk(c, chain, txs, ws, i, valid, Corrected)
         == if HeaderOk(chain, i) && MerkleOk(c, chain, txs, i)
            then Walk(c, chain, txs, ws, i + 1, valid && sigs.value, Corrected)
            else Ok(false)
  {
  }

  /** The corrected walk does not throw when every referenced sender has a wallet. */
  lemma {:induction false} WalkNoFault(c: Crypto, chain: seq<Block>, txs: seq<Tx>, ws: seq<Wallet>, i: nat, valid: bool)
    requires forall j :: i <= j < |chain| ==> BlockSendersKnown(chain, txs, ws, j)
    ensures Walk(c, chain, txs, ws, i, valid, Corrected).Ok?
    decreases |chain| - i
  {
    if i < |chain| {
      WalkStep(c, chain, txs, ws, i, valid);
      var sigs := CheckSignatures(c, Populate(chain[i].transactions, txs), ws, Corrected);
      WalkNoFault(c, chain, txs, ws, i + 1, valid && sigs.value);
    }
  }

  /** The corrected validator answers `true` exactly when every block passes
      every check; it can only throw on a referenced transaction whose sender
      has no wallet, and it does not throw when every such sender has one. */
  lemma ValidateChainCorrect(c: Crypto, chain: seq<Block>, txs: seq<Tx>, ws: seq<Wallet>)
    ensures var r := ValidateChain(c, chain, txs, ws);
      r.Ok? ==> (r.value <==> forall j :: 0 <= j < |chain| ==> BlockPasses(c, chain, txs, ws, j))
    ensures var r := ValidateChain(c, chain, txs, ws);
      r.Err? ==> r.error == UnknownSender && !SendersKnown(chain, txs, ws)
    ensures SendersKnown(chain, txs, ws) ==> ValidateChain(c, chain, txs, ws).Ok?
  {
    WalkAnswer(c, chain, txs, ws, 0, true);
    WalkFaultWitness(c, chain, txs, ws, 0, true);
    if SendersKnown(chain, txs, ws) {
      WalkNoFault(c, chain, txs, ws, 0, true);
    }
  }

  /** Replacing the stored hash of a block that has a successor makes the
      chain fail validation: the successor's link no longer matches. */
  lemma RehashedBlockFailsValidation(c: Crypto, chain: seq<Block>, txs: seq<Tx>, ws: seq<Wallet>, j: nat, forged: string)
    requires j + 1 < |chain|
    requires chain[j + 1].previousHash == chain[j].hash
    requires forged != chain[j].hash
    ensures ValidateChain(c, chain[j := chain[j].(hash := forged)], txs, ws) != Ok(true)
  {
    var tampered := chain[j := chain[j].(hash := forged)];
    ValidateChainCorrect(c, tampered, txs, ws);
    assert !HeaderOk(tampered, j + 1);
    assert !BlockPasses(c, tampered, txs, ws, j + 1);
  }

  /** Replacing a stored Merkle root makes the chain fail validation. */
  lemma ForgedMerkleRootFailsValidation(c: Crypto, chain: seq<Block>, txs: seq<Tx>, ws: seq<Wallet>, j: nat, forged: string)
    requires j < |chain|
    requires MerkleOk(c, chain, txs, j)
    requires forged != chain[j].merkleRoot
    ensures ValidateChain(c, chain[j := chain[j].(merkleRoot := forged)], txs, ws) != Ok(true)
  {
    var tampered := chain[j := chain[j].(merkleRoot := forged)];
    ValidateChainCorrect(c, tampered, txs, ws);
    assert tampered[j].transactions == chain[j].transactions;
    assert !MerkleOk(c, tampered, txs, j);
    assert !BlockPasses(c, tampered, txs, ws, j);
  }

  // ---------------------------------------------------------------- as written

  /** As written, a chain of at most one block is valid whatever it holds. */
  lemma AsWrittenAcceptsShortChains(c: Crypto, chain: seq<Block>, txs: seq<Tx>, ws: seq<Wallet>)
    requires |chain| <= 1
    ensures ValidateChainAsWritten(c, chain, txs, ws) == Ok(true)
  {
  }

  /** A lone block whose hash misses the target: as written it validates, the
      corrected walk rejects it. */
  lemma GenesisTamperUndetectedAsWritten(c: Crypto, b: Block, txs: seq<Tx>, ws: seq<Wallet>)
    requires !MeetsDifficulty(b.hash, b.difficulty)
    ensures ValidateChainAsWritten(c, [b], txs, ws) == Ok(true)
    ensures ValidateChain(c, [b], txs, ws) == Ok(false)
  {
  }

  /** The tampering the test suite performs: hash `"tampered-hash"` at difficulty 4. */
  lemma TamperedHashMissesTarget()
    ensures !MeetsDifficulty("tampered-hash", DEFAULT_DIFFICULTY)
  {
    MeetsDifficultyIff("tampered-hash", DEFAULT_DIFFICULTY);
    assert "tampered-hash"[0] != '0';
  }

  /** As written, the walk never answers from a tag: it throws as soon as it
      reaches a block that references a stored transaction. */
  /** One step of the as-written walk: a header or Merkle failure answers
      `false`, a block without transactions passes the flag on, and any other
      block throws. */
  lemma AsWrittenStep(c: Crypto, chain: seq<Block>, txs: seq<Tx>, ws: seq<Wallet>, i: nat, valid: bool)
    requires i < |chain|
    ensures Walk(c, chain, txs, ws, i, valid, AsWritten)
         == if !HeaderOk(chain, i) || !MerkleOk(c, chain, txs, i) then Ok(false)
            else if Populate(chain[i].transactions, txs) == [] then Walk(c, chain, txs, ws, i + 1, valid, AsWritten)
            else Err(HmacUnavailable)
  {
    var ts := Populate(chain[i].transactions, txs);
    if HeaderOk(chain, i) && MerkleOk(c, chain, txs, i) {
      if ts == [] {
        assert CheckSignatures(c, ts, ws, AsWritten) == Ok(true);
      } else {
        assert CheckSignatures(c, ts, ws, AsWritten) == Err(HmacUnavailable);
      }
    }
  }

  lemma {:induction false} AsWrittenThrowsOnTransactions(c: Crypto, chain: seq<Block>, txs: seq<Tx>, ws: seq<Wallet>, i: nat, valid: bool)
    ensures var r := Walk(c, chain, txs, ws, i, valid, AsWritten);
      (r.Err? ==> r.error == HmacUnavailable)
      && (r == Ok(true) ==> forall j :: i <= j < |chain| ==> Populate(chain[j].transactions, txs) == [])
    ensures i < |chain| && HeaderOk(chain, i) && MerkleOk(c, chain, txs, i) && Populate(chain[i].transactions, txs) != [] ==>
              Walk(c, chain, txs, ws, i, valid, AsWritten) == Err(HmacUnavailable)
    decreases |chain| - i
  {
    if i < |chain| {
      AsWrittenStep(c, chain, txs, ws, i, valid);
      if HeaderOk(chain, i) && MerkleOk(c, chain, txs, i) && Populate(chain[i].transactions, txs) == [] {
        AsWrittenThrowsOnTransactions(c, chain, txs, ws, i + 1, valid);
      }
    }
  }
}
