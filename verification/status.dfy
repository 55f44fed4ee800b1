/** `getStatus`: counts of the two stores and the hash of the latest block. */
module Status {
  import opened Wrappers
  import opened Primitives
  import opened Blocks
  import opened Store
  import opened Admission
  import opened Mining
  import opened Variants
  import opened Invariants

  datatype ChainStatus = ChainStatus(blockCount: nat, transactionCount: nat, latestBlockHash: string)

  /** `Block.findOne().sort({ timestamp: -1 })`: the position of a block with the
      greatest timestamp (the earliest stored such, among equal timestamps). */
  function LatestPosition(blocks: seq<Block>): (r: Option<nat>)
    ensures r.None? <==> |blocks| == 0
    ensures r.Some? ==> r.value < |blocks| && forall j :: 0 <= j < |blocks| ==> blocks[j].timestamp <= blocks[r.value].timestamp
  {
    if |blocks| == 0 then None else Some(LatestFrom(blocks, 0, 1))
  }

  function LatestFrom(blocks: seq<Block>, best: nat, from: nat): (r: nat)
    requires best < from <= |blocks|
    requires forall j :: 0 <= j < from ==> blocks[j].timestamp <= blocks[best].timestamp
    ensures r < |blocks| && forall j :: 0 <= j < |blocks| ==> blocks[j].timestamp <= blocks[r].timestamp
    decreases |blocks| - from
  {
    if from == |blocks| then best
    else if blocks[from].timestamp > blocks[best].timestamp then LatestFrom(blocks, from, from + 1)
    else LatestFrom(blocks, best, from + 1)
  }

  /** The status report; on an empty chain the latest hash is the empty string. */
  function GetStatus(l: Ledger): (s: ChainStatus)
    ensures s.blockCount == |l.blocks| && s.transactionCount == |l.txs|
    ensures |l.blocks| == 0 ==> s.latestBlockHash == ""
    ensures |l.blocks| > 0 ==>
              exists q :: 0 <= q < |l.blocks| && s.latestBlockHash == l.blocks[q].hash
                          && forall j :: 0 <= j < |l.blocks| ==> l.blocks[j].timestamp <= l.blocks[q].timestamp
  {
    var latest := match LatestPosition(l.blocks)
      case None => ""
      case Some(q) => l.blocks[q].hash;
    ChainStatus(|l.blocks|, |l.txs|, latest)
  }

  /** An admitted transaction adds one to the transaction count and nothing else. */
  lemma StatusAfterSubmit(c: Crypto, l: Ledger, user: string, walletId: string, req: Request, now: int)
    requires Submit(c, l, user, walletId, req, now).Ok?
    ensures var s := GetStatus(l);
      GetStatus(Submit(c, l, user, walletId, req, now).value) == s.(transactionCount := s.transactionCount + 1)
  {
  }

  /** A block appended with a timestamp later than every stored block's is the latest. */
  lemma LatestAfterLaterAppend(blocks: seq<Block>, b: Block)
    requires forall j :: 0 <= j < |blocks| ==> blocks[j].timestamp < b.timestamp
    ensures LatestPosition(blocks + [b]) == Some(|blocks|)
  {
    var all := blocks + [b];
    var q := LatestPosition(all).value;
    assert all[|blocks|] == b;
    assert forall j :: 0 <= j < |blocks| ==> all[j] == blocks[j];
  }

  /** A block mined at a clock reading later than every stored block becomes
      the latest once stored: one more block, the same number of transactions,
      and the new block's hash reported. A rejected save leaves the status as
      it was. */
  lemma StatusAfterMine(c: Crypto, l: Ledger, now: nat, nonce: nat, v: Variant)
    requires forall j :: 0 <= j < |l.blocks| ==> l.blocks[j].timestamp < now
    ensures var m := MineWith(c, l, now, nonce, v);
      m.stored ==> GetStatus(m.ledger) == ChainStatus(|l.blocks| + 1, |l.txs|, m.block.hash)
    ensures var m := MineWith(c, l, now, nonce, v);
      !m.stored ==> GetStatus(m.ledger) == GetStatus(l)
  {
    var m := MineWith(c, l, now, nonce, v);
    if m.stored {
      MineConfirmsOnlyBatch(c, l, now, nonce, v);
      LatestAfterLaterAppend(l.blocks, m.block);
    }
  }
}
