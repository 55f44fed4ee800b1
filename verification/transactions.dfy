/** The transaction record, its content hash and the resolution of block references. */
module Transactions {
  import opened Wrappers
  import opened Primitives

  /** Schema minimum for `amount`: 0.01, in hundredths. */
  const MIN_AMOUNT: int := 1
  /** Schema default for `fee`, and the fee `createTransaction` sets: 0.01. */
  const DEFAULT_FEE: int := 1

  type Address = string
  type UserId = string

  /** The schema's status enum; a new record is `Pending`. */
  datatype Status = Pending | Confirmed | Failed

  datatype Tx = Tx(
    userId: UserId,
    fromWallet: Address,
    toWallet: Address,
    amount: int,
    fee: int,
    signature: string,
    timestamp: int,
    status: Status,
    blockId: Option<nat>,
    hash: string)

  /** `new Transaction({...})` without `timestamp`, `status` or `blockId`: those
      take the schema defaults, the timestamp being the clock reading `storedAt`. */
  function NewTx(userId: UserId, fromWallet: Address, toWallet: Address, amount: int,
                 signature: string, hash: string, storedAt: int): (t: Tx)
    ensures t.status == Pending && t.blockId == None
    ensures t.fee == DEFAULT_FEE && t.timestamp == storedAt
    ensures t.userId == userId && t.fromWallet == fromWallet && t.toWallet == toWallet
    ensures t.amount == amount && t.signature == signature && t.hash == hash
  {
    Tx(userId, fromWallet, toWallet, amount, DEFAULT_FEE, signature, storedAt, Pending, None, hash)
  }

  /** The schema's validity conditions on a stored record. */
  predicate SchemaValid(t: Tx)
  {
    t.amount >= MIN_AMOUNT
  }

  /** The record the verifiers rebuild from a stored transaction. */
  function StoredPayload(t: Tx): Payload
  {
    Payload(t.fromWallet, t.toWallet, t.amount, t.fee, t.timestamp)
  }

  /** `Transaction.generateHash(data)`. */
  function GenerateHash(c: Crypto, data: Payload): string
  {
    c.sha256(c.stringify(data))
  }

  /** `HmacSHA256(JSON.stringify(data), privateKey)`. */
  function Sign(c: Crypto, data: Payload, privateKey: string): string
  {
    c.hmacSha256(c.stringify(data), privateKey)
  }

  /** Under collision-free serialisation and HMAC, one key tags two payloads
      alike exactly when they are the same payload. */
  lemma TagSeparatesPayloads(c: Crypto, d1: Payload, d2: Payload, privateKey: string)
    ensures StringifyInjective(c) && HmacInjective(c) ==>
              (Sign(c, d1, privateKey) == Sign(c, d2, privateKey) <==> d1 == d2)
  {
  }

  /** The stored signature is the sender key's tag over the stored fields. */
  predicate SignedBy(c: Crypto, t: Tx, privateKey: string)
  {
    Sign(c, StoredPayload(t), privateKey) == t.signature
  }

  /** Two records that differ at most in `status` and `blockId`. */
  predicate SameContent(a: Tx, b: Tx)
  {
    a.(status := b.status, blockId := b.blockId) == b
  }

  /** The `tx.hash` values the Merkle root is computed from, in order. */
  function TxHashes(ts: seq<Tx>): (hs: seq<string>)
    ensures |hs| == |ts|
    ensures forall i :: 0 <= i < |ts| ==> hs[i] == ts[i].hash
  {
    if |ts| == 0 then [] else [ts[0].hash] + TxHashes(ts[1..])
  }

  /** Resolving a block's references against the store, as `populate` does for an
      array: references to no stored transaction are dropped, order is kept. */
  function Populate(ids: seq<nat>, ts: seq<Tx>): (r: seq<Tx>)
    ensures |r| <= |ids|
    ensures forall t :: t in r ==> t in ts
    ensures (forall k :: 0 <= k < |ids| ==> ids[k] < |ts|) ==>
              |r| == |ids| && forall k :: 0 <= k < |ids| ==> r[k] == ts[ids[k]]
  {
    if |ids| == 0 then []
    else (if ids[0] < |ts| then [ts[ids[0]]] else []) + Populate(ids[1..], ts)
  }

  /** Populating against a store whose records changed only in status and block
      reference, or that only grew past every reference, gives the same hashes. */
  lemma {:induction false} PopulateHashesStable(ids: seq<nat>, ts: seq<Tx>, ts': seq<Tx>)
    requires |ts| <= |ts'|
    requires forall k :: 0 <= k < |ids| ==> ids[k] < |ts|
    requires forall p :: 0 <= p < |ts| ==> ts'[p].hash == ts[p].hash
    ensures TxHashes(Populate(ids, ts')) == TxHashes(Populate(ids, ts))
  {
    var a := Populate(ids, ts');
    var b := Populate(ids, ts);
    assert forall k :: 0 <= k < |ids| ==> ids[k] < |ts'|;
    assert |TxHashes(a)| == |TxHashes(b)|;
    forall k | 0 <= k < |ids|
      ensures TxHashes(a)[k] == TxHashes(b)[k]
    {
      assert a[k] == ts'[ids[k]];
      assert b[k] == ts[ids[k]];
    }
  }
}
