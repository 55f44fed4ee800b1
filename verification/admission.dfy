/** `createTransaction` and `validateTransaction`: admitting a transfer to the
    pending pool and re-verifying a stored one. */
module Admission {
  import opened Wrappers
  import opened Primitives
  import opened Transactions
  import opened Wallets

  /** The request body `{ toWallet, amount }`. */
  datatype Request = Request(toWallet: string, amount: int)

  datatype AdmissionError =
    | SchemaViolation      // 400, the request body fails the schema
    | InvalidWallet        // 403, the sender wallet is missing or not the user's
    | InsufficientBalance  // 400
    | RecipientNotFound    // 400

  /** The request schema: a non-empty recipient string and an amount of at least 0.01. */
  predicate SchemaAccepts(req: Request)
  {
    req.toWallet != "" && req.amount >= MIN_AMOUNT
  }

  /** The sender wallet, when it exists and belongs to the requesting user. */
  function OwnedWallet(ws: seq<Wallet>, walletId: string, user: UserId): (w: Option<Wallet>)
    ensures w.Some? ==> w.value in ws && w.value.id == walletId && w.value.userId == user
    ensures w.None? <==> FindById(ws, walletId).None? || ws[FindById(ws, walletId).value].userId != user
  {
    match FindById(ws, walletId)
    case None => None
    case Some(q) => if ws[q].userId == user then Some(ws[q]) else None
  }

  /** The guards of `createTransaction`, in the source's order: schema, then
      ownership, then funds against `amount + 0.01`, then the recipient. */
  function AdmissionChecks(ws: seq<Wallet>, user: UserId, walletId: string, req: Request): (r: Result<Wallet, AdmissionError>)
    ensures r == Err(SchemaViolation) <==> !SchemaAccepts(req)
    ensures r == Err(InvalidWallet) <==> SchemaAccepts(req) && OwnedWallet(ws, walletId, user).None?
    ensures r == Err(InsufficientBalance) <==>
              SchemaAccepts(req) && OwnedWallet(ws, walletId, user).Some?
              && OwnedWallet(ws, walletId, user).value.balance < req.amount + DEFAULT_FEE
    ensures r == Err(RecipientNotFound) <==>
              SchemaAccepts(req) && OwnedWallet(ws, walletId, user).Some?
              && OwnedWallet(ws, walletId, user).value.balance >= req.amount + DEFAULT_FEE
              && FindByAddress(ws, req.toWallet).None?
    ensures r.Ok? ==> r == Ok(OwnedWallet(ws, walletId, user).value)
  {
    if !SchemaAccepts(req) then Err(SchemaViolation)
    else match OwnedWallet(ws, walletId, user)
      case None => Err(InvalidWallet)
      case Some(w) =>
        if w.balance < req.amount + DEFAULT_FEE then Err(InsufficientBalance)
        else if FindByAddress(ws, req.toWallet).None? then Err(RecipientNotFound)
        else Ok(w)
  }

  /** `createTransaction` as written: the payload signed and hashed carries the
      clock reading `signedAt`, but the record is built without it, so its
      `timestamp` is the schema default, a later clock reading `storedAt`. */
  function CreateTransactionAsWritten(c: Crypto, ws: seq<Wallet>, user: UserId, walletId: string, req: Request,
                                      signedAt: int, storedAt: int): (r: Result<Tx, AdmissionError>)
    ensures r.Ok? <==> AdmissionChecks(ws, user, walletId, req).Ok?
    ensures r.Err? ==> r.error == AdmissionChecks(ws, user, walletId, req).error
    ensures r.Ok? ==>
              var w := AdmissionChecks(ws, user, walletId, req).value;
              var signed := Payload(w.address, req.toWallet, req.amount, DEFAULT_FEE, signedAt);
              && r.value.fromWallet == w.address && r.value.toWallet == req.toWallet
              && r.value.amount == req.amount && r.value.fee == DEFAULT_FEE
              && r.value.status == Pending && r.value.blockId == None
              && r.value.timestamp == storedAt && r.value.userId == user
              && r.value.signature == Sign(c, signed, w.privateKey)
              && r.value.hash == GenerateHash(c, signed)
  {
    match AdmissionChecks(ws, user, walletId, req)
    case Err(e) => Err(e)
    case Ok(w) =>
      var signed := Payload(w.address, req.toWallet, req.amount, DEFAULT_FEE, signedAt);
      Ok(NewTx(user, w.address, req.toWallet, req.amount, Sign(c, signed, w.privateKey), GenerateHash(c, signed), storedAt))
  }

  /** `createTransaction` storing the timestamp it signs. */
  function CreateTransaction(c: Crypto, ws: seq<Wallet>, user: UserId, walletId: string, req: Request,
                             now: int): (r: Result<Tx, AdmissionError>)
    ensures r.Ok? <==> AdmissionChecks(ws, user, walletId, req).Ok?
    ensures r.Err? ==> r.error == AdmissionChecks(ws, user, walletId, req).error
    ensures r.Ok? ==>
              var w := AdmissionChecks(ws, user, walletId, req).value;
              && r.value.fromWallet == w.address && r.value.toWallet == req.toWallet
              && r.value.amount == req.amount && r.value.fee == DEFAULT_FEE
              && r.value.status == Pending && r.value.blockId == None
              && r.value.timestamp == now && r.value.userId == user
              && SignedBy(c, r.value, w.privateKey)
              && r.value.hash == GenerateHash(c, StoredPayload(r.value))
  {
    CreateTransactionAsWritten(c, ws, user, walletId, req, now, now)
  }

  datatype VerifyError =
    | TransactionNotFound  // 404
    | WalletNotOwned       // 403, the sender wallet is missing or not the user's

  /** `validateTransaction`: recompute the tag over the stored fields with the
      sender's key, and check the sender's current balance covers amount and fee. */
  function ValidateTransaction(c: Crypto, ws: seq<Wallet>, txs: seq<Tx>, user: UserId, txId: nat): (r: Result<bool, VerifyError>)
    ensures r == Err(TransactionNotFound) <==> txId >= |txs|
    ensures r == Err(WalletNotOwned) <==>
              txId < |txs| &&
              match FindByAddress(ws, txs[txId].fromWallet)
              case None => true
              case Some(q) => ws[q].userId != user
    ensures r.Ok? ==>
              var t := txs[txId];
              var w := ws[FindByAddress(ws, t.fromWallet).value];
              (r.value <==> SignedBy(c, t, w.privateKey) && w.balance >= t.amount + t.fee)
  {
    if txId >= |txs| then Err(TransactionNotFound)
    else
      var t := txs[txId];
      match FindByAddress(ws, t.fromWallet)
      case None => Err(WalletNotOwned)
      case Some(q) =>
        if ws[q].userId != user then Err(WalletNotOwned)
        else Ok(Sign(c, StoredPayload(t), ws[q].privateKey) == t.signature && ws[q].balance >= t.amount + t.fee)
  }

  /** A transaction admitted by the corrected handler validates, as long as the
      sender's balance has not moved: admission checked `amount + 0.01` and the fee is 0.01. */
  lemma AcceptedTransactionValidates(c: Crypto, ws: seq<Wallet>, txs: seq<Tx>, user: UserId, walletId: string,
                                     req: Request, now: int)
    requires UniqueAddresses(ws)
    requires CreateTransaction(c, ws, user, walletId, req, now).Ok?
    ensures ValidateTransaction(c, ws, txs + [CreateTransaction(c, ws, user, walletId, req, now).value], user, |txs|) == Ok(true)
  {
    var w := AdmissionChecks(ws, user, walletId, req).value;
    var q := FindById(ws, walletId).value;
    assert ws[q] == w;
    FindOwnAddress(ws, q);
  }

  /** As written, the round trip holds only when the two clock readings agree. */
  lemma AsWrittenValidatesWhenClocksAgree(c: Crypto, ws: seq<Wallet>, txs: seq<Tx>, user: UserId, walletId: string,
                                          req: Request, signedAt: int, storedAt: int)
    requires UniqueAddresses(ws)
    requires signedAt == storedAt
    requires CreateTransactionAsWritten(c, ws, user, walletId, req, signedAt, storedAt).Ok?
    ensures ValidateTransaction(c, ws, txs + [CreateTransactionAsWritten(c, ws, user, walletId, req, signedAt, storedAt).value], user, |txs|) == Ok(true)
  {
    AcceptedTransactionValidates(c, ws, txs, user, walletId, req, signedAt);
  }

  /** As written, a freshly admitted transaction fails validation whenever the
      record's default timestamp differs from the signed one, unless
      serialisation or HMAC collide. */
  lemma AsWrittenTimestampDriftFailsValidation(c: Crypto, ws: seq<Wallet>, txs: seq<Tx>, user: UserId, walletId: string,
                                               req: Request, signedAt: int, storedAt: int)
    requires StringifyInjective(c) && HmacInjective(c)
    requires UniqueAddresses(ws)
    requires signedAt != storedAt
    requires CreateTransactionAsWritten(c, ws, user, walletId, req, signedAt, storedAt).Ok?
    ensures ValidateTransaction(c, ws, txs + [CreateTransactionAsWritten(c, ws, user, walletId, req, signedAt, storedAt).value], user, |txs|) == Ok(false)
  {
    var t := CreateTransactionAsWritten(c, ws, user, walletId, req, signedAt, storedAt).value;
    var w := AdmissionChecks(ws, user, walletId, req).value;
    var q := FindById(ws, walletId).value;
    assert ws[q] == w;
    FindOwnAddress(ws, q);
    var signed := Payload(w.address, req.toWallet, req.amount, DEFAULT_FEE, signedAt);
    assert StoredPayload(t) != signed;
    assert c.stringify(StoredPayload(t)) != c.stringify(signed);
    assert !SignedBy(c, t, w.privateKey);
  }

  /** A stored transaction whose signed fields were altered after signing fails
      validation, unless serialisation or HMAC collide. */
  lemma AlteredTransactionFailsValidation(c: Crypto, ws: seq<Wallet>, txs: seq<Tx>, user: UserId, txId: nat, original: Payload)
    requires StringifyInjective(c) && HmacInjective(c)
    requires txId < |txs|
    requires FindByAddress(ws, txs[txId].fromWallet).Some?
    requires ws[FindByAddress(ws, txs[txId].fromWallet).value].userId == user
    requires txs[txId].signature == Sign(c, original, ws[FindByAddress(ws, txs[txId].fromWallet).value].privateKey)
    requires StoredPayload(txs[txId]) != original
    ensures ValidateTransaction(c, ws, txs, user, txId) == Ok(false)
  {
    assert c.stringify(StoredPayload(txs[txId])) != c.stringify(original);
  }
}
