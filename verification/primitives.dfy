/** The cryptographic and serialisation primitives the ledger calls but does not define. */
module Primitives {

  /** The record `{ fromWallet, toWallet, amount, fee, timestamp }` that is both
      signed and hashed. Amounts are integer hundredths of a coin. */
  datatype Payload = Payload(fromWallet: string, toWallet: string, amount: int, fee: int, timestamp: int)

  /** SHA-256 as a hex digest, HMAC-SHA256 as `HmacSHA256(message, key)`, and
      `JSON.stringify` of a payload. They are left uninterpreted: every operation
      takes them as a parameter, so every property proved holds for every choice. */
  datatype Crypto = Crypto(
    sha256: string -> string,
    hmacSha256: (string, string) -> string,
    stringify: Payload -> string)

  /** Collision-freedom of `JSON.stringify` on payloads: distinct records serialise differently. */
  ghost predicate StringifyInjective(c: Crypto)
  {
    forall p, q :: c.stringify(p) == c.stringify(q) ==> p == q
  }

  /** Collision-freedom of HMAC in its message, for a fixed key. */
  ghost predicate HmacInjective(c: Crypto)
  {
    forall m1, m2, key :: c.hmacSha256(m1, key) == c.hmacSha256(m2, key) ==> m1 == m2
  }
}
