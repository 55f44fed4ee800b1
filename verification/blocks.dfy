/** The block record and its hash. */
module Blocks {
  import opened Text
  import opened Primitives

  /** Schema default for `difficulty`: four leading hex zeros. */
  const DEFAULT_DIFFICULTY: nat := 4

  /** A transaction reference: the transaction's position in the transaction store. */
  type TxId = nat

  datatype Block = Block(
    index: nat,
    timestamp: nat,
    transactions: seq<TxId>,
    transactionCount: nat,
    previousHash: string,
    hash: string,
    nonce: nat,
    merkleRoot: string,
    difficulty: nat)

  /** The schema's `required` check, run by `block.save()`. The numeric fields
      are always set here; Mongoose rejects an empty string in a required String
      field, so the previous hash, the hash and the Merkle root must be non-empty. */
  predicate RequiredFieldsSet(b: Block)
  {
    b.previousHash != "" && b.hash != "" && b.merkleRoot != ""
  }

  /** The string `index + previousHash + timestamp + merkleRoot + nonce`, numbers
      rendered in decimal by JavaScript's implicit conversion. */
  function HashPreimage(index: nat, previousHash: string, timestamp: nat, merkleRoot: string, nonce: nat): string
  {
    DecimalString(index) + previousHash + DecimalString(timestamp) + merkleRoot + DecimalString(nonce)
  }

  function CalculateHash(c: Crypto, index: nat, previousHash: string, timestamp: nat, merkleRoot: string, nonce: nat): string
  {
    c.sha256(HashPreimage(index, previousHash, timestamp, merkleRoot, nonce))
  }

  /** `hash.startsWith('0'.repeat(difficulty))`. */
  predicate MeetsDifficulty(hash: string, difficulty: nat)
  {
    StartsWith(hash, Zeros(difficulty))
  }

  /** The proof-of-work target, character by character. */
  lemma MeetsDifficultyIff(hash: string, difficulty: nat)
    ensures MeetsDifficulty(hash, difficulty)
        <==> |hash| >= difficulty && forall i :: 0 <= i < difficulty ==> hash[i] == '0'
  {
    if |hash| >= difficulty && forall i :: 0 <= i < difficulty ==> hash[i] == '0' {
      assert hash[..difficulty] == Zeros(difficulty);
    }
  }

  /** The pre-image is an undelimited concatenation: two different headers can
      share it, so they share a hash whatever SHA-256 is. */
  lemma PreimageIsAmbiguous(c: Crypto, timestamp: nat, merkleRoot: string, nonce: nat)
    ensures HashPreimage(1, "2" + "abc", timestamp, merkleRoot, nonce)
         == HashPreimage(12, "abc", timestamp, merkleRoot, nonce)
    ensures CalculateHash(c, 1, "2" + "abc", timestamp, merkleRoot, nonce)
         == CalculateHash(c, 12, "abc", timestamp, merkleRoot, nonce)
  {
    assert DecimalString(12) == DecimalString(1) + [Digit(2)];
  }
}
