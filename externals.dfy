/**
 * The collaborators the block code calls but whose code is not part of this
 * model. Each is an uninterpreted constant: the proofs hold for every choice
 * of them.
 */
module Externals {
  import Hex

  /** A secp256k1 curve point (`ecdsa::secp256k1::Point`); only equality is used. */
  type Point(==, 0)

  /** `Point::identity()`: the sender that marks a miner-reward transaction. */
  const Identity: Point

  /** Everything of a transaction other than its sender (recipient, amount,
      signature): not inspected by the block code. */
  type TransactionBody(==, 0)

  /** A transaction as the block sees it: `get_sender()` and the rest. */
  datatype Transaction = Transaction(sender: Point, body: TransactionBody)

  /** The body `Transaction::reward_transaction` gives the reward to an address. */
  const RewardBody: Point -> TransactionBody

  /** `Transaction::reward_transaction(address)`: an unsigned transaction whose
      sender is the identity point. */
  function RewardTransaction(minerAddress: Point): (t: Transaction)
    ensures t.sender == Identity
  {
    Transaction(Identity, RewardBody(minerAddress))
  }

  /** `Transaction::verify()`: the ECDSA signature check. */
  const Verify: Transaction -> bool

  /** `functions::get_merkel_root`. */
  const MerkelRootOf: seq<Transaction> -> string

  /** The decimal rendering `format!("{}", n)` of an unsigned number. */
  const Decimal: nat -> string

  /** A SHA-256 digest as 64 four-bit values. */
  type Digest = ds: seq<nat> | |ds| == 64 && forall i :: 0 <= i < |ds| ==> ds[i] < 16
    witness seq(64, i => 0)

  /** The digest function itself. */
  const Sha256Digest: string -> Digest

  /** `sha256::hash`: the digest of the message, in lower-case hex. */
  function Sha256(message: string): (h: string)
    ensures |h| == 64 && Hex.AllHexDigits(h)
  {
    Hex.Encode(Sha256Digest(message))
  }
}
