/**
 * `verifyFeeTX`: whether a transaction looked up on the Algorand indexer is
 * the signup fee, 0.5 Algo paid by the user's wallet to the platform
 * address.
 */
module FeeTx {
  import opened Wrappers

  /** 0.5 Algo, in microAlgos. */
  const ExpectedAmount: int := 500000
  /** The platform address the fee must be paid to. */
  const ExpectedRecipient: string := "SJDMEUSIKIU4LIJIMH4F7ZVMJOGF6PO4RNTPLISOVBLG6LOPG4HMWGVIKU"

  /** The `payment-transaction` part of an indexer transaction; a field the
      indexer leaves out is None. */
  datatype PaymentPart = PaymentPart(receiver: Option<string>, amount: Option<int>)

  /** An indexer transaction: its sender and, for a payment, its payment part. */
  datatype Transaction = Transaction(sender: string, payment: Option<PaymentPart>)

  /** The answer of `lookupTransactionByID`: the transaction, or an error
      (network failure, unknown id, malformed answer). */
  datatype Lookup = Found(transaction: Transaction) | LookupFailed

  /** The receiver of a payment, or None when the transaction has no
      payment part or the payment names no receiver. */
  function Receiver(tx: Transaction): Option<string>
  {
    if tx.payment.Some? then tx.payment.value.receiver else None
  }

  /** The amount of a payment, or None when the transaction has no payment
      part or the payment gives no amount. */
  function Amount(tx: Transaction): Option<int>
  {
    if tx.payment.Some? then tx.payment.value.amount else None
  }

  /** The verdict: a failed lookup is `false`, a found transaction is
      checked field by field with strict equality. The one shape of
      transaction that passes is a payment of exactly 500000 microAlgos from
      the wallet to the platform address. */
  function VerifyFeeTx(walletAddress: string, lookup: Lookup): (verified: bool)
    ensures verified <==>
      lookup == Found(Transaction(walletAddress, Some(PaymentPart(Some(ExpectedRecipient), Some(ExpectedAmount)))))
  {
    match lookup
    case LookupFailed => false
    case Found(tx) =>
      tx.sender == walletAddress && Receiver(tx) == Some(ExpectedRecipient) && Amount(tx) == Some(ExpectedAmount)
  }

  /** A transaction from another sender is refused, whatever it pays. */
  lemma WrongSenderRejected(walletAddress: string, tx: Transaction)
    requires tx.sender != walletAddress
    ensures !VerifyFeeTx(walletAddress, Found(tx))
  {
  }

  /** A payment to any other address is refused. */
  lemma WrongRecipientRejected(walletAddress: string, tx: Transaction)
    requires Receiver(tx) != Some(ExpectedRecipient)
    ensures !VerifyFeeTx(walletAddress, Found(tx))
  {
  }

  /** A payment of any other amount is refused. */
  lemma WrongAmountRejected(walletAddress: string, tx: Transaction)
    requires Amount(tx) != Some(ExpectedAmount)
    ensures !VerifyFeeTx(walletAddress, Found(tx))
  {
  }

  /** A transaction with no payment part (receiver and amount undefined) is
      refused. */
  lemma NonPaymentRejected(walletAddress: string, tx: Transaction)
    requires tx.payment.None?
    ensures !VerifyFeeTx(walletAddress, Found(tx))
  {
  }

  /** A failed lookup is reported as `false`, not as an error. */
  lemma LookupFailureRejected(walletAddress: string)
    ensures !VerifyFeeTx(walletAddress, LookupFailed)
  {
  }
}
