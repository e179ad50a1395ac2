/**
 * The outcome of a transaction: the change handed back, or one of the three
 * business errors a transaction can fail with.
 */
module TransactionOutcome {
  import opened Money

  /** The three failure kinds of a transaction, each distinguishable by the caller. */
  datatype TransactionError = InvalidPrice | InsufficientPayment | NotEnoughChange

  /** Either the change returned to the shopper or the error the transaction failed with. */
  datatype Outcome = Success(change: Change) | Failure(error: TransactionError)
}
