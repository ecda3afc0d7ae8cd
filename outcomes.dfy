/** Optional values and the error results every ledger operation can return. */
module Outcomes {

  /** A value that may be absent, like an optional request field. */
  datatype Option<+T> = None | Some(value: T)

  /** The rejections the controllers answer with (HTTP 400 or 404). */
  datatype Error =
    | InvalidInput        // 400: a required field is missing or the amount is not positive
    | NotFound            // 404: no record matches the id, owner and status filters
    | InsufficientFunds   // 400: the balance is below the amount
    | ExceedsOutstanding  // 400: a repayment above the loan's outstanding balance

  /** The outcome of an operation: a success payload or an error kind. */
  datatype Result<+T> = Ok(value: T) | Err(error: Error)
}
