/** Option and Result values, and the unchecked exceptions that can reach a caller of
    the customer service, written out as data instead of thrown. */
module Outcomes {

  /** A Java reference that may be null (None), or an Optional that may be empty. */
  datatype Option<+T> = None | Some(value: T)

  /** The normal return of an operation (Ok) or the exception it throws (Err). */
  datatype Result<+R, +E> = Ok(value: R) | Err(error: E)

  /** The exceptions the model distinguishes. */
  datatype Failure =
    /** IllegalArgumentException, raised by the service on a duplicate email. */
    | IllegalArgument(message: string)
    /** IncorrectResultSizeDataAccessException, raised by the store when a query
        declared to return at most one record matches `actual` records. */
    | IncorrectResultSize(actual: nat)
}
