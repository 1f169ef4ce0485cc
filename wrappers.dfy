/** Failure-carrying results shared by the two cryptosystems. */
module Wrappers {

  datatype Option<+T> = None | Some(value: T)

  datatype Result<+T> = Success(value: T) | Failure(error: Error)

  /** Why an operation gives up.  The source raises an AssertionError for the
      first two; the last stands for a finite supply of random draws running
      out, where the source would keep drawing. */
  datatype Error =
    | MessageNotBelowModulus
    | ConstantNotBelowModulus
    | DrawsExhausted
}
