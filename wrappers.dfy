/** Nullable values and error outcomes shared by the other modules. */
module Wrappers {

  /** A value that may be absent; None plays the role of C#'s null. */
  datatype Option<+T> = None | Some(value: T)

  /** The result of an operation that either yields a value or fails. */
  datatype Result<+R, +E> = Success(value: R) | Failure(error: E)

  /** The result of an operation that yields nothing, or fails. */
  datatype Outcome<+E> = Pass | Fail(error: E)
}
