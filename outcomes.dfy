/** Option and Result values shared by every module of the model. */
module Outcomes {

  /** A value that may be absent, for the source's null pointers and not-found results. */
  datatype Option<+T> = None | Some(value: T)

  /** The outcome of an operation that can throw: its value, or the error it raises. */
  datatype Result<+T, +E> = Success(value: T) | Failure(error: E)
}
