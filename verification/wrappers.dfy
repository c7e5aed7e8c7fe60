/** Option and Result datatypes shared by the catalog model. */
module Wrappers {

  /** A value that may be absent: Python's `Optional[T]` / `None`. */
  datatype Option<+T> = None | Some(value: T)

  /** The outcome of a step that can be rejected with an error value. */
  datatype Result<+R, +E> = Success(value: R) | Failure(error: E)
}
