/** Result types shared by every component of the model. */
module Wrappers {

  /** A value that may be absent: JavaScript's `undefined`/`null`. */
  datatype Option<+T> = None | Some(value: T)

  /** The outcome of an operation that either produces a value or throws. */
  datatype Result<+R, +E> = Success(value: R) | Failure(error: E)
}
