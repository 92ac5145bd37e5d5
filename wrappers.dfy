/** Optional values and results with an error, as the rest of the model returns them. */
module Wrappers {

  /** A value that may be absent: JavaScript's `null` or `undefined`, Python's `None`. */
  datatype Option<+T> = None | Some(value: T)

  /** The outcome of a call that may raise an exception. */
  datatype Result<+R, +E> = Success(value: R) | Failure(error: E)
}
