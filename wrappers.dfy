/** Present/absent values and success/failure results shared by the model. */
module Wrappers {

  /** An explicit present/absent slot; `None` plays the part of Java's `null`. */
  datatype Option<+T> = None | Some(value: T)

  /** The outcome of an operation that may raise an exception. */
  datatype Result<+R, +E> = Success(value: R) | Failure(error: E)
}
