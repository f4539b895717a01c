/** Failure-compatible carriers shared by the two modules of this model. */
module Wrappers {

  datatype Option<T> = None | Some(value: T)

  /** A Go `(value, error)` pair: exactly one of the two is meaningful. */
  datatype Result<T, E> = Success(value: T) | Failure(error: E)
}
