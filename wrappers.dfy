/** The Option and Result datatypes used by the repositories and the order service. */
module Wrappers {

  /** A value that may be absent, such as the result of a lookup by id. */
  datatype Option<+T> = None | Some(value: T)

  /** Either the value an operation produced or the error it raised. */
  datatype Result<+T, +E> = Success(value: T) | Failure(error: E)
}
