/** An optional value, and a value or the error that prevented it. */
module Wrappers {

  /** A value that may be absent; stands in for a nullable reference. */
  datatype Option<+T> = None | Some(value: T)

  /** Either a value or the error that prevented producing one. */
  datatype Result<+T, +E> = Success(value: T) | Failure(error: E)
}
