/** Failure-carrying result types used in place of the exceptions the server raises. */
module Wrappers {

  /** An optional value: the accumulated section before the first sighting is folded in. */
  datatype Option<+T> = None | Some(value: T)

  /** Either a value or the error the Python code would have raised. */
  datatype Result<+T, +E> = Success(value: T) | Failure(error: E)
}
