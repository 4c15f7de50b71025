/** Option and Result: Java's null / Optional and its thrown exceptions, as values. */
module Wrappers {

  /** A value that may be absent (a Java reference that may be null, or an Optional). */
  datatype Option<+T> = None | Some(value: T)

  /** Either a value or the error an operation would have thrown. */
  datatype Result<+R, +E> = Success(value: R) | Failure(error: E)
}
