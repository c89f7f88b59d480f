/** Failure-compatible wrappers: Option stands in for Java's nullable references,
    Result for an operation that either returns a value or throws before changing anything. */
module Wrappers {

  datatype Option<+T> = None | Some(value: T)

  datatype Result<+R, +E> = Success(value: R) | Failure(error: E)
}
