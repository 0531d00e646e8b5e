/** Failure-compatible wrappers used throughout the model: an optional value
    (Java's nullable reference) and a result that is either a value or the
    exception the Java code would throw. */
module Wrappers {

  /** A value that may be absent; `None` stands for Java's `null`. */
  datatype Option<+T> = None | Some(value: T)

  /** Either a value or the failure that aborted the computation. */
  datatype Result<+T, +E> = Ok(value: T) | Err(error: E)
}
