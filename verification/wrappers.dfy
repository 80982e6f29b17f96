/** Option and Result, the shapes Java's nullable references and thrown exceptions take in this model. */
module Wrappers {

  /** A Java reference that may be null: `None` is null. */
  datatype Option<+T> = None | Some(value: T)

  /** The outcome of an operation that either returns a value or throws a failure. */
  datatype Result<+R, +E> = Success(value: R) | Failure(error: E)
}
