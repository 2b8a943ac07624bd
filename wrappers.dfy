/** Failure-carrying datatypes shared by the modules of this project. */
module Wrappers {

  /** A value that may be absent; `None` also stands for a JavaScript `undefined`. */
  datatype Option<+T> = None | Some(value: T)

  /** The outcome of an operation that either yields a value or throws an error. */
  datatype Result<+T, +E> = Success(value: T) | Failure(error: E)
}
