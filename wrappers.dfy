/** Failure-carrying wrappers: the model's stand-in for PHP's `false`/`null`
    returns and for the exceptions the stream operations throw. */
module Wrappers {

  datatype Option<+T> = None | Some(value: T)

  /** A value, or the error that ended the operation. */
  datatype Result<+R, +E> = Success(value: R) | Failure(error: E)

  /** The outcome of an operation that returns nothing on success. */
  datatype Outcome<+E> = Pass | Fail(error: E)
}
