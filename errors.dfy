/** The three kinds of exception the directory and its user records throw, and the
    failure-carrying wrappers the model returns instead of throwing. */
module Errors {

  /** IllegalArgumentException, IllegalStateException and UnsupportedOperationException. */
  datatype Error = IllegalArgument | IllegalState | Unsupported

  /** A value that may be absent; stands for a nullable Java reference. */
  datatype Option<+T> = None | Some(value: T)

  /** The result of an operation that returns a value or throws. */
  datatype Result<+T> = Ok(value: T) | Err(error: Error)

  /** The result of an operation that returns nothing or throws. */
  datatype Outcome = Pass | Fail(error: Error)
}
