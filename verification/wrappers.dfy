/** Option and Result, the two failure-carrying wrappers the rest of the model uses. */
module Wrappers {

  datatype Option<+T> = None | Some(value: T)

  /** The outcome of an operation that the Java code either completes or aborts with an exception. */
  datatype Result<+T, +E> = Ok(value: T) | Err(error: E)
}
