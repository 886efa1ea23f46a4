/** Option and Result: a value that may be missing, and an operation that may fail. */
module Wrappers {

  /** A value that may be absent: the model of a C# reference that may be null. */
  datatype Option<+T> = None | Some(value: T)

  /** The outcome of an operation that can fail instead of returning a value. */
  datatype Result<+T, +E> = Ok(value: T) | Err(error: E)
}
