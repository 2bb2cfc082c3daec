/** Option and Result: the model's stand-ins for C# null references and thrown exceptions. */
module Wrappers {

  /** A value that may be absent (a C# reference that may be null). */
  datatype Option<+T> = None | Some(value: T)

  /** Either a value, or the exception the C# code throws instead of returning one. */
  datatype Result<+R, +E> = Success(value: R) | Failure(error: E)
}
