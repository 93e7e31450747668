/** Return values standing in for C# nulls and exceptions. */
module Wrappers {

  /** A value that may be absent: a C# `null` return or a nullable field. */
  datatype Option<+T> = None | Some(value: T)

  /** Either a value or the exception the source would throw instead. */
  datatype Result<+T, +E> = Ok(value: T) | Err(error: E)
}
