/** Optional and fallible results used throughout the model. */
module Wrappers {

  /** A value that may be absent; stands for a C# `null` return. */
  datatype Option<+T> = None | Some(value: T)

  /** A computation that either produced a value or stopped with an error,
      the error standing for an exception the C# code would raise. */
  datatype Result<+T, +E> = Success(value: T) | Failure(error: E)
}
