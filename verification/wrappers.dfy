/** Option and Result types, and the language's plain exception, shared by the modules. */
module Wrappers {

  /** A value that may be absent; stands in for PHP's nullable returns. */
  datatype Option<+T> = None | Some(value: T)

  /** The outcome of an operation that can throw: the value, or the exception it raised. */
  datatype Result<+R, +E> = Success(value: R) | Failure(error: E)

  /** A plain `\Exception`, known by its message. */
  datatype Exception = Exception(message: string)
}
