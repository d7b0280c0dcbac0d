/** Ruby's `nil` as an optional value, and a raised exception as a failed result. */
module Wrappers {

  datatype Option<+T> = None | Some(value: T)

  /** The end of a Ruby call: a value, or the exception it raises. */
  datatype Result<+T> = Success(value: T) | Failure(error: string)
}
