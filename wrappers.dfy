/** Option and Result values for the absent pointers and error returns of the Go code. */
module Wrappers {

  datatype Option<+T> = None | Some(value: T)

  datatype Result<+T, +E> = Ok(value: T) | Err(error: E)

  /** A Go `error` value; only its message is carried. */
  datatype Error = Error(message: string)
}
