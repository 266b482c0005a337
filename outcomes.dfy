/** Option and Result, the values the transport returns instead of throwing. */
module Outcomes {

  datatype Option<+T> = None | Some(value: T)

  /** A computation that produced a value, or the exception it raised. */
  datatype Result<+T, +E> = Ok(value: T) | Err(error: E)
}
