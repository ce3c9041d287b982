/** Shared value wrappers: Go's nil pointers, zero times and `, err` results. */
module Wrappers {
  datatype Option<+T> = None | Some(value: T)

  datatype Result<+T, +E> = Ok(value: T) | Err(error: E)
}
