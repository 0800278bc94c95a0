/** Failure-carrying values shared by the models. */
module Wrappers {
  datatype Option<+T> = None | Some(value: T)

  /** A Go `(value, error)` pair: the value counts only when the error is nil. */
  datatype Result<+T, +E> = Ok(value: T) | Err(error: E)

  /** What a beacon or execution read gives back: the value, the 404 that
      reports a missed slot, or any other failure. */
  datatype Read<+T> = Found(value: T) | NotFound | Failed
}
