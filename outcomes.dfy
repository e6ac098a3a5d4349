/** Option and Result, the two outcome shapes the model uses for Go's
    `(value, error)` returns and for runtime panics. */
module Outcomes {

  /** `None` stands for a Go runtime panic wherever a function can panic. */
  datatype Option<+T> = None | Some(value: T)

  /** A Go `(T, error)` pair: exactly one of the two is meaningful. */
  datatype Result<+T, +E> = Ok(value: T) | Err(error: E)
}
