/** Nullable values and results with an error path. */
module Wrappers {

  /** A nullable column value: `None` is SQL NULL / pandas NaN. */
  datatype Option<+T> = None | Some(value: T)

  /** The outcome of a request: a value, or the reason processing halted. */
  datatype Result<+T, +E> = Success(value: T) | Failure(error: E)
}
