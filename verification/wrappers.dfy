/** Failure-compatible wrappers used throughout the model: a cell that may be
    missing, and the outcome of a step that may raise. */
module Wrappers {

  /** A value that may be absent; `None` stands for pandas' missing markers
      (`NaN`, `pd.NA`, `None`). */
  datatype Option<+T> = None | Some(value: T) {

    /** The wrapped value, or `default` when absent (pandas' `fillna`). */
    function GetOr(default: T): T {
      match this
      case Some(v) => v
      case None => default
    }
  }

  /** The outcome of a step that either returns a value or raises. */
  datatype Result<+T, +E> = Success(value: T) | Failure(error: E)
}
