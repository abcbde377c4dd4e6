/** Option and Result datatypes used throughout the model: `Option` stands for
    Python's `None`-or-value, `Result` for a value or the exception that
    aborts the scan. */
module Wrappers {

  datatype Option<+T> = None | Some(value: T)

  datatype Result<+R, +E> = Success(value: R) | Failure(error: E)
}
