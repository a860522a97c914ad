/** The two wrappers used throughout the model: `Option` stands for
    Python's `None`-or-value, `Result` for a call that may raise. */
module Wrappers {

  datatype Option<+T> = None | Some(value: T)

  datatype Result<+T, +E> = Success(value: T) | Failure(error: E)
}
