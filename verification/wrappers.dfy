/** Two plain datatypes shared by the model: an optional value, and a result
    that is either a value or the error the source would raise. */
module Wrappers {

  /** A value that may be absent; stands for a Python attribute that may hold None. */
  datatype Option<+T> = None | Some(value: T)

  /** Either a value or the runtime error the source raises instead. */
  datatype Result<+R, +E> = Success(value: R) | Failure(error: E)
}
