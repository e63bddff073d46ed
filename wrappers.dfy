/** Failure-carrying results: the Python and JavaScript sources signal errors by
    raising exceptions, which the model returns as values instead. */
module Wrappers {

  datatype Option<+T> = None | Some(value: T)

  datatype Result<+T, +E> = Success(value: T) | Failure(error: E)
}
