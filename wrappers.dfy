/** Outcomes of operations that can fail: Python raises, the model returns None or Failure. */
module Wrappers {

  datatype Option<T> = None | Some(value: T)

  datatype Result<T, E> = Success(value: T) | Failure(error: E)
}
