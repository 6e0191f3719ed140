/** Option and Result: the "missing" and "raised an exception" outcomes of the Python code. */
module Wrappers {

  datatype Option<+T> = None | Some(value: T)

  /** A Python call that either returns a value or raises; `Failure` names the exception. */
  datatype Result<+T> = Success(value: T) | Failure(exception: string)
}
