/** Failure-carrying datatypes shared by the modules of this project. */
module Wrappers {

  /** A value that may be absent: Python's `None`, or pandas' missing value. */
  datatype Option<+T> = None | Some(value: T)

  /** The outcome of an operation that raises an exception on some inputs. */
  datatype Result<+R, +E> = Success(value: R) | Failure(error: E)
}
