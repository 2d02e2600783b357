/** Optional values and error results shared by every module of the model. */
module Wrappers {

  /** A value that may be missing: an indicator during its warm-up, a `None` frame. */
  datatype Option<+T> = None | Some(value: T)

  /** The outcome of an operation whose source raises on some inputs. */
  datatype Result<+R, +E> = Success(value: R) | Failure(error: E)
}
