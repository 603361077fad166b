/** Option and Result datatypes shared by the modules of the model. */
module Wrappers {

  datatype Option<+T> = None | Some(value: T) {
    function GetOr(default: T): T {
      match this
      case Some(v) => v
      case None => default
    }
  }

  /** The outcome of an operation that either succeeds or throws. */
  datatype Result<+T, +E> = Ok(value: T) | Err(error: E)
}
