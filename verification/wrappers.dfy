/** Optional values and results, used for the nullable pointers, absent
    arguments and raised errors of the modelled code. */
module Wrappers {

  /** `None` plays the part of a null pointer or an absent argument. */
  datatype Option<+T> = None | Some(value: T) {

    /** Returns the value, or `default` when there is none. */
    function GetOr(default: T): T {
      match this
      case Some(v) => v
      case None => default
    }
  }

  /** The outcome of an operation that can raise one of the modelled errors. */
  datatype Result<+T, +E> = Ok(value: T) | Err(error: E)
}
