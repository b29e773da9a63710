/** Optional values and error-carrying results, standing in for Python's
    `None` and for raised exceptions. */
module Wrappers {

  /** A value that may be missing (a JSON key that is absent or `null`). */
  datatype Option<T> = None | Some(value: T) {

    /** The carried value, or `default` when there is none (`dict.get(key, default)`). */
    function GetOr(default: T): T {
      if Some? then value else default
    }
  }

  /** The outcome of an operation that raises on bad input. */
  datatype Result<T, E> = Ok(value: T) | Err(error: E)
}
