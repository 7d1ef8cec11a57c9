/** Optional values and success/failure results, used wherever the source returns
    `null`, `undefined` or an error response instead of a value. */
module Maybe {

  /** A value that may be absent (`null` / `undefined` in the source). */
  datatype Option<+T> = None | Some(value: T) {

    /** The carried value, or `default` when there is none. */
    function GetOr(default: T): T {
      match this
      case Some(v) => v
      case None => default
    }
  }

  /** The outcome of an operation that can fail with a structured error. */
  datatype Result<+T, +E> = Ok(value: T) | Err(error: E)
}
