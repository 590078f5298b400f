/** Optional values and results with an error, as the Python code's `None` and its exceptions. */
module Base {

  datatype Option<+T> = None | Some(value: T) {

    /** The value, or `dflt` for None. */
    function GetOr(dflt: T): T {
      match this
      case Some(v) => v
      case None => dflt
    }
  }

  datatype Result<+T, +E> = Ok(value: T) | Err(error: E)
}
