/** Python's `X | None`: a value that may be absent. */
module Optional {

  datatype Option<+T> = None | Some(value: T) {

    /** The value, or `default` when absent (Python's `x or default` for a `str | None` that is not "") */
    function GetOr(default: T): T {
      match this
      case Some(v) => v
      case None => default
    }
  }
}
