/** The optional value used wherever the extension returns `undefined` or `null`. */
module Options {
  datatype Option<+T> = None | Some(value: T) {
    /** `x ?? d`: the value if present, otherwise the default. */
    function GetOr(default: T): T {
      match this
      case Some(v) => v
      case None => default
    }
  }
}
