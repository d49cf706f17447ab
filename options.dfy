/** An optional value: the outcome of a parse that may fail. */
module Options {
  datatype Option<+T> = None | Some(value: T) {
    /** The wrapped value, or `default` when there is none. */
    function GetOr(default: T): T {
      match this
      case Some(v) => v
      case None => default
    }
  }
}
