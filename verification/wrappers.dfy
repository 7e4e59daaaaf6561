/** A value that may be absent, used wherever the extension may have nothing to return. */
module Wrappers {

  /** A value that may be absent: a missing file, a key that was not found, a
      call that would throw. */
  datatype Option<+T> = None | Some(value: T) {

    /** The wrapped value, or `default` when there is none. */
    function GetOr(default: T): T {
      match this
      case Some(v) => v
      case None => default
    }
  }
}
