/** The optional value used wherever the application has `undefined`, `null` or a
    thrown exception in place of a value. */
module Wrappers {

  datatype Option<+T> = None | Some(value: T) {

    /** The value, or the given default when there is none. */
    function GetOr(default: T): T {
      match this
      case Some(v) => v
      case None => default
    }
  }
}
