/** A C pointer that may be NULL: `None` stands for NULL. */
module Nullable {

  datatype Option<+T> = None | Some(value: T) {

    /** The pointed-to value, or `default` when NULL. */
    function GetOr(default: T): T {
      match this
      case Some(v) => v
      case None => default
    }
  }
}
