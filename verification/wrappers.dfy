/** A JavaScript value that may be missing (`null` or `undefined`). */
module Wrappers {

  datatype Option<+T> = None | Some(value: T) {

    /** The value, or `default` when it is missing: JavaScript's `x || default`
        for a value that is an object whenever it is present. */
    function GetOr(default: T): T {
      match this
      case Some(v) => v
      case None => default
    }
  }
}
