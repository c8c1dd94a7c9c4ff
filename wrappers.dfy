/** An optional value: `None` stands for a JavaScript attribute that is
    `undefined` (or `null`), `Some(v)` for one that holds `v`. */
module Wrappers {

  datatype Option<+T> = None | Some(value: T) {

    /** The value held, or `default` when there is none. */
    function GetOr(default: T): T {
      match this
      case Some(v) => v
      case None => default
    }
  }
}
