/** The optional value of this model: Python's "a value or `None`". */
module Wrappers {

  datatype Option<+T> = None | Some(value: T) {

    /** The held value, with `fallback` standing in for `None`. */
    function GetOr(fallback: T): T {
      match this
      case Some(v) => v
      case None => fallback
    }
  }
}
