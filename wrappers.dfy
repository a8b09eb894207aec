/** The optional value used wherever the source has `undefined`, `null` or a
    missing property. */
module Wrappers {

  datatype Option<+T> = None | Some(value: T) {

    /** `o ?? d` in the source: the value if present, otherwise `d`. */
    function GetOr(default: T): T {
      match this
      case Some(v) => v
      case None => default
    }
  }
}
