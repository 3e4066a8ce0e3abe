/** The absent-or-present value used wherever the source reads something that
    may be `undefined` (an unset variable, a missing stored key, a failed load)
    or a number that may be NaN. */
module Wrappers {

  datatype Option<T> = None | Some(value: T) {

    /** JavaScript's `x ?? d`: the value when present, the fallback otherwise. */
    function GetOr(default: T): T {
      match this
      case Some(v) => v
      case None => default
    }
  }
}
