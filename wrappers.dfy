/** The null-or-value shape of DOM reads: `getAttribute`, `dataset` entries and
    `localStorage.getItem` yield either a string or nothing. */
module Wrappers {

  datatype Option<+T> = None | Some(value: T) {

    /** The value, or `default` when there is none. */
    function GetOr(default: T): T {
      match this
      case Some(v) => v
      case None => default
    }
  }
}
