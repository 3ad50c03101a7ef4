/** The Some/None datatype used for pandas' missing values (NaN / NaT) and
    for lookups that may find nothing. */
module Wrappers {

  datatype Option<+T> = None | Some(value: T) {

    /** Returns the value held in Some, or `default` when None. */
    function GetOr(default: T): T {
      match this
      case Some(v) => v
      case None => default
    }
  }
}
