/** Option and Result, the two failure-carrying types the dashboard model uses. */
module Wrappers {

  /** A value that may be missing: pandas' NaN / NaT / None. */
  datatype Option<+T> = None | Some(value: T) {
    /** The value, or `default` when it is missing (pandas' `fillna`). */
    function GetOr(default: T): T {
      match this
      case Some(v) => v
      case None => default
    }
  }

  /** The outcome of a step that may stop early with a notice for the user. */
  datatype Result<+R, +E> = Success(value: R) | Failure(error: E)
}
