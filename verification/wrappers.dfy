/** Failure-carrying result types shared by the query engine model. */
module Wrappers {

  /** A value that may be missing: a map lookup that found nothing, a cast that did not apply. */
  datatype Option<+T> = None | Some(value: T) {

    /** The carried value, or `default` when there is none. */
    function GetOr(default: T): T {
      match this
      case Some(v) => v
      case None => default
    }
  }

  /** Either a computed value or the error that stopped the computation. */
  datatype Result<+R, +E> = Success(value: R) | Failure(error: E)
}
