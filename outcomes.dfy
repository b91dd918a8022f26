/** Absent-or-present values and success-or-error outcomes, as the stores return them. */
module Outcomes {

  /** A possibly missing value: the `null` a TypeORM lookup gives when no row qualifies,
      or a column left out of a partial entity. */
  datatype Option<+T> = None | Some(value: T) {

    /** The wrapped value, or `default` when there is none. */
    function GetOr(default: T): T {
      match this
      case Some(v) => v
      case None => default
    }
  }

  /** The outcome of an operation that may raise an error instead of returning. */
  datatype Result<+R, +E> = Success(value: R) | Failure(error: E)
}
