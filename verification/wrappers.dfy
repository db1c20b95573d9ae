/** Failure-carrying datatypes shared by every module of the exporter model.
    PHP exceptions become `Failure` values; the helpers' error log becomes the
    `log` of a `Logged` value. */
module Wrappers {

  /** A value that may be absent (PHP `null` / `false` returns). */
  datatype Option<+T> = None | Some(value: T) {

    /** Returns the value, or `default` when absent. */
    function GetOr(default: T): T {
      match this
      case Some(v) => v
      case None => default
    }
  }

  /** The outcome of a computation that may throw: a value or the thrown error. */
  datatype Result<+R, +E> = Success(value: R) | Failure(error: E)

  /** A returned value together with the log lines written while computing it. */
  datatype Logged<+T> = Logged(value: T, log: seq<string>)
}
