/** Failure-compatible wrapper types shared by the whole model. */
module Wrappers {

  /** A value that may be absent: a missing document field, a `null`
      column, or a parser that could not make sense of its input. */
  datatype Option<+T> = None | Some(value: T) {

    /** The wrapped value, or `default` when absent (JavaScript's `x || d`
        for values whose only falsy form is "missing"). */
    function GetOr(default: T): T {
      match this
      case Some(v) => v
      case None => default
    }
  }
}
