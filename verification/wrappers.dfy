/** Option and Result datatypes used wherever the source has `null`, `undefined`,
    a failed match or an error return. */
module Wrappers {

  /** `None` stands for JavaScript's `null`/`undefined` or a regex that did not match. */
  datatype Option<+T> = None | Some(value: T) {

    /** The first of two alternatives that is present (regex alternation, `a ?? b`). */
    function Or(other: Option<T>): Option<T> {
      if Some? then this else other
    }

    function GetOr(default: T): T {
      if Some? then value else default
    }
  }

  /** The outcome of a validating operation: a value, or the error message the source shows. */
  datatype Result<+R, +E> = Ok(value: R) | Err(error: E)
}
