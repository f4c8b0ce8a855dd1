/** Optional values and fallible results, used for the JavaScript `null` /
    `undefined` values and the thrown errors of the modelled code. */
module Wrappers {

  /** `None` stands for JavaScript `null` or `undefined` (or SQL NULL). */
  datatype Option<+T> = None | Some(value: T)

  /** An operation either returns a value or throws an error. */
  datatype Result<+T, +E> = Ok(value: T) | Err(error: E) {

    predicate IsFailure() {
      Err?
    }

    function PropagateFailure<U>(): Result<U, E>
      requires Err?
    {
      Err(error)
    }

    function Extract(): T
      requires Ok?
    {
      value
    }
  }
}
