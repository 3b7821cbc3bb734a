/** Optional values and pass/fail outcomes, standing in for JavaScript's
    `undefined`/`null` and for a rejected promise. */
module Wrappers {

  datatype Option<+T> = None | Some(value: T)

  /** The completion of an asynchronous operation with no result: it resolves
      (`Pass`) or it rejects with an error (`Fail`). */
  datatype Outcome<+E> = Pass | Fail(error: E)
}
