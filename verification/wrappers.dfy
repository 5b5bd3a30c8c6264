/** Failure-compatible wrappers shared by every layer of the ledger model. */
module Wrappers {

  /** An optional value; stands for the source's `undefined` / `null`. */
  datatype Option<+T> = None | Some(value: T) {

    /** Returns the value, or `default` when there is none (JavaScript's `??`). */
    function GetOr(default: T): T {
      match this
      case Some(v) => v
      case None => default
    }
  }

  /** The outcome of a call that may throw: `Ok` carries the return value, `Err` the thrown error. */
  datatype Result<+T, +E> = Ok(value: T) | Err(error: E) {

    predicate IsFailure() {
      Err?
    }

    function PropagateFailure<U>(): Result<U, E>
      requires Err?
    {
      Err(error)
    }

    function Extract(): T
      requires Ok?
    {
      value
    }
  }
}
