/** Shared failure-carrying wrappers and the byte type used by the encoders. */
module Prelude {

  /** An optional value; `undefined`/`null` results of JavaScript lookups map to `None`. */
  datatype Option<+T> = None | Some(value: T) {
    predicate IsFailure() { None? }

    function PropagateFailure<U>(): Option<U>
      requires None?
    {
      None
    }

    function Extract(): T
      requires Some?
    {
      value
    }
  }

  /** The outcome of a step that may throw: `Err` carries what would be thrown. */
  datatype Result<+T, +E> = Ok(value: T) | Err(error: E) {
    predicate IsFailure() { Err? }

    function PropagateFailure<U>(): Result<U, E>
      requires Err?
    {
      Err(error)
    }

    function Extract(): T
      requires Ok?
    {
      value
    }
  }

  /** One octet of a Node.js `Buffer`. */
  type byte = x: int | 0 <= x < 256
}
