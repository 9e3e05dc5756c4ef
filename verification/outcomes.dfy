/** Absent values, results and the error conditions the storage layer and the
    catalogue contract raise. Every error aborts the current invocation, so an
    `Err` carries no store: partial writes of an aborted call are not kept. */
module Outcomes {

  /** A storage read or a previous-value report: an entry, or nothing. */
  datatype Option<+T> = None | Some(value: T) {

    predicate IsFailure() {
      None?
    }

    function PropagateFailure<U>(): Option<U>
      requires None?
    {
      None
    }

    function Extract(): T
      requires Some?
    {
      value
    }
  }

  datatype Error =
    /** `ERR_INDEX_OUT_OF_BOUNDS`: swapRemove/replace at an index >= length. */
    | IndexOutOfBounds
    /** `ERR_INCONSISTENT_STATE`: a persisted invariant was found violated. */
    | InconsistentState
    /** `JSON.parse` or a `Uint32Array` rejected the bytes of a stored entry. */
    | Malformed
    /** A method called on a plain parsed object that does not have it. */
    | TypeError
    /** near-sdk-js `assert(b, str)`: throws "assertion failed: " + str. */
    | AssertionFailed(message: string)
    /** Rust `assert!(b, msg)` or an `unwrap` of `None`. */
    | Panic(message: string)

  datatype Result<+T> = Ok(value: T) | Err(error: Error) {

    predicate IsFailure() {
      Err?
    }

    function PropagateFailure<U>(): Result<U>
      requires Err?
    {
      Err(error)
    }

    function Extract(): T
      requires Ok?
    {
      value
    }
  }
}
