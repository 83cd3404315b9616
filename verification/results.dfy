/**
  Small value types shared by the rest of the model: an optional value, a
  success-or-error result, and the byte type used for decoded payloads.
 */
module Results {

  /** A value that may be absent (JavaScript `undefined`). */
  datatype Option<+T> = None | Some(value: T)

  /** The outcome of an operation that throws on failure in the source. */
  datatype Result<+T, +E> = Ok(value: T) | Err(error: E) {

    predicate IsFailure() {
      Err?
    }

    function PropagateFailure<U>(): Result<U, E>
      requires Err?
    {
      Err(error)
    }

    function Extract(): T
      requires Ok?
    {
      value
    }
  }

  /** An octet, as held in a `Uint8Array`. */
  type byte = x: int | 0 <= x < 256
}
