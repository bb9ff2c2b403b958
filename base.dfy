/** Small building blocks shared by every module: optional values, results
    that carry an error, and bytes. */
module Base {

  /** A value that may be absent (Rust's `Option`). */
  datatype Option<+T> = None | Some(value: T)

  /** The outcome of a fallible step (Rust's `Result`). It is failure-compatible,
      so `:-` propagates the first error as Rust's `?` operator does. */
  datatype Result<+T, +E> = Ok(value: T) | Err(error: E) {
    predicate IsFailure() {
      Err?
    }

    function PropagateFailure<U>(): Result<U, E>
      requires Err?
    {
      Err(error)
    }

    function Extract(): T
      requires Ok?
    {
      value
    }
  }

  /** An unsigned 8-bit value (Rust's `u8`). */
  type byte = x: int | 0 <= x < 0x100
}
