/** The few pieces of Rust's semantics the model needs: fixed-width unsigned
    integers and the panics that checked arithmetic and slice indexing
    raise. */
module Rust {

  const U32_LIMIT: int := 0x1_0000_0000

  /** Rust's `u32`. */
  type u32 = x: int | 0 <= x < U32_LIMIT

  /** Why a Rust program stopped with a panic. */
  datatype Panic =
    | ArithmeticOverflow
    | IndexOutOfBounds(index: int, length: nat)

  /** The result of a computation that may panic. */
  datatype Outcome<T> = Ok(value: T) | Panicked(reason: Panic)

  /** The kinds of `io::Error` the model raises. */
  datatype IoErrorKind = InvalidInput

  /** Rust's `io::Result`: a value, or an I/O error with its kind and
      message. */
  datatype IoResult<T> = Success(result: T) | Failure(kind: IoErrorKind, message: string)
}
