/** Failure-compatible result types shared by every module of the model.
    `Result` stands for Rust's `Result<T, E>` (and `anyhow::Result<T>`), `Option`
    for `Option<T>`. Both can be used with `:-`. */
module Wrappers {

  datatype Option<+T> = None | Some(value: T) {
    predicate IsFailure() {
      None?
    }

    function PropagateFailure<U>(): Option<U>
      requires None?
    {
      None
    }

    function Extract(): T
      requires Some?
    {
      value
    }
  }

  datatype Result<+T, +E> = Ok(value: T) | Err(error: E) {
    predicate IsFailure() {
      Err?
    }

    function PropagateFailure<U>(): Result<U, E>
      requires Err?
    {
      Err(error)
    }

    function Extract(): T
      requires Ok?
    {
      value
    }
  }
}

/** Raw bytes, as Rust's `u8`. */
module Bytes {

  type byte = x: int | 0 <= x < 256

  /** A byte buffer of a fixed length of 32, the size of every key in the signing core. */
  type Bytes32 = s: seq<byte> | |s| == 32 witness seq(32, _ => 0)
}
