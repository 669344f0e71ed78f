/** Result-like datatypes shared by the whole model. */
module Wrappers {

  datatype Option<+T> = None | Some(value: T)

  /** The value a Rust function returns: `Ok(value)` or `Err(error)`. */
  datatype Result<+T, +E> = Ok(value: T) | Err(error: E)

  /** What a Rust function that can panic does: it either returns (`Done`)
      or aborts (`Panic`), e.g. on a slice index past the end or a `usize`
      subtraction that underflows. */
  datatype Panicking<+T, +E> = Done(result: Result<T, E>) | Panic
}
