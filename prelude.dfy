/** Small shared vocabulary: optional values and fallible results. */
module Prelude {

  /** Python's `None` or a value. */
  datatype Option<+T> = None | Some(value: T)

  /** The outcome of something that may raise: a value, or a failure the caller catches. */
  datatype Result<+T> = Ok(value: T) | Failure

  function Min(a: int, b: int): int { if a <= b then a else b }

  function Max(a: int, b: int): int { if a >= b then a else b }
}
