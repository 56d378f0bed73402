/** Value types shared by every module of the model. */
module Common {

  /** One octet, as Python's `bytes` holds them. */
  type byte = b: int | 0 <= b < 256

  /** Python's `None` or a value. */
  datatype Option<+T> = None | Some(value: T)

  /** A Python call that either returns a value or raises an exception of kind `E`. */
  datatype Result<+T, +E> = Ok(value: T) | Err(error: E)

  function Min(a: int, b: int): int { if a <= b then a else b }

  function Max(a: int, b: int): int { if a >= b then a else b }
}
