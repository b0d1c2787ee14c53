/** Optional values and error results shared by the whole model. */
module Base {

  /** A value that may be absent: Python's `None`, pandas' `NaN`/`NaT`. */
  datatype Option<T> = None | Some(value: T)

  /** The outcome of a step that raises on malformed input. */
  datatype Result<T> = Ok(value: T) | Err(reason: string)

  function Min(a: int, b: int): int { if a <= b then a else b }

  function Max(a: int, b: int): int { if a >= b then a else b }
}
