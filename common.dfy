/** Shared vocabulary of the model: Go byte strings, optional values, errors and results. */
module Common {

  /** A Go `byte`. */
  newtype byte = b: int | 0 <= b < 256

  /** A Go `string` or `[]byte`: a sequence of bytes, with no encoding imposed. */
  type Bytes = seq<byte>

  /** A point on the clock `time.Now()` reads, in nanoseconds. */
  type Time = int

  /** A Go pointer that may be nil. */
  datatype Option<+T> = None | Some(value: T)

  /** A Go `error` value; callers only ever see its text. */
  datatype Error = Error(message: string)

  /** A Go `(value, error)` pair in which exactly one half is meaningful. */
  datatype Result<+T> = Ok(value: T) | Err(error: Error)

  const Space: byte := 0x20
  const Colon: byte := 0x3A
}
