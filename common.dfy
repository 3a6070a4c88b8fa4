/** Types shared by the whole model of safedotenv's main.go. */
module Common {

  /** Go's `byte`: an unsigned eight-bit value. */
  newtype byte = b: int | 0 <= b < 256

  /** Go's `[]byte`, taken as a value (the model does not track slice aliasing). */
  type Bytes = seq<byte>

  /** A Go `(value, error)` pair where exactly one side is meaningful. */
  datatype Result<+T, +E> = Ok(value: T) | Err(error: E)
}
