/** Small datatypes every other module of the model shares. */
module Common {

  datatype Option<+T> = None | Some(value: T)

  datatype Result<+T, +E> = Ok(value: T) | Err(error: E)

  /** The range of a signed 64-bit integer. */
  const I64_MIN: int := -0x8000_0000_0000_0000
  const I64_MAX: int := 0x7FFF_FFFF_FFFF_FFFF

  type I64 = x: int | I64_MIN <= x <= I64_MAX

  /** One octet of a file or a stream. */
  type Byte = x: int | 0 <= x < 256

  type Bytes = seq<Byte>

  predicate IsDigit(c: char) { '0' <= c <= '9' }
}
