/** Bytes and result shapes shared by the other modules. */
module Common {

  type Byte = x: int | 0 <= x < 256
  type Bytes = seq<Byte>

  datatype Option<+T> = None | Some(value: T)

  datatype Result<+T, +E> = Ok(value: T) | Err(error: E)
}
