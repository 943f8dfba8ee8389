/** The result types and the machine word that the modules share. */
module Wrappers {

  datatype Option<T> = None | Some(value: T)

  datatype Result<T, E> = Ok(value: T) | Err(error: E)

  /** A 64-bit pattern, as the number it denotes when read without a sign. */
  type Word = w: int | 0 <= w < 0x1_0000_0000_0000_0000
}
