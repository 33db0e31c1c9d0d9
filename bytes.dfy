/** Machine-level value types shared by the HT16K33 model. */
module Bytes {
  /** A byte on the bus or in the display buffer (C `uint8_t` used as a bit pattern). */
  type byte = bv8

  /** A C `uint8_t` used as a number (positions, counts, modes, levels). */
  type u8 = x: int | 0 <= x < 256

  datatype Option<T> = None | Some(value: T)

  function Min(a: int, b: int): int
  {
    if a <= b then a else b
  }
}
