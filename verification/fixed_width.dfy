/** The C integer types the player's callbacks exchange with the GIF decoder
    and the display driver, and the narrowing conversions between them.

    Dafny's integers are unbounded, so every place where the source stores a
    wider value into a narrower variable goes through one of the conversions
    below. Narrowing is modular, the way GCC for the ESP32 performs it. */
module FixedWidth {

  newtype int16 = x: int | FitsInt16(x)
  newtype int32 = x: int | FitsInt32(x)
  newtype uint8 = x: int | 0 <= x < 0x100
  newtype uint16 = x: int | 0 <= x < 0x1_0000

  predicate FitsInt16(v: int) { -0x8000 <= v < 0x8000 }
  predicate FitsInt32(v: int) { -0x8000_0000 <= v < 0x8000_0000 }

  /** The value an `int16_t` variable holds after `v` is stored into it:
      the unique 16-bit value congruent to `v` modulo 2^16. */
  function ToInt16(v: int): (r: int16)
    ensures FitsInt16(v) ==> r as int == v
    ensures (v - r as int) % 0x1_0000 == 0
  {
    ((v + 0x8000) % 0x1_0000 - 0x8000) as int16
  }

  /** The value an `int32_t` variable holds after `v` is stored into it. */
  function ToInt32(v: int): (r: int32)
    ensures FitsInt32(v) ==> r as int == v
    ensures (v - r as int) % 0x1_0000_0000 == 0
  {
    ((v + 0x8000_0000) % 0x1_0000_0000 - 0x8000_0000) as int32
  }

  function Min(a: int, b: int): (m: int)
    ensures m <= a && m <= b
    ensures m == a || m == b
  {
    if a <= b then a else b
  }

  function Max(a: int, b: int): (m: int)
    ensures m >= a && m >= b
    ensures m == a || m == b
  {
    if a <= b then b else a
  }
}

/** The Some/None wrapper used wherever the source either does something or
    returns early without doing it. */
module Optional {

  datatype Option<+T> = None | Some(value: T)
}
