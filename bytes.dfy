/** Unsigned 8-bit values, as the score tensor, the mask and the RGB buffer hold them. */
module Bytes {

  /** C's `uint8_t`. */
  newtype uint8 = x: int | 0 <= x < 256

  /** The implicit conversion of a non-negative C `int` to `uint8_t`: it keeps the value modulo 256. */
  function Narrow(v: nat): (b: uint8)
    ensures v < 256 ==> b as int == v
    ensures b as int <= v
  {
    (v % 256) as uint8
  }
}
