/** Octets as they travel on the wire. */
module Bytes {

  /** One byte: an integer in 0 .. 255. */
  type Byte = x: int | 0 <= x < 256
}
