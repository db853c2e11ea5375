/** Octets, shared by the UTF-8 and base-64 encoders. */
module Bytes {
  type byte = x: int | 0 <= x < 256
}
