/** Octets, as files, network bodies and encodings see them. */
module Octets {
  type byte = b: int | 0 <= b < 256
}
