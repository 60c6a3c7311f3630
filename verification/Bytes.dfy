/** Octets. */
module Bytes {
  type byte = bv8
}
