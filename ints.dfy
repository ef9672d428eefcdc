/** Rust's unsigned integer types, as ranges of `nat`. */
module Ints {
  type U64 = n: nat | n < 0x1_0000_0000_0000_0000
  type U16 = n: nat | n < 0x1_0000
}
