/** The octet, the unit of `Buffer` contents and of base 64 input. */
module Octets {

  newtype byte = x: int | 0 <= x < 256
}
