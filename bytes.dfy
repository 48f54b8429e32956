/** Octets, as held in a Node.js Buffer or a Python bytes object. */
module Bytes {

  newtype byte = x: int | 0 <= x < 256

  type Bytes = seq<byte>
}
