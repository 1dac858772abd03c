/** Octets and octet strings, shared by every module that works on bytes. */
module Octets {
  type Byte = b: int | 0 <= b < 256

  type Bytes = seq<Byte>
}
