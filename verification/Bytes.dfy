module Bytes {
  type Byte = x: int | 0 <= x < 256
  type Bytes = seq<Byte>
}
