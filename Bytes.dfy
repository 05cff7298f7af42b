/** The octet type shared by the body stream, the pixel data and the encoders' output. */
module Bytes {
  newtype byte = b: int | 0 <= b < 0x100
}
