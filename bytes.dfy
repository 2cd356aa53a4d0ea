/** Bytes shared by the queue (`unsigned char`) and the deframer (`char`). */
module Bytes {
  /** An 8-bit value, 0 to 255. */
  newtype byte = x: int | 0 <= x < 256
}
