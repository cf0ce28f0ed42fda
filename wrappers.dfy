/** Small helper types shared by the other modules. */
module Wrappers {

  /** A value that may be absent. */
  datatype Option<+T> = None | Some(value: T)

  /** An octet; a JavaScript "binary string" character below U+0100. */
  type Byte = x: int | 0 <= x < 256
}
