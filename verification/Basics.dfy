/** A value that may be missing. */
module Wrappers {

  datatype Option<+T> = None | Some(value: T)
}

/** Characters and raw memory. */
module Bytes {

  type Byte = x: int | 0 <= x < 0x100
}
