/** Small types shared by the rest of the model. */
module Wrappers {
  /** Optional values, used where the program receives "nothing" from a dialog or a lookup. */
  datatype Option<+T> = None | Some(value: T)

  /** An octet, as stored in an unsigned char. */
  type byte = x: int | 0 <= x < 256
}
