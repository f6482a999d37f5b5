/** Small shared vocabulary: optional values (Java's nullable references) and bytes. */
module Basics {

  /** A Java reference that may be `null`. */
  datatype Option<+T> = None | Some(value: T)

  /** One octet of a file's content. */
  newtype byte = b: int | 0 <= b < 256
}
