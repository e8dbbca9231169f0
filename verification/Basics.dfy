/** What every component uses. */
module Basics {
  type Byte = b: int | 0 <= b < 256

  datatype Option<+T> = Some(value: T) | None
}
