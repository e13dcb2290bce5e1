/** Small value wrappers shared by the other modules. */
module Wrappers {

  /** Python's `None` or a present value. */
  datatype Option<+T> = None | Some(value: T)

  /** One byte of a stored media object. */
  newtype byte = x: int | 0 <= x < 256
}
