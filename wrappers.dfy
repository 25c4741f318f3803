/** Small failure-compatible wrapper shared by the models. */
module Wrappers {
  /** Python's `None` versus a present value. */
  datatype Option<+T> = None | Some(value: T)
}
