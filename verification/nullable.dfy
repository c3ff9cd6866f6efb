/** A value that may be SQL NULL, or a dictionary key that `dict.get` did not find. */
module Nullable {

  /** `None` is NULL (Python's `None`); `Some(v)` is a present value. */
  datatype Option<+T> = None | Some(value: T)
}
