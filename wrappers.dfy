/** The Option datatype: `None` stands for Python's `None`, for a NaN result
    and for a call into a library that raised. */
module Wrappers {

  datatype Option<+T> = None | Some(value: T)
}
