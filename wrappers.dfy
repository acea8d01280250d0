/** Option values: `None` stands for Python's `None`, or for a raised exception where noted. */
module Wrappers {
  datatype Option<+T> = None | Some(value: T)
}
