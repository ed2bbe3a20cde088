/** The Some/None datatype that stands for Python's `value or None` returns. */
module Wrappers {

  datatype Option<+T> = None | Some(value: T)
}
