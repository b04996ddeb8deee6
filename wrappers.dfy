/** The (value, ok) pairs the Go code returns, as an option: `None` stands for `(nil, false)`. */
module Wrappers {
  datatype Option<+T> = None | Some(value: T)
}
