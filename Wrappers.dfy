/** The optional value used where the C++ code returns a null pointer or
    where a standard-library conversion can fail. */
module Wrappers {
  datatype Option<+T> = None | Some(value: T)
}
