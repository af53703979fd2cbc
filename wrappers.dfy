/** The usual optional value, used where the Python code returns `None` or a missing regex group. */
module Wrappers {

  datatype Option<+T> = None | Some(value: T)
}
