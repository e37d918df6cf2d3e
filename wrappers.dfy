/** The optional value used wherever the source returns `null` or may be absent. */
module Wrappers {
  datatype Option<+T> = None | Some(value: T)
}
