// The optional-value datatype used wherever the source returns `null` or
// relies on a lookup that may miss.
module Wrappers {

  datatype Option<+T> = None | Some(value: T)
}
