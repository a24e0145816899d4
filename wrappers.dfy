/** The optional value used wherever the extension works with `null`, `undefined` or a missing match. */
module Wrappers {

  datatype Option<+T> = None | Some(value: T)
}
