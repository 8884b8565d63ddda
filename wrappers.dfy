/** The optional value Python's `dict.get` returns: `None` for a missing key. */
module Wrappers {

  datatype Option<+T> = None | Some(value: T)

}
