/** The optional value PHP expresses with `null`/`false` returns. */
module Wrappers {

  datatype Option<+T> = None | Some(value: T)
}
