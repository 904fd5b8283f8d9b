/** The optional-value datatype used by the matchers and the driver. */
module Wrappers {

  datatype Option<+T> = None | Some(value: T)
}
