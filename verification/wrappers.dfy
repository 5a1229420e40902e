/** The optional-value datatype used for partial results. */
module Wrappers {

  datatype Option<+T> = None | Some(value: T)
}
