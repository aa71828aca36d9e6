/** The optional-value datatype used for "parsed" versus "rejected" results. */
module Wrappers {

  datatype Option<+T> = None | Some(value: T)

}
