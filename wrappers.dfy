/** The optional value used for Go's `(value, err)` pairs throughout the model. */
module Wrappers {

  datatype Option<+T> = None | Some(value: T)
}
