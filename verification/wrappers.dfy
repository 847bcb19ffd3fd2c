/** The optional-value type used wherever the source has a value that may be `None`. */
module Wrappers {

  datatype Option<+T> = None | Some(value: T)
}
