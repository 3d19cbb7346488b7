/** The optional-value datatype the parsers of this project return. */
module Wrappers {

  /** Either no value, or `Some(value)`. */
  datatype Option<+T> = None | Some(value: T)
}
