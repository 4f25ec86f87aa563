/** The optional-value type used where the script returns a value or `None`. */
module Wrappers {

  datatype Option<+T> = None | Some(value: T)
}
