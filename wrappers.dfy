/** The optional-value datatype used where the source returns a match
    object that may be `None`. */
module Wrappers {

  datatype Option<+T> = None | Some(value: T)
}
