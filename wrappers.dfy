/** The optional-value datatype used for the host attributes that a host
    entry may or may not carry. */
module Wrappers {

  datatype Option<+T> = None | Some(value: T)
}
