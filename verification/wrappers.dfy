/** The Some/None datatype used where the source returns a null pointer,
    an invalid QVariant or a null document. */
module Wrappers {

  datatype Option<+T> = None | Some(value: T)
}
