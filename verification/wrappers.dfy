/** The conventional Some/None datatype, used for the outcomes of the
    opaque image decoder and of the decimal parser. */
module Wrappers {

  datatype Option<+T> = None | Some(value: T)
}
