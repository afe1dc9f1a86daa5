/** The result type of the decoders: `None` for text that is not a
    well-formed field, `Some` of the value read otherwise. */
module Wrappers {

  datatype Option<+T> = None | Some(value: T)
}
