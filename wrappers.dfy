/** The optional value used for JavaScript's `null` results and for partial decoders. */
module Wrappers {
  datatype Option<+T> = None | Some(value: T)
}
