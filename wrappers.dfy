/** The optional result the encoder and the version lookup return. */
module Wrappers {

  datatype Option<T> = None | Some(value: T)
}
