/** The optional value used for Java's nullable references and for partial decoders. */
module Wrappers {

  datatype Option<+T> = None | Some(value: T)
}
