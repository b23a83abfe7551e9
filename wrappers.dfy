/** The optional value used for the handler's "no edit" outcome and for
    a missing view, file or persisted record. */
module Wrappers {

  datatype Option<+T> = None | Some(value: T)
}
