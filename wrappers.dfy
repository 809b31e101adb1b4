/** The optional value used for reads that may fail and for the empty queue. */
module Wrappers {

  datatype Option<+T> = None | Some(value: T)
}
