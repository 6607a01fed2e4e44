/** The nullable-reference shape used throughout the model: a shared_ptr that
    may be null becomes an Option of a node id. */
module Wrappers {

  datatype Option<+T> = None | Some(value: T)
}
