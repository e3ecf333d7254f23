/** The optional value used for every field or argument that may be absent. */
module Wrappers {

  datatype Option<+T> = None | Some(value: T)
}
