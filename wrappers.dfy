/** The optional value used wherever the application works with `None`. */
module Wrappers {

  datatype Option<+T> = None | Some(value: T)
}
