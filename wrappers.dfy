/** The optional value returned where the source returns a result or `None`. */
module Wrappers {

  datatype Option<+T> = None | Some(value: T)

}
