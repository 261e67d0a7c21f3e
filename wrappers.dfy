/** The optional value JavaScript expresses with `undefined`. */
module Wrappers {

  datatype Option<+T> = None | Some(value: T)
}
