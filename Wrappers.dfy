/** The optional value the PHP code expresses with `null`. */
module Wrappers {

  datatype Option<+T> = None | Some(value: T)
}
