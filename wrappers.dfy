/** The optional value that Python expresses with `None`. */
module Wrappers {

  datatype Option<+T> = None | Some(value: T)
}
