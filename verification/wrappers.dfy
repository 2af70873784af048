/** The optional value the C sources express with a NULL pointer. */
module Wrappers {

  datatype Option<+T> = None | Some(value: T)
}
