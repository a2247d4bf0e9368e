/** The optional value the Ruby code expresses with `nil`. */
module Wrappers {

  datatype Option<+T> = None | Some(value: T)
}
