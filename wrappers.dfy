/** The optional value used wherever the Ruby code may hold `nil`. */
module Wrappers {

  datatype Option<+T> = None | Some(value: T)
}
