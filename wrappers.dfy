/** The optional value used for files that may be absent and for Ruby's `nil`. */
module Wrappers {

  datatype Option<+T> = None | Some(value: T)

}
