/** The optional value the Swift sources express with `T?`. */
module Wrappers {

  datatype Option<+T> = None | Some(value: T)

}
