/** The optional value used where the Go code returns a value or a "not
    found" / error indication. */
module Wrappers {

  datatype Option<+T> = None | Some(value: T)

}
