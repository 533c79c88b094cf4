/** An optional value: the Dafny rendering of a result that may be `null`. */
module Wrappers {

  datatype Option<+T> = None | Some(value: T)

}
