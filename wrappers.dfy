/** The optional value used where the browser code tests for `null` or `-1`. */
module Wrappers {

  datatype Option<+T> = None | Some(value: T)

}
