/** The "absent" result that the Java code signals with `null`. */
module Wrappers {

  datatype Option<+T> = None | Some(value: T)
}
