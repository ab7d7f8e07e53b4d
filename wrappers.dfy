/** The nullable value of the source (`selectedValue` is a string or `null`). */
module Wrappers {

  datatype Option<+T> = None | Some(value: T)
}
