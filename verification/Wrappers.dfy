/** Results of operations that the modelled code ends with an exception or a None. */
module Wrappers {

  datatype Option<+T> = None | Some(value: T)
}
