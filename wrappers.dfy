/** Small failure-compatible wrappers shared by the modules of the model. */
module Wrappers {

  /** A value that may be absent: a missing DOM element, an empty number input, a missing key. */
  datatype Option<+T> = None | Some(value: T)
}
