/** The optional-value wrapper shared by the parser and the task table. */
module Wrappers {
  datatype Option<+T> = None | Some(value: T)
}
