/** The optional value used wherever the store answers "absent" (Python's None). */
module Wrappers {

  datatype Option<+T> = None | Some(value: T)
}
