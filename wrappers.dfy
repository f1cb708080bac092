/** The absence value of the source (Python's `None`) as an option type. */
module Wrappers {

  datatype Option<+T> = None | Some(value: T)

}
