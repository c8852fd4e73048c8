/** Option: stands in for a nullable pointer of the C++ code (a cell's parent link)
    and for results that may be absent. */
module Wrappers {

  datatype Option<+T> = None | Some(value: T)
}
