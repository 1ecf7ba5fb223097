/** The optional value used for Python's `None`: the sentinel parent of the
    start cell, and the "no path" result of the search. */
module Wrappers {

  datatype Option<+T> = None | Some(value: T)

}
