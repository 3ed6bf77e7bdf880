/** The Some/None datatype used wherever the source raises an exception
    (a missing dictionary key, popping an empty list) or returns None. */
module Wrappers {

  datatype Option<+T> = None | Some(value: T)
}
