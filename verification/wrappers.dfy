/** The optional value used wherever the page may find nothing: a failed
    lookup, a missing stored setting, a number that does not parse. */
module Wrappers {

  datatype Option<+T> = None | Some(value: T)
}
