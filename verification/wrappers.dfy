/** A value that may be missing: a score cell with no matching row, a colour
    with no catalogue entry. */
module Wrappers {

  datatype Option<+T> = None | Some(value: T)
}
