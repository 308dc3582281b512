/** The nullable results of the source's queries (`.first()` gives a row or None). */
module Wrappers {

  datatype Option<+T> = None | Some(value: T)
}
