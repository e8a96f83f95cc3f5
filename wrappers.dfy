/** The optional value used where the page reads something that may be missing:
    a stored preference (`localStorage.getItem` returns null) or a catalog
    fetch that failed. */
module Wrappers {

  datatype Option<+T> = None | Some(value: T)
}
