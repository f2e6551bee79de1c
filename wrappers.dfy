/** The optional value used for the loader's `root` and `parent` cells and for
    "a fetch is issued / no fetch is issued". */
module Wrappers {
  datatype Option<+T> = None | Some(value: T)
}
