/** The Some/None datatype used for reads that may be absent and for results that may fail. */
module Wrappers {

  datatype Option<+T> = None | Some(value: T)
}
