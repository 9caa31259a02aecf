/** The optional value used for the parser's per-cell outcome and for date resolution. */
module Wrappers {

  datatype Option<+T> = None | Some(value: T)

}
