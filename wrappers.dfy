/** A missing cell of a table (pandas' NaN/None) is `None`; a present one is `Some(v)`. */
module Wrappers {

  datatype Option<+T> = None | Some(value: T)
}
