/** The optional value used for a cell that may be missing (pandas' NaN or
    None) and for a statistic that may be undefined (the median of no values). */
module Wrappers {

  datatype Option<+T> = None | Some(value: T)
}
