/** The usual optional value: `None` stands for a missing value (pandas' null / NaN). */
module Wrappers {

  datatype Option<+T> = None | Some(value: T)
}
