/** Optional values: `None` stands for a missing reading (pandas NaN) or an absent result. */
module Wrappers {

  datatype Option<+T> = None | Some(value: T)
}
