/** Optional values, used for "no result" answers and for partial computations. */
module Wrappers {

  datatype Option<+T> = None | Some(value: T)
}
