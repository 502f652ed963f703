/** Optional values: `None` stands for the null pointer the pool returns. */
module Wrappers {

  datatype Option<+T> = None | Some(value: T)
}
