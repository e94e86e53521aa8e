/** Optional values: a node or a text that the C code represents by NULL. */
module Wrappers {

  datatype Option<+T> = None | Some(value: T)
}
