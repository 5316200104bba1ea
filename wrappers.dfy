/** Optional values: `None` stands for the C programs' NULL pointers and failed reads. */
module Wrappers {

  datatype Option<+T> = None | Some(value: T)
}
