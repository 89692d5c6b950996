/** Optional values: `None` stands for Python's raised error or JavaScript's `null`. */
module Wrappers {

  datatype Option<+T> = None | Some(value: T)

}
