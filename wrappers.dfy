/** Optional values: `None` stands for a Java `null` reference or an unset sentinel. */
module Wrappers {
  datatype Option<+T> = None | Some(value: T)
}
