/** Optional values, standing in for Java and Kotlin nullable references. */
module Wrappers {

  datatype Option<+T> = None | Some(value: T)
}
