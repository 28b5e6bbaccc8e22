/** Optional values, standing in for Java's nullable references and for
    operations that may fail without further detail. */
module Wrappers {

  datatype Option<+T> = None | Some(value: T)
}
