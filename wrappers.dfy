/** Optional values, standing for Swift's `T?` (nil or a value). */
module Wrappers {

  datatype Option<+T> = None | Some(value: T)

}
