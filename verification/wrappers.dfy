/** Optional values, standing in for Go's nil interfaces and for the
    `value, ok := ...` lookups of the handle's settings store. */
module Wrappers {

  datatype Option<+T> = None | Some(value: T)
}
