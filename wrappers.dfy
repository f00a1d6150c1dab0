/** Optional values, used for a user input that may not be a number. */
module Wrappers {

  datatype Option<+T> = None | Some(value: T)
}
