/** Optional values: an absent result, a number that did not parse, a file that does not exist. */
module Wrappers {

  datatype Option<+T> = None | Some(value: T)

}
