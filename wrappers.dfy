/** Optional values: the model's replacement for the source's integer sentinels. */
module Wrappers {

  datatype Option<+T> = None | Some(value: T)

}
