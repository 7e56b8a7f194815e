/** Optional values, used for capability queries and rejections. */
module Wrappers {

  datatype Option<+T> = None | Some(value: T)

}
