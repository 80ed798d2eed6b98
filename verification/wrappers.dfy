/** Optional values, used for the nullable start timestamp of a session. */
module Wrappers {

  datatype Option<+T> = None | Some(value: T)
}
