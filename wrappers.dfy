/** Optional values: a camera binding that may be absent, a policy tag that may be unknown. */
module Wrappers {

  datatype Option<+T> = None | Some(value: T)
}
