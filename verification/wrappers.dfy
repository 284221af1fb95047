/** Optional values: a Java reference that may be null, or a repository lookup that may miss. */
module Wrappers {

  datatype Option<+T> = None | Some(value: T)
}
