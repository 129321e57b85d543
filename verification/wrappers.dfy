/** Optional values, used for search results and for engine replies that
    may or may not have written into the output buffer. */
module Wrappers {

  datatype Option<+T> = None | Some(value: T)
}
