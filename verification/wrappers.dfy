/** Optional values, used for "absent" fields, for a parse that may fail and
    for Go's `error` results (None standing for a nil error). */
module Wrappers {

  datatype Option<+T> = None | Some(value: T)
}
