/** Optional values, used for PHP's `false`-or-value returns and for records that may be missing. */
module Wrappers {
  datatype Option<+T> = None | Some(value: T)
}
