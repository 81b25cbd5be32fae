/** Optional values, used for nullable columns, the session's user id and flash messages. */
module Wrappers {

  datatype Option<+T> = None | Some(value: T)
}
