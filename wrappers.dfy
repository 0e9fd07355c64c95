/** Optional values, used where a Python call may come back with `None`
    or where the script aborts with an exception. */
module Wrappers {

  datatype Option<+T> = None | Some(value: T)
}
