/** Python's `None`: a value that is either absent or present. */
module Nullable {

  datatype Option<+T> = None | Some(value: T)
}
