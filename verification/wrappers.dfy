/** The conventional optional value, used for partial operations (a parse that may fail, a
    query parameter that may be absent, a record that may not be built). */
module Wrappers {
  datatype Option<+T> = None | Some(value: T)
}
