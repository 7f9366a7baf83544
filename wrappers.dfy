/** Option, used for nullable columns, optional query parameters and lookups. */
module Wrappers {

  datatype Option<+T> = None | Some(value: T)
}
