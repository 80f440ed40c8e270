/** The optional value used for arguments that default to `None` and for lookups. */
module Wrappers {

  datatype Option<+T> = None | Some(value: T)
}
