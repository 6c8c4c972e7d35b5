/** The optional value used for a missing item, a failed match or an absent index. */
module Wrappers {

  datatype Option<+T> = None | Some(value: T)
}
