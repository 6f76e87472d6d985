/** The optional value used for ages, raw height values and any step that can fail. */
module Wrappers {

  datatype Option<+T> = None | Some(value: T)
}
