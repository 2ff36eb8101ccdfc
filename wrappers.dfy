/** The optional result that stands in for the C sentinel NULL. */
module Wrappers {

  datatype Option<T> = None | Some(value: T)

}
