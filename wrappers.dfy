/** The optional value used wherever the modelled code stores `null` or returns nothing. */
module Wrappers {

  datatype Option<+T> = None | Some(value: T)

}
