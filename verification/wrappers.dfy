/** A plain optional value: the result of the parsers of the model. */
module Wrappers {

  datatype Option<+T> = None | Some(value: T)
}
