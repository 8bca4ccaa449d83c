/** The optional value used throughout the model: an annotation that may be
    absent, a number that may fail to parse, a partner element that may not
    exist. */
module Wrappers {

  datatype Option<+T> = None | Some(value: T)
}
