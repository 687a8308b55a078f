/** An optional value: the model's stand-in for "nothing is sent" and "no match". */
module Wrappers {

  datatype Option<+T> = None | Some(value: T)
}
