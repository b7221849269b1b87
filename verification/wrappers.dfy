/** The optional value the model uses for "no such way / slot" and for a
    step whose behaviour is undefined. */
module Wrappers {

  datatype Option<+T> = None | Some(value: T)
}
