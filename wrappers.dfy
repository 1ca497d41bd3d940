/** Small value wrappers shared by the other modules. A C pointer that may be
    NULL is modelled as an `Option`. */
module Wrappers {
  datatype Option<+T> = None | Some(value: T)
}
