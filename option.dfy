/** The optional result shared by the modules whose source operations may
    find nothing. */
module Opt {
  datatype Option<T> = None | Some(value: T)
}
