/** The optional value shared by the model's partial steps. */
module Wrappers {

  datatype Option<T> = None | Some(value: T)
}
