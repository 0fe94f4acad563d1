/** The optional value the model's partial operations return: a lookup
    that can miss, a search that can find nothing. */
module Wrappers {
  datatype Option<+T> = None | Some(value: T)
}
