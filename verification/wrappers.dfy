/** The optional value the heap's extraction and the graph's lookup return. */
module Wrappers {

  datatype Option<+T> = None | Some(value: T)
}
