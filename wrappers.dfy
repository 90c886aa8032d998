/** The optional value used for every nullable pointer of the allocator. */
module Wrappers {

  datatype Option<+T> = None | Some(value: T)
}
