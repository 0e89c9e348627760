/** The optional value returned by each collaborator: `None` stands for a
    call that raised (or, for the image reader, returned nothing). */
module Wrappers {
  datatype Option<+T> = None | Some(value: T)
}
