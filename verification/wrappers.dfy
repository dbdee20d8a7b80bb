/** The optional-value datatype used wherever the driver may produce nothing:
    a dropped command, a failed parse, a closed port. */
module Wrappers {

  datatype Option<+T> = None | Some(value: T)
}
