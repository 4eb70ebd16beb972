/** Small helper datatypes shared by the configuration modules. */
module Wrappers {

  /** An optional value: `None` stands for Python's `None`, or for "no result". */
  datatype Option<+T> = None | Some(value: T)
}
