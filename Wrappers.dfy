/** The nullable-pointer results of the object index, as an Option. */
module Wrappers {

  /** `None` stands for a C++ `NULL` pointer, `Some(v)` for a non-null one. */
  datatype Option<+T> = None | Some(value: T)
}
