/** The optional value used wherever the program can fail to produce a result. */
module Wrappers {

  /** `None` stands for a computation that raised (for instance a division by zero). */
  datatype Option<+T> = None | Some(value: T)
}
