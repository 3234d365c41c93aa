/** The optional value used wherever the Java code passes or returns `null`. */
module Wrappers {

  /** `None` stands for Java's `null`, `Some(v)` for a present value. */
  datatype Option<+T> = None | Some(value: T)
}
