/** The optional-value datatype used across the model. */
module Wrappers {

  /** `None` stands for "nothing here": an unchecked radio group, a row that
      yields no record. */
  datatype Option<+T> = None | Some(value: T)
}
