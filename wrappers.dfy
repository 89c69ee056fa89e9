/** The optional value used for the request's reference-typed (nullable) strings. */
module Wrappers {

  /** `None` stands for a C# `null` reference, `Some(v)` for a present value. */
  datatype Option<+T> = None | Some(value: T)
}
