/** The optional value used for PHP's `null`. */
module Wrappers {

  /** `None` stands for PHP's `null`; `Some(v)` for a present value. */
  datatype Option<+T> = None | Some(value: T)
}
