/** Option and Result: PHP's `null`/`false` returns and thrown errors, as values. */
module Wrappers {

  /** `None` stands for PHP's `null` (or `false`) return. */
  datatype Option<+T> = None | Some(value: T)

  /** `Err` stands for an exception the PHP code would throw. */
  datatype Result<+T, +E> = Ok(value: T) | Err(error: E)
}
