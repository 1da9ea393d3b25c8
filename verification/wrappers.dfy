/** The failure-carrying datatype the encoder uses where the PHP code returns `false`. */
module Wrappers {

  /** `None` stands for PHP's `false` (or a swallowed exception); `Some` carries the value. */
  datatype Option<+T> = None | Some(value: T)
}
