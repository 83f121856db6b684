/** The optional-value type shared by the model of the feed cache. */
module Wrappers {

  /** A value that may be missing; stands for PHP's habit of returning `false`
      in place of a real value. */
  datatype Option<+T> = None | Some(value: T)

}
