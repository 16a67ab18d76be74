/** An optional value: the model's stand-in for Python's `None` and for
    operations that raise instead of returning. */
module Wrappers {
  datatype Option<+T> = None | Some(value: T)
}
