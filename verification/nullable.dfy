/** Java's nullable values. `None` stands for `null`; `Some(v)` for a non-null `v`. */
module Nullable {

  datatype Option<+T> = None | Some(value: T)
}
