/** Java references that may be null, as an option type. */
module Nullable {

  /** `Null` stands for a Java `null`; `Some(v)` for a non-null reference to `v`. */
  datatype Option<+T> = Null | Some(value: T)
}
