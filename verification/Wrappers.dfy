/** Result types shared by all components. */
module Wrappers {
  /** A value the source may leave undefined. */
  datatype Option<+T> = None | Some(value: T)

  /** A call that the source may end by throwing. */
  datatype Result<+T> = Ok(value: T) | Err(error: string)

  /** A JavaScript string that is present and not empty. */
  predicate Truthy(s: Option<string>) {
    s.Some? && s.value != ""
  }
}
