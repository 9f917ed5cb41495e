/** Optional values: a missing request field, a nullable column, a failed lookup. */
module Wrappers {

  datatype Option<+T> = None | Some(value: T)

  /** JavaScript truthiness of a value that is either absent (`undefined`/`null`) or a string. */
  predicate Truthy(s: Option<string>)
  {
    s.Some? && s.value != ""
  }
}
