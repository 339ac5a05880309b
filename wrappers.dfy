/** Optional values and results with an error, used for Python's `None` and raised exceptions. */
module Wrappers {
  datatype Option<+T> = None | Some(value: T)

  datatype Result<+R, +E> = Success(value: R) | Failure(error: E)

  /** Python truthiness of an optional string: both `None` and `""` are false. */
  function Truthy(s: Option<string>): (truthy: bool)
    ensures !truthy <==> s == None || s == Some("")
  {
    s.Some? && s.value != ""
  }
}
