/** The optional value used wherever the JavaScript reads a property that may be
    missing (`undefined`) from a JSON object. */
module Wrappers {

  /** A JSON property that is either missing or holds a value. */
  datatype Option<T> = None | Some(value: T)

  /** The property's value, or `fallback` when it is missing: `x || fallback`
      for values that are never falsy when present. */
  function ValueOr<T>(o: Option<T>, fallback: T): T {
    if o.Some? then o.value else fallback
  }

  /** JavaScript truthiness of an optional string: absent and `""` are both falsy. */
  predicate Truthy(s: Option<string>) {
    s.Some? && s.value != []
  }

  /** `s || fallback` for an optional string. */
  function OrElse(s: Option<string>, fallback: string): (r: string)
    ensures Truthy(s) ==> r == s.value
    ensures !Truthy(s) ==> r == fallback
  {
    if Truthy(s) then s.value else fallback
  }
}
