/**
 The few JavaScript value semantics the level server relies on: a value that may
 be `undefined`, truthiness of an optional string, and the `a || b` default idiom.
 */
module JsValue {

  /** A value that may be `undefined`. */
  datatype Option<+T> = None | Some(value: T)

  /** JavaScript truthiness, restricted to optional strings: `undefined` and `""` are falsy. */
  predicate Truthy(o: Option<string>) {
    o.Some? && o.value != ""
  }

  /** `o || fallback` for an optional string. */
  function OrElse(o: Option<string>, fallback: string): string {
    if Truthy(o) then o.value else fallback
  }
}
