/** A value that may be absent: JavaScript's `null` / `undefined` next to a
    present value. */
module Wrappers {

  datatype Option<+T> = None | Some(value: T)

  /** JavaScript's `o ?? d`: the value when present, `d` otherwise. */
  function OrElse<T>(o: Option<T>, d: T): T {
    if o.Some? then o.value else d
  }

  /** JavaScript truthiness of an optional string: present and non-empty. */
  predicate Truthy(o: Option<string>) {
    o.Some? && o.value != []
  }
}
