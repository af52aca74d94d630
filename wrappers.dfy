/** An optional value: JavaScript's `undefined` / "not found" / NaN, depending on the caller. */
module Wrappers {

  datatype Option<T> = None | Some(value: T)
}
