/** JavaScript value conventions shared by the rest of the model:
    optional values, a thrown-or-returned outcome, and the `||`
    fallback that treats `undefined` and the empty string alike. */
module Js {

  /** A value that may be `undefined` (or `null`). */
  datatype Option<+T> = None | Some(value: T)

  /** The outcome of a call that either returns a value or throws
      (an async function that resolves or rejects). */
  datatype Thrown<+T> = Returned(value: T) | Threw(message: string)

  /** `a || fallback` where `a` is an optional string: both `undefined`
      and `""` are falsy in JavaScript, so both yield `fallback`. */
  function Or(a: Option<string>, fallback: string): (r: string)
    ensures r == fallback || (a.Some? && r == a.value && r != "")
    ensures a.Some? && a.value != "" ==> r == a.value
  {
    if a.Some? && a.value != "" then a.value else fallback
  }
}
