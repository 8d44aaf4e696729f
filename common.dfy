/** Small shared definitions: an optional value (JavaScript's `undefined`/`null`) and `Math.min`. */
module Common {

  /** A value that may be absent, as a missing map entry or a `null` field is in the application. */
  datatype Option<T> = None | Some(value: T)

  /** `Math.min` on integers. */
  function Min(a: int, b: int): (m: int)
    ensures m <= a && m <= b
    ensures m == a || m == b
  {
    if a <= b then a else b
  }
}
