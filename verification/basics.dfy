/** Small shared vocabulary: an optional value (JavaScript's `null`/`undefined`
    versus a present value) and integer min/max as `Math.min`/`Math.max`. */
module Basics {

  /** A value that may be absent, such as the result of `window.prompt` (null when
      cancelled) or of `Map.get` (undefined when the key is missing). */
  datatype Option<+T> = None | Some(value: T) {

    /** The value, or `default` when absent. */
    function GetOr(default: T): T {
      match this
      case Some(v) => v
      case None => default
    }
  }

  function Min(a: int, b: int): (r: int)
    ensures r <= a && r <= b
    ensures r == a || r == b
  {
    if a <= b then a else b
  }

  function Max(a: int, b: int): (r: int)
    ensures r >= a && r >= b
    ensures r == a || r == b
  {
    if a >= b then a else b
  }
}
