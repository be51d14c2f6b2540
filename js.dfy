/** The few pieces of JavaScript number and exception semantics the model depends on. */
module Js {

  /** JavaScript's `a % n` for a positive divisor: the remainder truncates toward zero, so it
      takes the sign of `a` and the magnitude of `|a|`'s remainder (Dafny's `%` is Euclidean and
      never negative). */
  function Rem(a: int, n: int): (r: int)
    requires n > 0
    ensures a >= 0 ==> 0 <= r < n
    ensures a < 0 ==> -n < r <= 0
    ensures a >= 0 ==> r == a % n
    ensures a < 0 ==> r == -((-a) % n)
  {
    if a >= 0 then a % n else -((-a) % n)
  }

  /** `Math.floor(a / n)` for a positive divisor: Dafny's Euclidean `/` rounds down when `n > 0`. */
  function FloorDiv(a: int, n: int): (q: int)
    requires n > 0
    ensures q * n <= a < q * n + n
  {
    a / n
  }

  /** A value caught by a `catch` clause: an `Error` object carries a message, anything else does not. */
  datatype Thrown = ErrorObject(message: string) | OtherValue

  /** `e instanceof Error ? e.message : fallback`, the pattern every catch clause of the hooks uses. */
  function MessageOr(e: Thrown, fallback: string): (m: string)
    ensures e.ErrorObject? ==> m == e.message
    ensures e.OtherValue? ==> m == fallback
  {
    match e
    case ErrorObject(msg) => msg
    case OtherValue => fallback
  }
}
