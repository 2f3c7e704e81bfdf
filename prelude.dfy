/** Small value types shared by every module of the model. */
module Prelude {

  /** Python's `None`-or-value, JavaScript's `null`-or-value. */
  datatype Option<T> = None | Some(value: T) {
    predicate IsSome() { this.Some? }
    function GetOr(default: T): T {
      match this
      case None => default
      case Some(v) => v
    }
  }

  /** A value or an error message, for operations that report failure in their result. */
  datatype Result<T> = Ok(value: T) | Err(error: string)

  function Min(a: int, b: int): int { if a <= b then a else b }
  function Max(a: int, b: int): int { if a >= b then a else b }

  /** `min(max(x, lo), hi)`: the clamp used throughout the visualisers. */
  function Clamp(x: int, lo: int, hi: int): (r: int)
    requires lo <= hi
    ensures lo <= r <= hi
    ensures lo <= x <= hi ==> r == x
    ensures x < lo ==> r == lo
    ensures x > hi ==> r == hi
  {
    Min(Max(x, lo), hi)
  }
}
