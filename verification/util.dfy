/**
 * Small arithmetic helpers shared by every module: optional values, absolute
 * value, min/max, C's truncating integer division and float-to-int
 * conversion, and the integer square root that `(int)sqrt(n)` computes.
 */
module Util {

  datatype Option<T> = None | Some(value: T)

  function Abs(x: int): nat
  {
    if x < 0 then -x else x
  }

  function Max(a: int, b: int): int
  {
    if a < b then b else a
  }

  function Min(a: int, b: int): int
  {
    if a < b then a else b
  }

  /** C's `/` on int: the quotient is truncated toward zero. */
  function CDiv(a: int, b: int): (q: int)
    requires b != 0
  {
    if (a < 0) == (b < 0) then Abs(a) / Abs(b) else -(Abs(a) / Abs(b))
  }

  /** C's conversion of a floating value to an integer: truncation toward zero. */
  function Trunc(r: real): (n: int)
    ensures Abs(n) as real <= (if r < 0.0 then -r else r) < Abs(n) as real + 1.0
    ensures n == 0 || (n < 0 <==> r < 0.0)
  {
    if r < 0.0 then -((-r).Floor) else r.Floor
  }

  /** The largest integer whose square does not exceed n: `(int)sqrt(n)` for the small n the library uses. */
  function ISqrt(n: nat): (r: nat)
    ensures r * r <= n < (r + 1) * (r + 1)
  {
    if n == 0 then 0
    else
      var s := ISqrt(n - 1);
      if (s + 1) * (s + 1) <= n then s + 1 else s
  }
}
