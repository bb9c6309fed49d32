/** Real-number helpers standing in for the engine's `Math` functions. */
module Numbers {

  function Abs(x: real): real
  {
    if x < 0.0 then -x else x
  }

  /** Godot's SIGN macro: 0 for 0, otherwise -1 or +1. */
  function Sign(x: real): real
  {
    if x == 0.0 then 0.0 else if x < 0.0 then -1.0 else 1.0
  }

  function Max(x: real, y: real): real
  {
    if x < y then y else x
  }

  function Min(x: real, y: real): real
  {
    if x < y then x else y
  }

  /** `Math::ceil` followed by the cast to int: the least integer not below `x`. */
  function Ceil(x: real): (n: int)
    ensures x <= n as real < x + 1.0
  {
    -((-x).Floor)
  }

  /** `Math::round` (C `round`): nearest integer, halves away from zero. */
  function Round(x: real): (n: int)
    ensures Abs(n as real - x) <= 0.5
    ensures 0.0 <= x ==> 0 <= n
    ensures x <= 0.0 ==> n <= 0
  {
    if x >= 0.0 then (x + 0.5).Floor else -((-x + 0.5).Floor)
  }

  /** Rounding is symmetric about zero, and a half is rounded away from zero. */
  lemma RoundAwayFromZero(x: real)
    ensures Round(-x) == -Round(x)
    ensures x == x.Floor as real + 0.5 && 0.0 <= x ==> Round(x) == x.Floor + 1
  {
  }

  /** `Mathf.RoundToInt` (.NET `MathF.Round`): nearest integer, halves to the even neighbour. */
  function RoundToEven(x: real): (n: int)
    ensures Abs(n as real - x) <= 0.5
    ensures Abs(n as real - x) == 0.5 ==> n % 2 == 0
  {
    var f := x.Floor;
    var d := x - f as real;
    if d < 0.5 then f
    else if d > 0.5 then f + 1
    else if f % 2 == 0 then f else f + 1
  }

  /** A real with no fractional part. */
  predicate IsWhole(x: real)
  {
    x.Floor as real == x
  }
}
