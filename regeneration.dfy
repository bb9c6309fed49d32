/**
  Fog regeneration: every pixel's colour channels move toward 0 and its alpha
  toward 1 by the same amount, using the engine's move_toward rule.
*/
module Regeneration {
  import opened Numbers
  import opened Pixels

  /**
    The engine's `move_toward`: land on `to` when it is within `delta`,
    otherwise step by `delta` in its direction. A negative `delta` is not
    guarded against and moves away from `to`.
  */
  function MoveToward(from: real, to: real, delta: real): (r: real)
    ensures 0.0 <= delta ==> Abs(r - from) <= delta
    ensures 0.0 <= delta && from <= to ==> from <= r <= to
    ensures 0.0 <= delta && to <= from ==> to <= r <= from
    ensures from == to ==> r == to
    ensures 0.0 <= delta && Abs(to - from) <= delta ==> r == to
    ensures 0.0 <= delta && delta < Abs(to - from) ==> Abs(to - r) == Abs(to - from) - delta
    ensures delta < 0.0 && from != to ==> Abs(to - r) == Abs(to - from) - delta
    ensures delta < 0.0 && from != to ==> Abs(r - from) == -delta
  {
    if Abs(to - from) <= delta then to else from + Sign(to - from) * delta
  }

  /** One pixel after regeneration by `amount` (= regen rate times elapsed time). */
  function RegenPixel(c: Color, amount: real): (d: Color)
    ensures 0.0 <= amount ==>
      Abs(d.r - c.r) <= amount && Abs(d.g - c.g) <= amount && Abs(d.b - c.b) <= amount && Abs(d.a - c.a) <= amount
    ensures 0.0 <= amount ==>
      Abs(d.r) <= Abs(c.r) && Abs(d.g) <= Abs(c.g) && Abs(d.b) <= Abs(c.b) && Abs(1.0 - d.a) <= Abs(1.0 - c.a)
  {
    Color(MoveToward(c.r, 0.0, amount), MoveToward(c.g, 0.0, amount),
          MoveToward(c.b, 0.0, amount), MoveToward(c.a, 1.0, amount))
  }

  predicate InUnit(c: Color)
  {
    0.0 <= c.r <= 1.0 && 0.0 <= c.g <= 1.0 && 0.0 <= c.b <= 1.0 && 0.0 <= c.a <= 1.0
  }

  /** For a pixel in range and a non-negative amount, regeneration is clamped subtraction/addition. */
  lemma RegenClosedForm(c: Color, amount: real)
    requires 0.0 <= amount && InUnit(c)
    ensures RegenPixel(c, amount) == Clamped(c, amount)
  {
  }

  /** Colour never increases, alpha never decreases, and nothing leaves [0, 1]. */
  lemma RegenMonotone(c: Color, amount: real)
    requires 0.0 <= amount && InUnit(c)
    ensures var d := RegenPixel(c, amount);
      d.r <= c.r && d.g <= c.g && d.b <= c.b && c.a <= d.a && InUnit(d)
  {
  }

  /** Opaque black is a fixed point of regeneration, whatever the amount (even a negative one). */
  lemma RestIsFixedPoint(amount: real)
    ensures RegenPixel(OpaqueBlack, amount) == OpaqueBlack
  {
  }

  /** Alpha 0.5 regenerated by 0.2 (rate 1, 0.2 seconds) becomes 0.7; black colour stays black. */
  lemma RegenExample()
    ensures RegenPixel(Color(0.0, 0.0, 0.0, 0.5), 0.2) == Color(0.0, 0.0, 0.0, 0.7)
  {
  }

  /** The pixel after `n` successive regenerations by the same amount. */
  function RegenSteps(c: Color, amount: real, n: nat): Color
  {
    if n == 0 then c else RegenPixel(RegenSteps(c, amount, n - 1), amount)
  }

  /** After n steps, each colour channel has dropped by n*amount and alpha risen by n*amount, clamped. */
  lemma RegenStepsClosedForm(c: Color, amount: real, n: nat)
    requires 0.0 <= amount && InUnit(c)
    ensures InUnit(RegenSteps(c, amount, n))
    ensures RegenSteps(c, amount, n) == Clamped(c, n as real * amount)
  {
    RegenStepsAccumulate(c, amount, n);
    TotalIsProduct(amount, n);
  }

  /** The amount accumulated over n steps, as a repeated sum. */
  function Total(amount: real, n: nat): real
  {
    if n == 0 then 0.0 else Total(amount, n - 1) + amount
  }

  lemma {:induction false} TotalIsProduct(amount: real, n: nat)
    ensures Total(amount, n) == n as real * amount
  {
    if n > 0 {
      TotalIsProduct(amount, n - 1);
    }
  }

  lemma {:induction false} RegenStepsAccumulate(c: Color, amount: real, n: nat)
    requires 0.0 <= amount && InUnit(c)
    ensures 0.0 <= Total(amount, n)
    ensures InUnit(RegenSteps(c, amount, n))
    ensures RegenSteps(c, amount, n) == Clamped(c, Total(amount, n))
  {
    if n > 0 {
      RegenStepsAccumulate(c, amount, n - 1);
      ClampedRegen(c, Total(amount, n - 1), amount);
    }
  }

  /** Regenerating an already clamped pixel by `amount` clamps by the sum. */
  lemma ClampedRegen(c: Color, k: real, amount: real)
    requires 0.0 <= k && 0.0 <= amount && InUnit(c)
    ensures InUnit(Clamped(c, k + amount))
    ensures RegenPixel(Clamped(c, k), amount) == Clamped(c, k + amount)
  {
    ClampedStep(c, k, amount);
    RegenClosedForm(Clamped(c, k), amount);
  }

  /** `c` with every colour channel lowered by `k` and alpha raised by `k`, clamped to [0, 1]. */
  function Clamped(c: Color, k: real): Color
  {
    Color(Max(c.r - k, 0.0), Max(c.g - k, 0.0), Max(c.b - k, 0.0), Min(c.a + k, 1.0))
  }

  lemma ClampedStep(c: Color, k: real, amount: real)
    requires 0.0 <= k && 0.0 <= amount && InUnit(c)
    ensures InUnit(Clamped(c, k))
    ensures Clamped(Clamped(c, k), amount) == Clamped(c, k + amount)
  {
  }

  /** Regeneration converges: once n*amount reaches 1, every in-range pixel is at rest. */
  lemma RegenConverges(c: Color, amount: real, n: nat)
    requires 0.0 < amount && InUnit(c)
    requires 1.0 <= n as real * amount
    ensures RegenSteps(c, amount, n) == OpaqueBlack
  {
    RegenStepsClosedForm(c, amount, n);
  }

  /** A pixel at rest stays there, with no oscillation. */
  lemma {:induction false} RegenStaysAtRest(amount: real, n: nat)
    ensures RegenSteps(OpaqueBlack, amount, n) == OpaqueBlack
  {
    if n > 0 {
      RegenStaysAtRest(amount, n - 1);
      RestIsFixedPoint(amount);
    }
  }

  /** The whole buffer after one regeneration pass. */
  function Regenerated(g: Grid, amount: real): (r: Grid)
    ensures |r| == |g| && Width(r) == Width(g)
  {
    seq(|g|, y requires 0 <= y < |g| => seq(|g[y]|, x requires 0 <= x < |g[y]| => RegenPixel(g[y][x], amount)))
  }

  /** Each pixel's new value depends only on its own old value. */
  lemma RegeneratedIsPixelwise(g: Grid, h: Grid, amount: real, x: int, y: int)
    requires InBounds(g, x, y) && InBounds(h, x, y) && g[y][x] == h[y][x]
    ensures Regenerated(g, amount)[y][x] == Regenerated(h, amount)[y][x]
  {
  }

  /** A buffer entirely at rest is unchanged by regeneration. */
  lemma RestingBufferIsFixed(w: nat, h: nat, amount: real)
    ensures Regenerated(Filled(w, h, OpaqueBlack), amount) == Filled(w, h, OpaqueBlack)
  {
    var g := Filled(w, h, OpaqueBlack);
    var r := Regenerated(g, amount);
    forall y | 0 <= y < h
      ensures r[y] == g[y]
    {
      RestIsFixedPoint(amount);
    }
  }
}
