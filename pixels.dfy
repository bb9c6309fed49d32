/** Colours and rectangular pixel grids: the value view of a Godot `Image`. */
module Pixels {

  /** An RGBA colour with normalised float channels, as Godot's `Color`. */
  datatype Color = Color(r: real, g: real, b: real, a: real)

  /** The colour the fog buffer is filled with, and the rest state regeneration moves toward. */
  const OpaqueBlack := Color(0.0, 0.0, 0.0, 1.0)

  /** The colour a freshly created rotated light image is filled with. */
  const TransparentBlack := Color(0.0, 0.0, 0.0, 0.0)

  predicate IsRect(g: seq<seq<Color>>)
  {
    forall y :: 0 <= y < |g| ==> |g[y]| == |g[0]|
  }

  /** Rows of equal length; `g[y][x]` is the pixel in column x of row y. */
  type Grid = g: seq<seq<Color>> | IsRect(g) witness []

  function Width(g: Grid): nat
  {
    if |g| == 0 then 0 else |g[0]|
  }

  predicate InBounds(g: Grid, x: int, y: int)
  {
    0 <= y < |g| && 0 <= x < Width(g)
  }

  /** A w-by-h grid with every pixel `c` (what `Image::fill` leaves). */
  function Filled(w: nat, h: nat, c: Color): (r: Grid)
    ensures |r| == h && (h > 0 ==> Width(r) == w)
    ensures forall y, x :: 0 <= y < h && 0 <= x < w ==> r[y][x] == c
  {
    seq(h, _ => seq(w, _ => c))
  }
}
