/**
  The rotation and scaling of a light image to its sprite's orientation: the
  output is the bounding box of the scaled, rotated source, and every output
  pixel is inverse-mapped to a source pixel by nearest neighbour (floor).
*/
module LightTransform {
  import opened Numbers
  import opened Pixels

  datatype Vec2 = Vec2(x: real, y: real)

  /**
    A light's orientation: the cosine and sine of its global rotation, as the
    engine computes them, and its scale.
  */
  datatype Orientation = Orientation(cos: real, sin: real, scale: Vec2)

  /** A zero scale component is replaced by 1 before it is divided by. */
  function NonzeroScale(s: real): (r: real)
    ensures r != 0.0
    ensures s != 0.0 ==> r == s
  {
    if s == 0.0 then 1.0 else s
  }

  /** The orientation actually used: both scale components made non-zero. */
  function Effective(o: Orientation): (e: Orientation)
    ensures e.scale.x != 0.0 && e.scale.y != 0.0
  {
    Orientation(o.cos, o.sin, Vec2(NonzeroScale(o.scale.x), NonzeroScale(o.scale.y)))
  }

  /** Width of the rotated image: ceil(w*sx*|cos| + h*sy*|sin|). */
  function RotatedWidth(srcW: nat, srcH: nat, o: Orientation): (r: int)
    ensures 0.0 <= o.scale.x && 0.0 <= o.scale.y ==> 0 <= r
    ensures 0.0 < o.scale.x && 0.0 < o.scale.y && 0 < srcW && 0 < srcH && o.cos * o.cos + o.sin * o.sin == 1.0 ==> 1 <= r
  {
    ExtentSigns(srcW, srcH, o);
    Ceil(srcW as real * o.scale.x * Abs(o.cos) + srcH as real * o.scale.y * Abs(o.sin))
  }

  /** Height of the rotated image: ceil(w*sx*|sin| + h*sy*|cos|). */
  function RotatedHeight(srcW: nat, srcH: nat, o: Orientation): (r: int)
    ensures 0.0 <= o.scale.x && 0.0 <= o.scale.y ==> 0 <= r
    ensures 0.0 < o.scale.x && 0.0 < o.scale.y && 0 < srcW && 0 < srcH && o.cos * o.cos + o.sin * o.sin == 1.0 ==> 1 <= r
    // a further quarter turn swaps the sides of the box
    ensures r == RotatedWidth(srcW, srcH, Orientation(-o.sin, o.cos, o.scale))
  {
    ExtentSigns(srcW, srcH, o);
    assert Abs(-o.sin) == Abs(o.sin);
    Ceil(srcW as real * o.scale.x * Abs(o.sin) + srcH as real * o.scale.y * Abs(o.cos))
  }

  /**
    Both extents of the box are non-negative with non-negative scales, and
    positive for a non-empty source, positive scales and a true rotation.
  */
  lemma ExtentSigns(srcW: nat, srcH: nat, o: Orientation)
    ensures var a, b := srcW as real * o.scale.x, srcH as real * o.scale.y;
      (0.0 <= o.scale.x && 0.0 <= o.scale.y ==>
         0.0 <= a * Abs(o.cos) + b * Abs(o.sin) && 0.0 <= a * Abs(o.sin) + b * Abs(o.cos)) &&
      (0.0 < o.scale.x && 0.0 < o.scale.y && 0 < srcW && 0 < srcH && o.cos * o.cos + o.sin * o.sin == 1.0 ==>
         0.0 < a * Abs(o.cos) + b * Abs(o.sin) && 0.0 < a * Abs(o.sin) + b * Abs(o.cos))
  {
    var a, b := srcW as real * o.scale.x, srcH as real * o.scale.y;
    if 0.0 <= o.scale.x && 0.0 <= o.scale.y {
      MulNonnegative(srcW as real, o.scale.x);
      MulNonnegative(srcH as real, o.scale.y);
      SumNonnegative(a, b, Abs(o.cos), Abs(o.sin));
      SumNonnegative(a, b, Abs(o.sin), Abs(o.cos));
      if 0.0 < o.scale.x && 0.0 < o.scale.y && 0 < srcW && 0 < srcH && o.cos * o.cos + o.sin * o.sin == 1.0 {
        MulPositive(srcW as real, o.scale.x);
        MulPositive(srcH as real, o.scale.y);
        NotBothZero(o.cos, o.sin);
        SumPositive(a, b, Abs(o.cos), Abs(o.sin));
        SumPositive(a, b, Abs(o.sin), Abs(o.cos));
      }
    }
  }

  lemma NotBothZero(c: real, s: real)
    requires c * c + s * s == 1.0
    ensures c != 0.0 || s != 0.0
  {
  }

  lemma SumNonnegative(a: real, b: real, p: real, q: real)
    requires 0.0 <= a && 0.0 <= b && 0.0 <= p && 0.0 <= q
    ensures 0.0 <= a * p + b * q
  {
    MulNonnegative(a, p);
    MulNonnegative(b, q);
  }

  lemma SumPositive(a: real, b: real, p: real, q: real)
    requires 0.0 < a && 0.0 < b && 0.0 <= p && 0.0 <= q && (p != 0.0 || q != 0.0)
    ensures 0.0 < a * p + b * q
  {
    MulNonnegative(a, p);
    MulNonnegative(b, q);
    if p != 0.0 {
      MulPositive(a, p);
    } else {
      MulPositive(b, q);
    }
  }

  lemma MulNonnegative(a: real, b: real)
    requires 0.0 <= a && 0.0 <= b
    ensures 0.0 <= a * b
  {
  }

  lemma MulPositive(a: real, b: real)
    requires 0.0 < a && 0.0 < b
    ensures 0.0 < a * b
  {
  }

  /**
    The exact inverse image of destination pixel (x, y) in a dstW-by-dstH
    image: make it centre-relative, rotate it back by the light's rotation,
    undo the scale and re-centre it on the source.
  */
  function SourcePoint(srcW: nat, srcH: nat, dstW: int, dstH: int, o: Orientation, x: int, y: int): (real, real)
    requires o.scale.x != 0.0 && o.scale.y != 0.0
  {
    var relX := x as real - dstW as real / 2.0;
    var relY := y as real - dstH as real / 2.0;
    // rotation by minus the light's angle
    var rotX := relX * o.cos + relY * o.sin;
    var rotY := -relX * o.sin + relY * o.cos;
    (rotX / o.scale.x + srcW as real / 2.0, rotY / o.scale.y + srcH as real / 2.0)
  }

  /**
    Where a source point lands in the destination: re-centred on the source,
    scaled, rotated by the light's angle and re-centred on the destination.
  */
  function PlacedPoint(srcW: nat, srcH: nat, dstW: int, dstH: int, o: Orientation, sx: real, sy: real): (real, real)
  {
    var relX := (sx - srcW as real / 2.0) * o.scale.x;
    var relY := (sy - srcH as real / 2.0) * o.scale.y;
    (relX * o.cos - relY * o.sin + dstW as real / 2.0, relX * o.sin + relY * o.cos + dstH as real / 2.0)
  }

  /** For a true rotation (cos² + sin² = 1), the inverse map is undone by placing the point again. */
  lemma SourcePointIsPreimage(srcW: nat, srcH: nat, dstW: int, dstH: int, o: Orientation, x: int, y: int)
    requires o.scale.x != 0.0 && o.scale.y != 0.0
    requires o.cos * o.cos + o.sin * o.sin == 1.0
    ensures var (sx, sy) := SourcePoint(srcW, srcH, dstW, dstH, o, x, y);
      PlacedPoint(srcW, srcH, dstW, dstH, o, sx, sy) == (x as real, y as real)
  {
    var relX := x as real - dstW as real / 2.0;
    var relY := y as real - dstH as real / 2.0;
    var rotX := relX * o.cos + relY * o.sin;
    var rotY := -relX * o.sin + relY * o.cos;
    var (sx, sy) := SourcePoint(srcW, srcH, dstW, dstH, o, x, y);
    assert (sx - srcW as real / 2.0) * o.scale.x == rotX;
    assert (sy - srcH as real / 2.0) * o.scale.y == rotY;
    assert rotX * o.cos - rotY * o.sin == relX * (o.cos * o.cos + o.sin * o.sin);
    assert rotX * o.sin + rotY * o.cos == relY * (o.cos * o.cos + o.sin * o.sin);
    var k := o.cos * o.cos + o.sin * o.sin;
    assert relX * k == relX && relY * k == relY;
    var p := PlacedPoint(srcW, srcH, dstW, dstH, o, sx, sy);
    assert p.0 == rotX * o.cos - rotY * o.sin + dstW as real / 2.0;
    assert p.1 == rotX * o.sin + rotY * o.cos + dstH as real / 2.0;
    assert p.0 == x as real && p.1 == y as real;
  }

  /**
    The source pixel sampled for destination pixel (x, y): the one whose unit
    square holds the exact inverse image, by flooring each coordinate.
  */
  function SourceOf(srcW: nat, srcH: nat, dstW: int, dstH: int, o: Orientation, x: int, y: int): (r: (int, int))
    requires o.scale.x != 0.0 && o.scale.y != 0.0
    ensures var (px, py) := SourcePoint(srcW, srcH, dstW, dstH, o, x, y);
      r.0 as real <= px < r.0 as real + 1.0 && r.1 as real <= py < r.1 as real + 1.0
  {
    var (px, py) := SourcePoint(srcW, srcH, dstW, dstH, o, x, y);
    (px.Floor, py.Floor)
  }

  /** Destination pixel (x, y): the source pixel it maps to, or transparent black outside the source. */
  function Sample(src: Grid, dstW: int, dstH: int, o: Orientation, x: int, y: int): (c: Color)
    requires o.scale.x != 0.0 && o.scale.y != 0.0
    ensures c == TransparentBlack || exists yy, xx :: 0 <= yy < |src| && 0 <= xx < Width(src) && c == src[yy][xx]
  {
    var (sx, sy) := SourceOf(Width(src), |src|, dstW, dstH, o, x, y);
    if InBounds(src, sx, sy) then src[sy][sx] else TransparentBlack
  }

  /**
    The rotated image. A non-positive bounding box gives an empty image, since
    the engine refuses to create one of that size.
  */
  function RotateGrid(src: Grid, o: Orientation): (r: Grid)
    ensures var w, h := RotatedWidth(Width(src), |src|, Effective(o)), RotatedHeight(Width(src), |src|, Effective(o));
      if w <= 0 || h <= 0 then r == [] else |r| == h && Width(r) == w
  {
    var e := Effective(o);
    var w, h := RotatedWidth(Width(src), |src|, e), RotatedHeight(Width(src), |src|, e);
    if w <= 0 || h <= 0 then []
    else seq(h, y requires 0 <= y < h => seq(w, x requires 0 <= x < w => Sample(src, w, h, e, x, y)))
  }

  /**
    Every pixel of the rotated image is transparent black or a copy of the
    source pixel at its floored inverse-mapped coordinate, and it is a copy
    exactly when that coordinate lies inside the source.
  */
  lemma RotatedPixelOrigin(src: Grid, o: Orientation, x: int, y: int)
    requires InBounds(RotateGrid(src, o), x, y)
    ensures var r := RotateGrid(src, o);
      var (sx, sy) := SourceOf(Width(src), |src|, Width(r), |r|, Effective(o), x, y);
      (InBounds(src, sx, sy) ==> r[y][x] == src[sy][sx]) &&
      (!InBounds(src, sx, sy) ==> r[y][x] == TransparentBlack)
  {
  }

  /** A zero scale component acts exactly as a scale of 1. */
  lemma ZeroScaleActsAsOne(src: Grid, cos: real, sin: real, sx: real, sy: real)
    ensures RotateGrid(src, Orientation(cos, sin, Vec2(0.0, sy))) == RotateGrid(src, Orientation(cos, sin, Vec2(1.0, sy)))
    ensures RotateGrid(src, Orientation(cos, sin, Vec2(sx, 0.0))) == RotateGrid(src, Orientation(cos, sin, Vec2(sx, 1.0)))
  {
  }

  const Upright := Orientation(1.0, 0.0, Vec2(1.0, 1.0))

  /** With rotation 0 and scale (1, 1), the output has the source's size and pixels. */
  lemma UprightIsIdentity(src: Grid)
    requires |src| > 0 && Width(src) > 0
    ensures RotateGrid(src, Upright) == src
  {
    var w, h := Width(src), |src|;
    assert RotatedWidth(w, h, Upright) == w;
    assert RotatedHeight(w, h, Upright) == h;
    var r := RotateGrid(src, Upright);
    forall y | 0 <= y < h
      ensures r[y] == src[y]
    {
      forall x | 0 <= x < w
        ensures r[y][x] == src[y][x]
      {
        UprightMapsToItself(w, h, x, y);
      }
    }
  }

  lemma UprightMapsToItself(w: nat, h: nat, x: int, y: int)
    ensures SourceOf(w, h, w, h, Upright, x, y) == (x, y)
  {
    var relX := x as real - w as real / 2.0;
    var relY := y as real - h as real / 2.0;
    assert (relX * 1.0 + relY * 0.0) / 1.0 + w as real / 2.0 == x as real;
    assert (-relX * 0.0 + relY * 1.0) / 1.0 + h as real / 2.0 == y as real;
    assert (x as real).Floor == x;
    assert (y as real).Floor == y;
  }

  const Doubled := Orientation(1.0, 0.0, Vec2(2.0, 2.0))

  /** With rotation 0 and scale (2, 2), each source pixel becomes a 2-by-2 block. */
  lemma DoubleScaleRepeatsPixels(src: Grid, x: int, y: int)
    requires |src| > 0 && Width(src) > 0
    requires 0 <= y < 2 * |src| && 0 <= x < 2 * Width(src)
    ensures var r := RotateGrid(src, Doubled);
      |r| == 2 * |src| && Width(r) == 2 * Width(src) && r[y][x] == src[y / 2][x / 2]
  {
    var w, h := Width(src), |src|;
    assert RotatedWidth(w, h, Doubled) == 2 * w;
    assert RotatedHeight(w, h, Doubled) == 2 * h;
    DoubledMapsToHalf(w, h, x, y);
  }

  lemma DoubledMapsToHalf(w: nat, h: nat, x: int, y: int)
    ensures SourceOf(w, h, 2 * w, 2 * h, Doubled, x, y) == (x / 2, y / 2)
  {
    var relX := x as real - (2 * w) as real / 2.0;
    var relY := y as real - (2 * h) as real / 2.0;
    assert (relX * 1.0 + relY * 0.0) / 2.0 + w as real / 2.0 == x as real / 2.0;
    assert (-relX * 0.0 + relY * 1.0) / 2.0 + h as real / 2.0 == y as real / 2.0;
    HalfFloor(x);
    HalfFloor(y);
  }

  lemma HalfFloor(x: int)
    ensures (x as real / 2.0).Floor == x / 2
  {
    var q, m := x / 2, x % 2;
    assert x == 2 * q + m && 0 <= m < 2;
    assert x as real / 2.0 == q as real + m as real / 2.0;
  }

  /**
    A light mirrored by a negative scale, at rotation 0, gets a non-positive
    bounding box, so its rotated image is empty.
  */
  lemma MirroredLightIsEmpty(src: Grid, sx: real, sy: real)
    requires sx < 0.0 || sy < 0.0
    ensures RotateGrid(src, Orientation(1.0, 0.0, Vec2(sx, sy))) == []
  {
    var w, h := Width(src), |src|;
    var o := Orientation(1.0, 0.0, Vec2(sx, sy));
    if sx < 0.0 {
      assert w as real * sx * 1.0 + h as real * NonzeroScale(sy) * 0.0 <= 0.0;
      assert RotatedWidth(w, h, Effective(o)) <= 0;
    } else {
      assert w as real * NonzeroScale(sx) * 0.0 + h as real * sy * 1.0 <= 0.0;
      assert RotatedHeight(w, h, Effective(o)) <= 0;
    }
  }

  /**
    A rotated light can be mirrored and still get an image: a 2-by-4 source at
    cos 0.6, sin 0.8 and scale (-1, 1) has a 2-by-1 bounding box.
  */
  lemma RotatedMirroredLightIsNotEmpty(src: Grid)
    requires |src| == 4 && Width(src) == 2
    ensures var r := RotateGrid(src, Orientation(0.6, 0.8, Vec2(-1.0, 1.0)));
      |r| == 1 && Width(r) == 2
  {
    var o := Orientation(0.6, 0.8, Vec2(-1.0, 1.0));
    assert Effective(o) == o;
    assert RotatedWidth(2, 4, o) == 2;
    assert RotatedHeight(2, 4, o) == 1;
  }
}
