/**
  The fog compositor as values: which lights contribute, where each rotated
  light image is placed in the fog buffer, and the buffer after blending the
  contributions in list order.
*/
module Composition {
  import opened Wrappers
  import opened Numbers
  import opened Pixels
  import opened Images
  import opened LightTransform

  /** World units per fog-buffer pixel. */
  const GridSize: int := 4

  /** A light's texture; `image` is what `get_image` returns (possibly nothing). */
  datatype Texture = Texture(image: Option<Grid>)

  /** A snapshot of a light sprite, as read during one tick. */
  datatype LightSprite = LightSprite(
    texture: Option<Texture>,
    globalPosition: Vec2,
    rotationCos: real,   // cosine of the global rotation
    rotationSin: real,   // sine of the global rotation
    scale: Vec2,
    offset: Vec2)

  /** An entry of the light group: a freed object, a node that is not a sprite, or a sprite. */
  datatype LightNode = Freed | NotSprite | Sprite(sprite: LightSprite)

  /** A rotated light image and its top-left corner in fog-buffer pixels. */
  datatype Placed = Placed(image: Grid, dx: int, dy: int)

  function OrientationOf(s: LightSprite): Orientation
  {
    Orientation(s.rotationCos, s.rotationSin, s.scale)
  }

  /** `GetRotatedLightImage` as a value: nothing without a texture image of positive size. */
  function RotatedLightImage(s: LightSprite): (r: Option<Grid>)
    ensures r.None? <==> (s.texture.None? || s.texture.value.image.None? ||
                          Width(s.texture.value.image.value) == 0 || |s.texture.value.image.value| == 0)
    ensures r.Some? ==>
      var src := s.texture.value.image.value;
      var e := Effective(OrientationOf(s));
      var w, h := RotatedWidth(Width(src), |src|, e), RotatedHeight(Width(src), |src|, e);
      (w <= 0 || h <= 0 ==> r.value == []) && (0 < w && 0 < h ==> |r.value| == h && Width(r.value) == w)
    // a true rotation with positive scales always gives a non-empty image
    ensures r.Some? && 0.0 < s.scale.x && 0.0 < s.scale.y && s.rotationCos * s.rotationCos + s.rotationSin * s.rotationSin == 1.0 ==>
      r.value != []
  {
    if s.texture.None? || s.texture.value.image.None? then None
    else
      var src := s.texture.value.image.value;
      if Width(src) == 0 || |src| == 0 then None
      else Some(RotateGrid(src, OrientationOf(s)))
  }

  /**
    The destination of a w-by-h rotated image, per axis
    round(position / GridSize - half size + offset * scale): the nearest pixel
    to the exact placement on each axis. The scale here is the sprite's own,
    zero components included.
  */
  function Destination(s: LightSprite, w: int, h: int): (d: (int, int))
    ensures Abs(d.0 as real - (s.globalPosition.x / 4.0 - w as real / 2.0 + s.offset.x * s.scale.x)) <= 0.5
    ensures Abs(d.1 as real - (s.globalPosition.y / 4.0 - h as real / 2.0 + s.offset.y * s.scale.y)) <= 0.5
  {
    (Round(s.globalPosition.x / GridSize as real - w as real * 0.5 + s.offset.x * s.scale.x),
     Round(s.globalPosition.y / GridSize as real - h as real * 0.5 + s.offset.y * s.scale.y))
  }

  /**
    What one light contributes: nothing when it is not a sprite, has no
    texture, no image of positive size, or a rotated image of zero size;
    otherwise its rotated image at its destination.
  */
  function Contribution(light: LightNode): (r: Option<Placed>)
    ensures r.Some? <==> light.Sprite? && RotatedLightImage(light.sprite).Some? && RotatedLightImage(light.sprite).value != []
    ensures r.Some? ==> (r.value.image == RotatedLightImage(light.sprite).value &&
                         (r.value.dx, r.value.dy) == Destination(light.sprite, Width(r.value.image), |r.value.image|))
  {
    if !light.Sprite? then None
    else
      var s := light.sprite;
      if s.texture.None? || s.texture.value.image.None? then None
      else
        var src := s.texture.value.image.value;
        if Width(src) == 0 || |src| == 0 then None
        else
          match RotatedLightImage(s)
          case None => None
          case Some(rot) =>
            if Width(rot) == 0 || |rot| == 0 then None
            else
              var (dx, dy) := Destination(s, Width(rot), |rot|);
              Some(Placed(rot, dx, dy))
  }

  /** The fog after one light. */
  function ApplyLight(fog: Grid, light: LightNode, blend: (Color, Color) -> Color): (r: Grid)
    ensures |r| == |fog| && Width(r) == Width(fog)
    ensures Contribution(light).None? ==> r == fog
    ensures Contribution(light).Some? ==>
      var p := Contribution(light).value;
      forall y, x :: 0 <= y < |fog| && 0 <= x < Width(fog) ==>
        r[y][x] == if Covers(p.image, p.dx, p.dy, x, y) then blend(fog[y][x], p.image[y - p.dy][x - p.dx]) else fog[y][x]
  {
    match Contribution(light)
    case None => fog
    case Some(p) => BlendInto(fog, p.image, p.dx, p.dy, blend)
  }

  /** The fog after every light of the list, the first light first. */
  function Composite(fog: Grid, lights: seq<LightNode>, blend: (Color, Color) -> Color): (r: Grid)
    ensures |r| == |fog| && Width(r) == Width(fog)
    decreases |lights|
  {
    if lights == [] then fog else Composite(ApplyLight(fog, lights[0], blend), lights[1..], blend)
  }

  /** Compositing two lists one after the other is compositing their concatenation: lights are applied strictly in order. */
  lemma {:induction false} CompositeAppend(fog: Grid, a: seq<LightNode>, b: seq<LightNode>, blend: (Color, Color) -> Color)
    ensures Composite(fog, a + b, blend) == Composite(Composite(fog, a, blend), b, blend)
    decreases |a|
  {
    if a == [] {
      assert a + b == b;
    } else {
      var next := ApplyLight(fog, a[0], blend);
      assert (a + b)[0] == a[0];
      assert (a + b)[1..] == a[1..] + b;
      assert Composite(fog, a + b, blend) == Composite(next, a[1..] + b, blend);
      CompositeAppend(next, a[1..], b, blend);
    }
  }

  /** The last light of a list is blended over the result of the others. */
  lemma CompositeSnoc(fog: Grid, lights: seq<LightNode>, light: LightNode, blend: (Color, Color) -> Color)
    ensures Composite(fog, lights + [light], blend) == ApplyLight(Composite(fog, lights, blend), light, blend)
  {
    CompositeAppend(fog, lights, [light], blend);
    assert Composite(Composite(fog, lights, blend), [light], blend)
        == Composite(ApplyLight(Composite(fog, lights, blend), light, blend), [], blend);
  }

  /** A light that contributes nothing can be removed from the list without changing the result. */
  lemma SkippedLightIsInvisible(fog: Grid, before: seq<LightNode>, light: LightNode, after: seq<LightNode>, blend: (Color, Color) -> Color)
    requires Contribution(light).None?
    ensures Composite(fog, before + [light] + after, blend) == Composite(fog, before + after, blend)
  {
    CompositeAppend(fog, before + [light], after, blend);
    CompositeSnoc(fog, before, light, blend);
    CompositeAppend(fog, before, after, blend);
  }

  /** The contributions of the lights that are not skipped, in list order. */
  function Placements(lights: seq<LightNode>): (ps: seq<Placed>)
    ensures |ps| <= |lights|
    ensures |ps| == |lights| <==> forall l :: l in lights ==> Contribution(l).Some?
    decreases |lights|
  {
    if lights == [] then []
    else
      match Contribution(lights[0])
      case None => Placements(lights[1..])
      case Some(p) => [p] + Placements(lights[1..])
  }

  /** Blending a list of placed images, the first one first. */
  function BlendAll(fog: Grid, ps: seq<Placed>, blend: (Color, Color) -> Color): Grid
    decreases |ps|
  {
    if ps == [] then fog else BlendAll(BlendInto(fog, ps[0].image, ps[0].dx, ps[0].dy, blend), ps[1..], blend)
  }

  /** Compositing the lights is blending exactly the contributions of the valid ones, in order. */
  lemma {:induction false} CompositeIsBlendOfPlacements(fog: Grid, lights: seq<LightNode>, blend: (Color, Color) -> Color)
    ensures Composite(fog, lights, blend) == BlendAll(fog, Placements(lights), blend)
    decreases |lights|
  {
    if lights != [] {
      CompositeIsBlendOfPlacements(ApplyLight(fog, lights[0], blend), lights[1..], blend);
      match Contribution(lights[0])
      case None =>
      case Some(p) =>
        var ps := [p] + Placements(lights[1..]);
        assert ps[0] == p && ps[1..] == Placements(lights[1..]);
    }
  }

  /** A fog pixel that no contributing light covers keeps its value. */
  lemma {:induction false} CompositeLeavesUncoveredPixels(fog: Grid, lights: seq<LightNode>, blend: (Color, Color) -> Color, x: int, y: int)
    requires InBounds(fog, x, y)
    requires forall i :: 0 <= i < |lights| && Contribution(lights[i]).Some? ==>
      !Covers(Contribution(lights[i]).value.image, Contribution(lights[i]).value.dx, Contribution(lights[i]).value.dy, x, y)
    ensures Composite(fog, lights, blend)[y][x] == fog[y][x]
    decreases |lights|
  {
    if lights != [] {
      var next := ApplyLight(fog, lights[0], blend);
      assert next[y][x] == fog[y][x] by {
        assert Contribution(lights[0]).Some? ==>
          !Covers(Contribution(lights[0]).value.image, Contribution(lights[0]).value.dx, Contribution(lights[0]).value.dy, x, y);
      }
      forall i | 0 <= i < |lights[1..]| && Contribution(lights[1..][i]).Some?
        ensures !Covers(Contribution(lights[1..][i]).value.image, Contribution(lights[1..][i]).value.dx, Contribution(lights[1..][i]).value.dy, x, y)
      {
        assert lights[1..][i] == lights[i + 1];
      }
      CompositeLeavesUncoveredPixels(next, lights[1..], blend, x, y);
    }
  }

  /** Whether two placed images cover no common pixel. */
  predicate Disjoint(p: Placed, q: Placed)
  {
    p.dx + Width(p.image) <= q.dx || q.dx + Width(q.image) <= p.dx ||
    p.dy + |p.image| <= q.dy || q.dy + |q.image| <= p.dy
  }

  /** Two lights whose images do not overlap may be blended in either order. */
  lemma DisjointBlendsCommute(fog: Grid, p: Placed, q: Placed, blend: (Color, Color) -> Color)
    requires Disjoint(p, q)
    ensures BlendInto(BlendInto(fog, p.image, p.dx, p.dy, blend), q.image, q.dx, q.dy, blend)
         == BlendInto(BlendInto(fog, q.image, q.dx, q.dy, blend), p.image, p.dx, p.dy, blend)
  {
    var pq := BlendInto(BlendInto(fog, p.image, p.dx, p.dy, blend), q.image, q.dx, q.dy, blend);
    var qp := BlendInto(BlendInto(fog, q.image, q.dx, q.dy, blend), p.image, p.dx, p.dy, blend);
    forall y | 0 <= y < |fog|
      ensures pq[y] == qp[y]
    {
      forall x | 0 <= x < |fog[y]|
        ensures pq[y][x] == qp[y][x]
      {
        assert !(Covers(p.image, p.dx, p.dy, x, y) && Covers(q.image, q.dx, q.dy, x, y));
      }
    }
  }
}
