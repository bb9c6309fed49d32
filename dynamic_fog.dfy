/**
  The DynamicFog2D node: it owns the fog buffer, creates it once when the node
  becomes ready, and on every processed frame regenerates it, blends the
  group's lights into it and republishes it to the fog sprite.
*/
module DynamicFog {
  import opened Wrappers
  import opened Numbers
  import opened Pixels
  import opened Regeneration
  import opened Images
  import opened LightTransform
  import opened Composition

  const DefaultDisplayWidth: int := 1152
  const DefaultDisplayHeight: int := 648
  const DefaultFogRegenRate: real := 3.0

  /** C++ integer division, which truncates toward zero. */
  function TruncDiv(a: int, b: int): (q: int)
    requires b > 0
    ensures 0 <= a ==> q * b <= a < q * b + b
    ensures a < 0 ==> q <= 0
    ensures a < 0 ==> q * b - b < a <= q * b
  {
    if a >= 0 then a / b else -((-a) / b)
  }

  /**
    One side of the fog buffer: the display side divided by GridSize, or 1 when
    that quotient is not positive.
  */
  function FogDimension(display: int): (n: int)
    ensures 1 <= n
    ensures GridSize <= display ==> n * GridSize <= display < n * GridSize + GridSize
    ensures display < GridSize ==> n == 1
  {
    var q := TruncDiv(display, GridSize);
    if q > 0 then q else 1
  }

  /** With the default display size the fog buffer is 288 by 162. */
  lemma DefaultFogSize()
    ensures FogDimension(DefaultDisplayWidth) == 288 && FogDimension(DefaultDisplayHeight) == 162
  {
  }

  class DynamicFog2D {
    var displayWidth: int
    var displayHeight: int
    var fogRegenRate: real
    var lightGroup: string

    /** Whether the child sprite named "Fog" was found (`fog_sprite` is not null). */
    var hasFogSprite: bool
    var fogSpriteVisible: bool
    /** `fog_image`; null until the node becomes ready outside the editor. */
    var fogImage: Image?
    /** Whether the engine calls `Process` every frame (`set_process`). */
    var processing: bool
    /** How many times the buffer was handed to the fog sprite as a new texture. */
    var publishCount: nat
    /** The pixels of the texture last handed to the fog sprite. */
    ghost var displayed: Grid

    /** While the node processes frames, it has a fog sprite and a buffer of at least 1 by 1. */
    ghost predicate Valid()
      reads this
    {
      processing ==> hasFogSprite && fogImage != null && fogImage.Width() >= 1 && fogImage.Height() >= 1
    }

    ghost function BufferFrame(): set<object>
      reads this
    {
      if fogImage == null then {} else {fogImage.data}
    }

    /** Whether `UpdateFog` gets past its early returns for this light list. */
    ghost predicate UpdateRuns(lights: seq<LightNode>)
      reads this
    {
      lightGroup != "" && fogImage != null && hasFogSprite &&
      fogImage.Width() > 0 && fogImage.Height() > 0 && lights != []
    }

    /** The field defaults. */
    constructor ()
      ensures displayWidth == DefaultDisplayWidth && displayHeight == DefaultDisplayHeight
      ensures fogRegenRate == DefaultFogRegenRate && lightGroup == ""
      ensures !hasFogSprite && !fogSpriteVisible && fogImage == null && !processing && publishCount == 0
      ensures Valid()
    {
      displayWidth, displayHeight := DefaultDisplayWidth, DefaultDisplayHeight;
      fogRegenRate, lightGroup := DefaultFogRegenRate, "";
      hasFogSprite, fogSpriteVisible := false, false;
      fogImage, processing, publishCount := null, false, 0;
      displayed := [];
    }

    /**
      `_ready`. Without a "Fog" sprite, or inside the editor, processing is
      switched off and no buffer is created. Otherwise the buffer is created at
      the clamped size, filled with opaque black, published, and processing is
      switched on.
    */
    method Ready(editorHint: bool, fogChildIsSprite: bool)
      modifies this
      ensures displayWidth == old(displayWidth) && displayHeight == old(displayHeight)
      ensures fogRegenRate == old(fogRegenRate) && lightGroup == old(lightGroup)
      ensures hasFogSprite == fogChildIsSprite
      ensures !fogChildIsSprite || editorHint ==>
        !processing && fogImage == old(fogImage) && publishCount == old(publishCount) &&
        fogSpriteVisible == old(fogSpriteVisible) && displayed == old(displayed)
      ensures fogChildIsSprite && !editorHint ==>
        processing && fogImage != null && fresh(fogImage) && fresh(fogImage.data) &&
        fogImage.Pixels() == Filled(FogDimension(displayWidth), FogDimension(displayHeight), OpaqueBlack) &&
        publishCount == old(publishCount) + 1 && fogSpriteVisible && displayed == fogImage.Pixels()
      ensures Valid()
    {
      hasFogSprite := fogChildIsSprite;
      if !hasFogSprite {
        processing := false;
        return;
      }
      if editorHint {
        processing := false;
        return;
      }
      var w := TruncDiv(displayWidth, GridSize);
      var h := TruncDiv(displayHeight, GridSize);
      w := if w > 0 then w else 1;
      h := if h > 0 then h else 1;
      var image := new Image.CreateEmpty(w, h);
      image.Fill(OpaqueBlack);
      fogImage := image;
      UpdateFogTexture();
      processing := true;
    }

    /** `_process`: regenerate, then blend the lights in and republish. */
    method Process(deltaTime: real, lights: seq<LightNode>, blend: (Color, Color) -> Color)
      requires Valid()
      modifies this`publishCount, this`fogSpriteVisible, this`displayed, BufferFrame()
      ensures Valid()
      // a processing node with a light group and some lights always gets past the early returns
      ensures processing && lightGroup != "" && lights != [] ==> old(UpdateRuns(lights))
      ensures old(UpdateRuns(lights)) ==>
        fogImage.Pixels() == Composite(Regenerated(old(fogImage.Pixels()), old(fogRegenRate) * deltaTime), lights, blend)
      ensures !old(UpdateRuns(lights)) && fogImage != null ==>
        fogImage.Pixels() == Regenerated(old(fogImage.Pixels()), old(fogRegenRate) * deltaTime)
      ensures publishCount == old(publishCount) + if old(UpdateRuns(lights)) then 1 else 0
      ensures old(UpdateRuns(lights)) ==> fogSpriteVisible && displayed == fogImage.Pixels()
      ensures !old(UpdateRuns(lights)) ==> fogSpriteVisible == old(fogSpriteVisible) && displayed == old(displayed)
    {
      RegenerateFog(deltaTime);
      UpdateFog(lights, blend);
    }

    /** `RegenerateFog`: one regeneration pass over the buffer by rate times elapsed time. */
    method RegenerateFog(deltaTime: real)
      requires Valid()
      modifies BufferFrame()
      ensures Valid()
      ensures fogImage != null ==> fogImage.Pixels() == Regenerated(old(fogImage.Pixels()), old(fogRegenRate) * deltaTime)
    {
      if fogImage == null {
        return;
      }
      var image := fogImage;
      var width, height := image.Width(), image.Height();
      if width <= 0 || height <= 0 {
        image.PixelsAre(Regenerated(image.Pixels(), fogRegenRate * deltaTime));
        return;
      }
      var amount := fogRegenRate * deltaTime;
      ghost var before := image.Pixels();
      for y := 0 to height
        invariant forall yy, xx :: 0 <= yy < height && 0 <= xx < width ==>
          image.data[yy, xx] == if yy < y then RegenPixel(before[yy][xx], amount) else before[yy][xx]
      {
        for x := 0 to width
          invariant forall yy, xx :: 0 <= yy < height && 0 <= xx < width ==>
            image.data[yy, xx] == if yy < y || (yy == y && xx < x) then RegenPixel(before[yy][xx], amount) else before[yy][xx]
        {
          var c := image.data[y, x];
          c := Color(MoveToward(c.r, 0.0, amount), MoveToward(c.g, 0.0, amount),
                     MoveToward(c.b, 0.0, amount), MoveToward(c.a, 1.0, amount));
          image.data[y, x] := c;
        }
      }
      image.PixelsAre(Regenerated(before, amount));
    }

    /**
      `UpdateFog`: unless the light group is empty, the buffer or the fog
      sprite is missing, or there are no lights, blend every light's
      contribution in list order and republish the buffer once afterwards.
    */
    method UpdateFog(lights: seq<LightNode>, blend: (Color, Color) -> Color)
      requires Valid()
      modifies this`publishCount, this`fogSpriteVisible, this`displayed, BufferFrame()
      ensures Valid()
      ensures old(UpdateRuns(lights)) ==> fogImage.Pixels() == Composite(old(fogImage.Pixels()), lights, blend)
      ensures !old(UpdateRuns(lights)) && fogImage != null ==> fogImage.Pixels() == old(fogImage.Pixels())
      ensures publishCount == old(publishCount) + if old(UpdateRuns(lights)) then 1 else 0
      ensures !old(UpdateRuns(lights)) ==> fogSpriteVisible == old(fogSpriteVisible) && displayed == old(displayed)
      ensures old(UpdateRuns(lights)) ==> fogSpriteVisible && displayed == fogImage.Pixels()
    {
      if lightGroup == "" || fogImage == null || !hasFogSprite {
        return;
      }
      var image := fogImage;
      if image.Width() <= 0 || image.Height() <= 0 {
        return;
      }
      if lights == [] {
        return;
      }
      BlendLights(image, lights, blend);
      UpdateFogTexture();
    }

    /** The light loop of `UpdateFog`: every light of the list, in order. */
    method BlendLights(image: Image, lights: seq<LightNode>, blend: (Color, Color) -> Color)
      modifies image.data
      ensures image.Pixels() == Composite(old(image.Pixels()), lights, blend)
    {
      ghost var before := image.Pixels();
      for i := 0 to |lights|
        invariant image.Pixels() == Composite(before, lights[..i], blend)
      {
        CompositeSnoc(before, lights[..i], lights[i], blend);
        assert lights[..i + 1] == lights[..i] + [lights[i]];
        BlendLight(image, lights[i], blend);
      }
      assert lights[..|lights|] == lights;
    }

    /**
      One iteration of the light loop of `UpdateFog`: a light that is not a
      sprite, has no texture image, has an empty one or rotates to nothing is
      skipped; otherwise its rotated image is blended in at its destination.
    */
    method BlendLight(image: Image, light: LightNode, blend: (Color, Color) -> Color)
      modifies image.data
      ensures image.Pixels() == ApplyLight(old(image.Pixels()), light, blend)
    {
      if !light.Sprite? {
        return;
      }
      var sprite := light.sprite;
      if sprite.texture.None? {
        return;
      }
      var lightImage := sprite.texture.value.image;
      if lightImage.None? || Width(lightImage.value) == 0 || |lightImage.value| == 0 {
        return;
      }
      var rotated := GetRotatedLightImage(sprite);
      if rotated == null {
        return;
      }
      var lightWidth, lightHeight := rotated.Width(), rotated.Height();
      if lightWidth <= 0 || lightHeight <= 0 {
        return;
      }
      var (dx, dy) := Destination(sprite, lightWidth, lightHeight);
      image.BlendRect(rotated, dx, dy, blend);
    }

    /**
      `GetRotatedLightImage`: nothing without a texture image of positive
      size; otherwise a fresh image of the rotated bounding box, filled with
      transparent black, in which each pixel whose inverse-mapped source
      coordinate lies inside the source is copied from there.
    */
    method GetRotatedLightImage(light: LightSprite) returns (r: Image?)
      ensures r == null <==> RotatedLightImage(light).None?
      ensures r != null ==> fresh(r) && fresh(r.data) && r.Pixels() == RotatedLightImage(light).value
    {
      if light.texture.None? {
        return null;
      }
      var sourceImage := light.texture.value.image;
      if sourceImage.None? {
        return null;
      }
      var source := sourceImage.value;
      var srcWidth, srcHeight := Width(source), |source|;
      if srcWidth <= 0 || srcHeight <= 0 {
        return null;
      }
      var o := Effective(OrientationOf(light));
      var rotatedWidth := RotatedWidth(srcWidth, srcHeight, o);
      var rotatedHeight := RotatedHeight(srcWidth, srcHeight, o);
      r := new Image.CreateEmpty(rotatedWidth, rotatedHeight);
      r.Fill(TransparentBlack);
      var y := 0;
      while y < rotatedHeight
        invariant 0 <= y && (0 <= rotatedHeight ==> y <= rotatedHeight)
        invariant fresh(r) && fresh(r.data)
        invariant forall yy, xx :: 0 <= yy < r.Height() && 0 <= xx < r.Width() ==>
          r.data[yy, xx] == if yy < y then Sample(source, rotatedWidth, rotatedHeight, o, xx, yy) else TransparentBlack
      {
        SampleRow(r, source, o, rotatedWidth, rotatedHeight, y);
        y := y + 1;
      }
      r.PixelsAre(RotateGrid(source, OrientationOf(light)));
    }

    /** Copies the in-bounds source pixels into row y of `r`, a w-by-h image still transparent in that row. */
    method SampleRow(r: Image, source: Grid, o: Orientation, w: int, h: int, y: int)
      requires o.scale.x != 0.0 && o.scale.y != 0.0
      requires w > 0 && h > 0 ==> r.Width() == w && r.Height() == h
      requires w <= 0 || h <= 0 ==> r.Width() == 0 && r.Height() == 0
      requires 0 <= y < h
      requires forall xx :: 0 <= xx < r.Width() && y < r.Height() ==> r.data[y, xx] == TransparentBlack
      modifies r.data
      ensures forall yy, xx :: 0 <= yy < r.Height() && 0 <= xx < r.Width() ==>
        r.data[yy, xx] == if yy == y then Sample(source, w, h, o, xx, yy) else old(r.data[yy, xx])
    {
      var x := 0;
      while x < w
        invariant 0 <= x && (0 <= w ==> x <= w)
        invariant forall yy, xx :: 0 <= yy < r.Height() && 0 <= xx < r.Width() ==>
          r.data[yy, xx] == if yy == y && xx < x then Sample(source, w, h, o, xx, yy) else old(r.data[yy, xx])
      {
        var (sx, sy) := SourceOf(Width(source), |source|, w, h, o, x, y);
        if 0 <= sx < Width(source) && 0 <= sy < |source| {
          r.data[y, x] := source[sy][sx];
        }
        x := x + 1;
      }
    }

    /** `UpdateFogTexture`: hand the buffer to the fog sprite and show it, when both exist. */
    method UpdateFogTexture()
      requires Valid()
      modifies this`publishCount, this`fogSpriteVisible, this`displayed
      ensures Valid()
      ensures var runs := hasFogSprite && fogImage != null && fogImage.Width() > 0 && fogImage.Height() > 0;
        publishCount == old(publishCount) + (if runs then 1 else 0) &&
        (runs ==> fogSpriteVisible && displayed == fogImage.Pixels()) &&
        (!runs ==> fogSpriteVisible == old(fogSpriteVisible) && displayed == old(displayed))
    {
      if !hasFogSprite || fogImage == null {
        return;
      }
      if fogImage.Width() <= 0 || fogImage.Height() <= 0 {
        return;
      }
      publishCount := publishCount + 1;
      displayed := fogImage.Pixels();
      fogSpriteVisible := true;
    }
  }
}
