/**
  The engine's RGBA image as it is used by the fog: a fixed-size pixel buffer
  created once, filled, read and written pixel by pixel, and blended into.
*/
module Images {
  import opened Pixels

  /** `dst` with `src` blended in with its top-left corner at (dx, dy), clipped to `dst`. */
  function BlendInto(dst: Grid, src: Grid, dx: int, dy: int, blend: (Color, Color) -> Color): (r: Grid)
    ensures |r| == |dst| && Width(r) == Width(dst)
  {
    seq(|dst|, y requires 0 <= y < |dst| =>
      seq(|dst[y]|, x requires 0 <= x < |dst[y]| =>
        if InBounds(src, x - dx, y - dy) then blend(dst[y][x], src[y - dy][x - dx]) else dst[y][x]))
  }

  /** Whether destination pixel (x, y) lies under `src` placed at (dx, dy). */
  predicate Covers(src: Grid, dx: int, dy: int, x: int, y: int)
  {
    InBounds(src, x - dx, y - dy)
  }

  /**
    A 2-by-2 light placed at (1, 1) in a 4-by-4 buffer changes exactly the four
    pixels (1, 1), (2, 1), (1, 2) and (2, 2), each to the blend of the old pixel
    and the light's pixel.
  */
  lemma TwoByTwoAtOneOne(fog: Grid, light: Color, blend: (Color, Color) -> Color, x: int, y: int)
    requires |fog| == 4 && Width(fog) == 4 && 0 <= x < 4 && 0 <= y < 4
    ensures BlendInto(fog, Filled(2, 2, light), 1, 1, blend)[y][x] ==
      if 1 <= x <= 2 && 1 <= y <= 2 then blend(fog[y][x], light) else fog[y][x]
  {
    assert |fog[y]| == 4;
  }

  class Image {
    /** `data[y, x]` is the pixel in column x of row y. */
    const data: array2<Color>

    function Width(): nat
    {
      data.Length1
    }

    function Height(): nat
    {
      data.Length0
    }

    /** The pixels as a value. */
    ghost function Pixels(): (g: Grid)
      reads data
      ensures |g| == Height() && forall y :: 0 <= y < |g| ==> |g[y]| == Width()
      ensures forall y, x :: 0 <= y < Height() && 0 <= x < Width() ==> g[y][x] == data[y, x]
    {
      seq(data.Length0, y requires 0 <= y < data.Length0 reads data =>
        seq(data.Length1, x requires 0 <= x < data.Length1 reads data => data[y, x]))
    }

    /** A grid with this image's dimensions and, pixel by pixel, its contents is its value. */
    lemma PixelsAre(g: Grid)
      requires |g| == Height() && forall y :: 0 <= y < |g| ==> |g[y]| == Width()
      requires forall y, x :: 0 <= y < Height() && 0 <= x < Width() ==> data[y, x] == g[y][x]
      ensures Pixels() == g
    {
      var p := Pixels();
      forall y | 0 <= y < |g|
        ensures p[y] == g[y]
      {
      }
    }

    /**
      `Image::create_empty`: a w-by-h image of zeroed (transparent black) pixels.
      The engine refuses a non-positive size and leaves the image empty (0 by 0).
    */
    constructor CreateEmpty(w: int, h: int)
      ensures w > 0 && h > 0 ==> Width() == w && Height() == h
      ensures w <= 0 || h <= 0 ==> Width() == 0 && Height() == 0
      ensures fresh(data)
      ensures Pixels() == Filled(Width(), Height(), TransparentBlack)
    {
      if w > 0 && h > 0 {
        data := new Color[h, w]((_, _) => TransparentBlack);
      } else {
        data := new Color[0, 0];
      }
      new;
      PixelsAre(Filled(Width(), Height(), TransparentBlack));
    }

    /** `Image::fill`: every pixel becomes `c`. */
    method Fill(c: Color)
      modifies data
      ensures Pixels() == Filled(Width(), Height(), c)
    {
      for y := 0 to data.Length0
        invariant forall yy, xx :: 0 <= yy < y && 0 <= xx < data.Length1 ==> data[yy, xx] == c
      {
        for x := 0 to data.Length1
          invariant forall yy, xx :: 0 <= yy < y && 0 <= xx < data.Length1 ==> data[yy, xx] == c
          invariant forall xx :: 0 <= xx < x ==> data[y, xx] == c
        {
          data[y, x] := c;
        }
      }
      PixelsAre(Filled(Width(), Height(), c));
    }

    /**
      `Image::blend_rect` with the whole of `src` as source rectangle: every
      pixel of this image under `src` placed at (dx, dy) becomes
      `blend(old pixel, src pixel)`; pixels of `src` falling outside this image
      are clipped away, and all other pixels keep their value.
    */
    method BlendRect(src: Image, dx: int, dy: int, blend: (Color, Color) -> Color)
      requires src.data != data
      modifies data
      ensures Pixels() == BlendInto(old(Pixels()), src.Pixels(), dx, dy, blend)
    {
      ghost var before := Pixels();
      ghost var s := src.Pixels();
      var sw, sh := src.Width(), src.Height();
      // the destination rectangle clipped to this image
      var x0 := if dx < 0 then 0 else dx;
      var y0 := if dy < 0 then 0 else dy;
      var x1 := if dx + sw < data.Length1 then dx + sw else data.Length1;
      var y1 := if dy + sh < data.Length0 then dy + sh else data.Length0;
      var y := y0;
      while y < y1 && x0 < x1
        invariant y0 <= y && (y0 <= y1 ==> y <= y1)
        invariant Blended(before, s, dx, dy, blend, y, 0)
      {
        BlendRow(src, dx, dy, y, x0, x1, blend, before, s);
        y := y + 1;
      }
      BlendedAll(before, s, dx, dy, blend, y);
      PixelsAre(BlendInto(before, s, dx, dy, blend));
    }

    /**
      The pixels of `before` under `s` placed at (dx, dy) are blended in every
      row above y and in the first x columns of row y; all others keep their value.
    */
    ghost predicate Blended(before: Grid, s: Grid, dx: int, dy: int, blend: (Color, Color) -> Color, y: int, x: int)
      reads data
    {
      |before| == data.Length0 && (forall yy :: 0 <= yy < |before| ==> |before[yy]| == data.Length1) &&
      forall yy, xx :: 0 <= yy < data.Length0 && 0 <= xx < data.Length1 ==>
        data[yy, xx] == if (yy < y || (yy == y && xx < x)) && Covers(s, dx, dy, xx, yy)
                        then blend(before[yy][xx], s[yy - dy][xx - dx]) else before[yy][xx]
    }

    /** Blends the columns x0 up to x1 of row y, which are exactly the columns of that row under `src`. */
    method BlendRow(src: Image, dx: int, dy: int, y: int, x0: int, x1: int, blend: (Color, Color) -> Color,
                    ghost before: Grid, ghost s: Grid)
      requires src.data != data && s == src.Pixels()
      requires 0 <= y < data.Length0 && 0 <= y - dy < src.data.Length0
      requires 0 <= x0 <= x1 <= data.Length1
      requires x0 == (if dx < 0 then 0 else dx)
      requires x1 == (if dx + src.data.Length1 < data.Length1 then dx + src.data.Length1 else data.Length1)
      requires Blended(before, s, dx, dy, blend, y, 0)
      modifies data
      ensures Blended(before, s, dx, dy, blend, y + 1, 0)
    {
      BlendedSkip(before, s, dx, dy, blend, y, 0, x0);
      var x := x0;
      while x < x1
        invariant x0 <= x <= x1
        invariant Blended(before, s, dx, dy, blend, y, x)
      {
        assert 0 <= x - dx < src.data.Length1;
        data[y, x] := blend(data[y, x], src.data[y - dy, x - dx]);
        x := x + 1;
      }
      BlendedSkip(before, s, dx, dy, blend, y, x1, data.Length1);
      BlendedNextRow(before, s, dx, dy, blend, y);
    }

    /** Columns x up to x' of row y that are not under `s` need no work. */
    lemma BlendedSkip(before: Grid, s: Grid, dx: int, dy: int, blend: (Color, Color) -> Color, y: int, x: int, x': int)
      requires x <= x' && Blended(before, s, dx, dy, blend, y, x)
      requires forall xx :: x <= xx < x' ==> !Covers(s, dx, dy, xx, y)
      ensures Blended(before, s, dx, dy, blend, y, x')
    {
    }

    /** Once no pixel at or below row y is under `s`, every pixel is done. */
    lemma BlendedAll(before: Grid, s: Grid, dx: int, dy: int, blend: (Color, Color) -> Color, y: int)
      requires Blended(before, s, dx, dy, blend, y, 0)
      requires forall yy, xx :: y <= yy < data.Length0 && 0 <= xx < data.Length1 ==> !Covers(s, dx, dy, xx, yy)
      ensures forall yy, xx :: 0 <= yy < data.Length0 && 0 <= xx < data.Length1 ==>
        data[yy, xx] == BlendInto(before, s, dx, dy, blend)[yy][xx]
    {
      forall yy, xx | 0 <= yy < data.Length0 && 0 <= xx < data.Length1
        ensures data[yy, xx] == BlendInto(before, s, dx, dy, blend)[yy][xx]
      {
        assert BlendInto(before, s, dx, dy, blend)[yy][xx] ==
          if Covers(s, dx, dy, xx, yy) then blend(before[yy][xx], s[yy - dy][xx - dx]) else before[yy][xx];
      }
    }

    /** A row done to its last column is the start of the next row. */
    lemma BlendedNextRow(before: Grid, s: Grid, dx: int, dy: int, blend: (Color, Color) -> Color, y: int)
      requires Blended(before, s, dx, dy, blend, y, data.Length1)
      ensures Blended(before, s, dx, dy, blend, y + 1, 0)
    {
    }
  }
}
