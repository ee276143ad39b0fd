/** The growable RGB canvas `Picture`. */
module Canvas {
  import opened Colors
  import opened Raster

  /** A rectangular grid of gray levels: every row as long as the first, every level a channel value. */
  predicate IsGrayGrid(levels: seq<seq<int>>) {
    && (forall y :: 0 <= y < |levels| ==> |levels[y]| == |levels[0]|)
    && (forall y, x :: 0 <= y < |levels| && 0 <= x < |levels[y]| ==> IsChannel(levels[y][x]))
  }

  /** The width of a grid of gray levels: the length of its rows. */
  function GridWidth(levels: seq<seq<int>>): nat {
    if |levels| == 0 then 0 else |levels[0]|
  }

  /** (a, b) lies in the first `rows` rows of the rectangle `ow` pixels wide whose top
      left corner is (x, y). */
  predicate Pasted(x: int, y: int, ow: int, rows: int, a: int, b: int) {
    x <= a < x + ow && y <= b < y + rows
  }

  class Picture {
    var values: seq<Byte>
    var width: nat
    var height: nat

    /** The buffer holds three bytes for each of the width by height pixels. */
    ghost predicate Valid()
      reads this
    {
      Fits(values, width, height)
    }

    /** (x, y) is a point of this picture. */
    predicate Contains(x: int, y: int)
      reads this
    {
      InBounds(width, height, x, y)
    }

    /** The colour at (x, y), black outside the picture. */
    function ColorAt(x: int, y: int): RgbColor
      reads this
    {
      PixelOf(values, width, height, x, y)
    }

    /** An empty picture: no pixels, width and height 0. */
    constructor ()
      ensures Valid()
      ensures width == 0 && height == 0
    {
      values := [];
      width := 0;
      height := 0;
    }

    /** Constructs a `w` by `h` picture whose every pixel has colour `color`. */
    constructor Filled(w: int, h: int, color: RgbColor)
      requires 0 <= w && 0 <= h && ValidColor(color)
      ensures Valid()
      ensures width == w && height == h
      ensures forall x, y :: Contains(x, y) ==> ColorAt(x, y) == color
    {
      var buffer := Render(w, h, (a, b) => color);
      values := buffer;
      width := w;
      height := h;
    }

    /** Constructs a picture from gray levels, row `y` of `levels` becoming row `y` of the picture. */
    constructor FromGrays(levels: seq<seq<int>>)
      requires IsGrayGrid(levels)
      ensures Valid()
      ensures width == GridWidth(levels) && height == |levels|
      ensures forall x, y :: Contains(x, y) ==> ColorAt(x, y) == GrayColor(levels[y][x])
    {
      var w := GridWidth(levels);
      var buffer := Render(w, |levels|,
                           (a, b) => if 0 <= b < |levels| && 0 <= a < |levels[b]| then GrayColor(levels[b][a]) else Black);
      values := buffer;
      width := w;
      height := |levels|;
    }

    /** The width of this picture. */
    function Width(): (w: int)
      reads this
      requires Valid()
      ensures 0 <= w && |values| == 3 * w * height
    {
      width
    }

    /** The height of this picture. */
    function Height(): (h: int)
      reads this
      requires Valid()
      ensures 0 <= h && |values| == 3 * width * h
    {
      height
    }

    /** The red value at (x, y): a channel value, or 0 if (x, y) is not in the picture. */
    function Red(x: int, y: int): (v: int)
      reads this
      requires Valid()
      ensures IsChannel(v)
      ensures !Contains(x, y) ==> v == 0
    {
      ColorAt(x, y).r
    }

    /** The green value at (x, y): a channel value, or 0 if (x, y) is not in the picture. */
    function Green(x: int, y: int): (v: int)
      reads this
      requires Valid()
      ensures IsChannel(v)
      ensures !Contains(x, y) ==> v == 0
    {
      ColorAt(x, y).g
    }

    /** The blue value at (x, y): a channel value, or 0 if (x, y) is not in the picture. */
    function Blue(x: int, y: int): (v: int)
      reads this
      requires Valid()
      ensures IsChannel(v)
      ensures !Contains(x, y) ==> v == 0
    {
      ColorAt(x, y).b
    }

    /** Grows the picture, if it must, so that (x, y) is one of its points: to width
        x + 1 or height y + 1 and no further, keeping every pixel where it was. */
    method Ensure(x: int, y: int)
      requires Valid() && 0 <= x && 0 <= y
      modifies this
      ensures Valid()
      ensures width == Max(old(width), x + 1) && height == Max(old(height), y + 1)
      ensures forall a, b :: old(Contains(a, b)) ==> ColorAt(a, b) == old(ColorAt(a, b))
      ensures old(Contains(x, y)) ==> values == old(values)
    {
      if x < width && y < height {
        return;
      }
      var ow, oh, ov := width, height, values;
      var w, h := Max(ow, x + 1), Max(oh, y + 1);
      values := Render(w, h, (a, b) => if InBounds(ow, oh, a, b) then PixelOf(ov, ow, oh, a, b) else White);
      width, height := w, h;
    }

    /** Writes `color` at (x, y), first growing the picture just enough to contain that point. */
    method Set(x: int, y: int, color: RgbColor)
      requires Valid() && 0 <= x && 0 <= y && ValidColor(color)
      modifies this
      ensures Valid()
      ensures width == Max(old(width), x + 1) && height == Max(old(height), y + 1)
      ensures Contains(x, y)
      ensures Red(x, y) == color.r && Green(x, y) == color.g && Blue(x, y) == color.b
      ensures forall a, b :: old(Contains(a, b)) && (a, b) != (x, y) ==> ColorAt(a, b) == old(ColorAt(a, b))
    {
      Ensure(x, y);
      values := Painted(values, width, height, x, y, color);
    }

    /** The gray levels of all pixels: one row per row of the picture, one level per pixel,
        each between the darkest and the lightest channel of its pixel. */
    method Grays() returns (levels: seq<seq<int>>)
      requires Valid()
      ensures |levels| == height
      ensures forall y :: 0 <= y < height ==>
                |levels[y]| == width &&
                forall x :: 0 <= x < width ==> IsChannel(levels[y][x]) && IsGrayOf(levels[y][x], ColorAt(x, y))
    {
      levels := [];
      var y := 0;
      while y < height
        invariant 0 <= y <= height
        invariant |levels| == y
        invariant forall b :: 0 <= b < y ==>
                    |levels[b]| == width &&
                    forall a :: 0 <= a < width ==> levels[b][a] == Gray(ColorAt(a, b))
      {
        var row: seq<int> := [];
        var x := 0;
        while x < width
          invariant 0 <= x <= width
          invariant |row| == x
          invariant forall a :: 0 <= a < x ==> row[a] == Gray(ColorAt(a, y))
        {
          row := row + [Gray(ColorAt(x, y))];
          x := x + 1;
        }
        levels := levels + [row];
        y := y + 1;
      }
    }

    /** Pastes `other` with its top left corner at (x, y), first growing this picture to
        contain the pasted rectangle; pasted pixels replace what was there, every other
        pixel is kept. */
    method Add(other: Picture, x: int := 0, y: int := 0)
      requires Valid() && other.Valid() && 0 <= x && 0 <= y
      modifies this
      ensures Valid()
      ensures old(other.width) == 0 || old(other.height) == 0 ==>
                values == old(values) && width == old(width) && height == old(height)
      ensures old(other.width) > 0 && old(other.height) > 0 ==>
                width == Max(old(width), x + old(other.width)) && height == Max(old(height), y + old(other.height))
      ensures forall a, b :: x <= a < x + old(other.width) && y <= b < y + old(other.height) ==>
                ColorAt(a, b) == old(other.ColorAt(a - x, b - y))
      ensures forall a, b :: old(Contains(a, b)) && !(x <= a < x + old(other.width) && y <= b < y + old(other.height)) ==>
                ColorAt(a, b) == old(ColorAt(a, b))
      ensures other != this ==> other.values == old(other.values) && other.width == old(other.width) && other.height == old(other.height)
    {
      var src, ow, oh := other.values, other.width, other.height;
      if ow == 0 || oh == 0 {
        return;
      }
      Ensure(x + ow - 1, y + oh - 1);
      ghost var grown := values;
      var j := 0;
      while j < oh
        invariant 0 <= j <= oh
        invariant Valid()
        invariant width == Max(old(width), x + ow) && height == Max(old(height), y + oh)
        invariant forall a, b :: Pasted(x, y, ow, j, a, b) ==> ColorAt(a, b) == PixelOf(src, ow, oh, a - x, b - y)
        invariant forall a, b :: !Pasted(x, y, ow, j, a, b) ==> ColorAt(a, b) == PixelOf(grown, width, height, a, b)
      {
        PasteRow(src, ow, oh, x, y, j);
        j := j + 1;
      }
    }

    /** Copies row `j` of an `ow` by `oh` buffer `src` into row y + j of this picture,
        starting at column x; every other point reads as before. */
    method PasteRow(src: seq<Byte>, ow: nat, oh: nat, x: nat, y: nat, j: nat)
      requires Valid() && x + ow <= width && j < oh && y + j < height
      modifies this
      ensures Valid() && width == old(width) && height == old(height)
      ensures forall a, b :: ColorAt(a, b) ==
                if b == y + j && x <= a < x + ow then PixelOf(src, ow, oh, a - x, j) else old(ColorAt(a, b))
    {
      ghost var before := values;
      var i := 0;
      while i < ow
        invariant 0 <= i <= ow
        invariant Valid() && width == old(width) && height == old(height)
        invariant forall a, b :: PixelOf(values, width, height, a, b) ==
                    if b == y + j && x <= a < x + i then PixelOf(src, ow, oh, a - x, j) else PixelOf(before, width, height, a, b)
      {
        values := Painted(values, width, height, x + i, y + j, PixelOf(src, ow, oh, i, j));
        i := i + 1;
      }
    }
  }

  /** A picture built from a grid of gray levels gives back exactly that grid. */
  method GraysRoundTrip(levels: seq<seq<int>>) returns (back: seq<seq<int>>)
    requires IsGrayGrid(levels)
    ensures back == levels
  {
    var p := new Picture.FromGrays(levels);
    back := p.Grays();
    assert forall y :: 0 <= y < |levels| ==> back[y] == levels[y];
  }
}
