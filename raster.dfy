/** The layout of a picture's byte buffer: `w` by `h` pixels stored row by row, each
    pixel as three consecutive bytes red, green, blue, origin at the top left. */
module Raster {
  import opened Colors

  /** One element of the buffer (an `unsigned char`). */
  type Byte = v: int | 0 <= v < 256

  function Max(a: int, b: int): int {
    if a >= b then a else b
  }

  /** (x, y) is a pixel of a `w` by `h` picture. */
  predicate InBounds(w: int, h: int, x: int, y: int) {
    0 <= x < w && 0 <= y < h
  }

  /** The buffer holds exactly three bytes per pixel. */
  predicate Fits(values: seq<Byte>, w: nat, h: nat) {
    |values| == 3 * w * h
  }

  /** Index of the red byte of pixel (x, y) in a buffer whose rows are `w` pixels wide. */
  function Offset(w: nat, x: nat, y: nat): nat {
    3 * (y * w + x)
  }

  lemma {:induction false} MulMonotone(a: nat, b: nat, w: nat)
    requires a <= b
    ensures a * w <= b * w
    decreases b - a
  {
    if a < b {
      MulMonotone(a + 1, b, w);
      assert (a + 1) * w == a * w + w;
    }
  }

  /** Every pixel of the picture lies wholly inside a buffer that fits it. */
  lemma OffsetBound(w: nat, h: nat, x: nat, y: nat)
    requires InBounds(w, h, x, y)
    ensures Offset(w, x, y) + 3 <= 3 * w * h
  {
    MulMonotone(y + 1, h, w);
    assert (y + 1) * w == y * w + w;
    assert h * w == w * h;
  }

  /** Distinct pixels of one row width occupy disjoint byte triples. */
  lemma OffsetsApart(w: nat, x1: nat, y1: nat, x2: nat, y2: nat)
    requires x1 < w && x2 < w && (x1, y1) != (x2, y2)
    ensures Offset(w, x1, y1) + 3 <= Offset(w, x2, y2) || Offset(w, x2, y2) + 3 <= Offset(w, x1, y1)
  {
    if y1 < y2 {
      MulMonotone(y1 + 1, y2, w);
      assert (y1 + 1) * w == y1 * w + w;
    } else if y2 < y1 {
      MulMonotone(y2 + 1, y1, w);
      assert (y2 + 1) * w == y2 * w + w;
    }
  }

  /** The colour stored at pixel (x, y) of a buffer that holds at least that pixel. */
  function At(values: seq<Byte>, w: nat, x: nat, y: nat): RgbColor
    requires Offset(w, x, y) + 3 <= |values|
  {
    var o := Offset(w, x, y);
    RgbColor(values[o], values[o + 1], values[o + 2])
  }

  /** Appending bytes leaves the pixels already stored as they were. */
  lemma AtPrefix(values: seq<Byte>, more: seq<Byte>, w: nat, x: nat, y: nat)
    requires Offset(w, x, y) + 3 <= |values|
    ensures At(values + more, w, x, y) == At(values, w, x, y)
  {
  }

  /** The colour of pixel (x, y) of a `w` by `h` picture, black for a point outside it. */
  function PixelOf(values: seq<Byte>, w: nat, h: nat, x: int, y: int): (c: RgbColor)
    ensures ValidColor(c)
  {
    if InBounds(w, h, x, y) && Offset(w, x, y) + 3 <= |values| then At(values, w, x, y) else Black
  }

  /** The bytes of row `y` of a `w`-pixel-wide picture, pixel (x, y) coloured `paint(x, y)`,
      laid out as row 0 of a buffer of their own. */
  method RenderRow(w: nat, y: int, paint: (int, int) -> RgbColor) returns (row: seq<Byte>)
    requires forall x, y :: ValidColor(paint(x, y))
    ensures |row| == 3 * w
    ensures forall x :: 0 <= x < w ==> Offset(w, x, 0) + 3 <= |row| && At(row, w, x, 0) == paint(x, y)
  {
    row := [];
    var x := 0;
    while x < w
      invariant 0 <= x <= w
      invariant |row| == 3 * x
      invariant forall a :: 0 <= a < x ==> Offset(w, a, 0) + 3 <= |row| && At(row, w, a, 0) == paint(a, y)
    {
      var c := paint(x, y);
      var triple: seq<Byte> := [c.r, c.g, c.b];
      forall a | 0 <= a < x
        ensures At(row + triple, w, a, 0) == At(row, w, a, 0)
      {
        AtPrefix(row, triple, w, a, 0);
      }
      row := row + triple;
      x := x + 1;
    }
  }

  /** A row appended after `y` full rows becomes row `y` of the buffer. */
  lemma AtNextRow(values: seq<Byte>, row: seq<Byte>, w: nat, x: nat, y: nat)
    requires |values| == 3 * (y * w) && Offset(w, x, 0) + 3 <= |row|
    ensures Offset(w, x, y) + 3 <= |values + row|
    ensures At(values + row, w, x, y) == At(row, w, x, 0)
  {
  }

  /** A buffer of `w` by `h` pixels, pixel (x, y) coloured `paint(x, y)`, built row by row. */
  method Render(w: nat, h: nat, paint: (int, int) -> RgbColor) returns (values: seq<Byte>)
    requires forall x, y :: ValidColor(paint(x, y))
    ensures Fits(values, w, h)
    ensures forall x, y :: InBounds(w, h, x, y) ==> PixelOf(values, w, h, x, y) == paint(x, y)
  {
    values := [];
    var y := 0;
    while y < h
      invariant 0 <= y <= h
      invariant |values| == 3 * (y * w)
      invariant forall a, b :: 0 <= a < w && 0 <= b < y ==>
                  Offset(w, a, b) + 3 <= |values| && At(values, w, a, b) == paint(a, b)
    {
      var row := RenderRow(w, y, paint);
      forall a, b | 0 <= a < w && 0 <= b < y
        ensures At(values + row, w, a, b) == At(values, w, a, b)
      {
        AtPrefix(values, row, w, a, b);
      }
      forall a | 0 <= a < w
        ensures Offset(w, a, y) + 3 <= |values + row| && At(values + row, w, a, y) == paint(a, y)
      {
        AtNextRow(values, row, w, a, y);
      }
      assert (y + 1) * w == y * w + w;
      values := values + row;
      y := y + 1;
    }
    assert h * w == w * h;
    forall x, y | InBounds(w, h, x, y)
      ensures PixelOf(values, w, h, x, y) == paint(x, y)
    {
      OffsetBound(w, h, x, y);
    }
  }

  /** The buffer with pixel (x, y) painted `c`: that pixel reads back `c` and every other
      point, inside the picture or not, reads as before. */
  function Painted(values: seq<Byte>, w: nat, h: nat, x: nat, y: nat, c: RgbColor): (painted: seq<Byte>)
    requires Fits(values, w, h) && InBounds(w, h, x, y) && ValidColor(c)
    ensures Fits(painted, w, h)
    ensures PixelOf(painted, w, h, x, y) == c
    ensures forall a, b :: (a, b) != (x, y) ==> PixelOf(painted, w, h, a, b) == PixelOf(values, w, h, a, b)
  {
    OffsetBound(w, h, x, y);
    var o := Offset(w, x, y);
    var painted := values[o := c.r][o + 1 := c.g][o + 2 := c.b];
    OthersUntouched(values, painted, w, h, x, y);
    painted
  }

  /** A write confined to the bytes of pixel (x, y) changes no other pixel. */
  lemma OthersUntouched(values: seq<Byte>, painted: seq<Byte>, w: nat, h: nat, x: nat, y: nat)
    requires Fits(values, w, h) && InBounds(w, h, x, y) && |painted| == |values|
    requires forall k :: 0 <= k < |values| && !(Offset(w, x, y) <= k < Offset(w, x, y) + 3) ==> painted[k] == values[k]
    ensures forall a, b :: (a, b) != (x, y) ==> PixelOf(painted, w, h, a, b) == PixelOf(values, w, h, a, b)
  {
    forall a, b | (a, b) != (x, y)
      ensures PixelOf(painted, w, h, a, b) == PixelOf(values, w, h, a, b)
    {
      if InBounds(w, h, a, b) {
        OffsetBound(w, h, a, b);
        OffsetsApart(w, a, b, x, y);
      }
    }
  }
}
