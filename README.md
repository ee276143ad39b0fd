# Picture canvas model

This project models the `Picture` class of the orbital-simulation renderer
(`include/picture.h`): a growable RGB raster. A picture keeps a flat buffer of
unsigned bytes (`_values`) and an explicit width and height (`_width`,
`_height`). Its operations are:

- three constructors: an empty picture, a picture filled with one colour, and a
  picture built from a grid of gray levels;
- the `red`, `green` and `blue` reads, which give 0 for any point outside the
  picture;
- `set`, which writes one pixel, growing the picture through the private
  `ensure` helper when the pixel lies past its right or bottom edge;
- `add`, which pastes another picture at an offset and grows this one as needed;
- `grays`, which exports one gray level per pixel.

The model is written in three modules:

- `Colors` (`colors.dfy`): the `rgbColor` struct (include/picture.h:9-13) as the
  datatype `RgbColor`, with `White` as the colour its member defaults of 255
  give. Neither has a contract, so neither has a row in the table below. The
  module also holds the gray-level conversion.
- `Raster` (`raster.dfy`): the buffer layout. A `w` by `h` picture takes
  `3 * w * h` bytes, row by row, each pixel as red, green, blue. This module also
  has `Render`, the loop that fills a fresh buffer pixel by pixel, and `Painted`,
  the in-place write of one pixel.
- `Canvas` (`picture.dfy`): the class `Picture`. Its fields are `values` (a
  `seq<Byte>`, where `Byte` is 0..255 like `unsigned char`), `width` and
  `height`.

The class invariant `Valid()` says `|values| == 3 * width * height`. Every
constructor establishes it and every method keeps it. `ColorAt(x, y)` is the
abstract reading of the buffer that the contracts are stated in. `Set`, `Ensure`
and `Add` reassign `values` and the size fields, with `modifies this`. `Filled`,
`FromGrays` and `Ensure` fill a new buffer with the row-by-row loops of
`Render`. `Add` pastes row by row through `PasteRow`. `Grays` reads the picture
with two nested loops.

## Model

| member | source | states |
|---|---|---|
| Canvas.Picture.constructor | include/picture.h:17-20 | the new picture is valid and has width 0 and height 0 |
| Canvas.Picture.Filled | include/picture.h:28-37 | the new picture is `w` by `h`, and every pixel in bounds reads back the given colour in all three channels |
| Canvas.Picture.FromGrays | include/picture.h:39-43 | the picture is as wide as the grid's rows and as tall as the grid has rows; pixel (x, y) has red, green and blue all equal to the level in row y, column x |
| Canvas.Picture.Width | include/picture.h:45-49 | the width is non-negative, and it times the height times 3 is the buffer length |
| Canvas.Picture.Height | include/picture.h:51-55 | the height is non-negative, and the width times it times 3 is the buffer length |
| Canvas.Picture.Red | include/picture.h:63-70 | the red value is between 0 and 255, and it is 0 for every point outside the picture |
| Canvas.Picture.Green | include/picture.h:72-79 | the green value is between 0 and 255, and it is 0 for every point outside the picture |
| Canvas.Picture.Blue | include/picture.h:81-88 | the blue value is between 0 and 255, and it is 0 for every point outside the picture |
| Canvas.Picture.Set | include/picture.h:90-99 | afterwards (x, y) is in the picture and reads back the colour's three channels; the width becomes max(old width, x + 1) and the height max(old height, y + 1), so neither shrinks; every other pixel that was in bounds keeps its colour; the buffer invariant holds |
| Canvas.Picture.Ensure | include/picture.h:119 | the picture grows to exactly max(width, x + 1) by max(height, y + 1); every pixel that was in bounds keeps its colour at the same coordinates; the buffer is untouched when (x, y) was already inside |
| Canvas.Picture.Grays | include/picture.h:101-105 | returns one row per picture row and one level per pixel; each level is between 0 and 255 and lies between the darkest and lightest channel of its pixel; the picture is not changed |
| Canvas.Picture.Add | include/picture.h:107-114 | pixel (x + i, y + j) takes `other`'s old pixel (i, j) for every pixel of `other`; the picture grows to max(width, x + other's width) by max(height, y + other's height), and stays as it was when `other` has no pixels; every other pixel that was in bounds is kept; `other` is unchanged unless it is this picture |
| Canvas.GraysRoundTrip | include/picture.h:101-105 | building a picture from a rectangular grid of gray levels and calling `grays` on it returns exactly that grid |
| Colors.Gray | include/picture.h:101-105 | the gray level of a colour lies between its smallest and largest channel, so it is between 0 and 255 when the channels are |
| Colors.GrayColor | include/picture.h:39-43 | the colour a gray level stands for converts back to that level and to no other, whatever conversion between its darkest and lightest channel is used |
| Raster.PixelOf | include/picture.h:121-123 | every colour read from a buffer has all three channels between 0 and 255 |
| Raster.Render | include/picture.h:28-43 | the buffer built for a `w` by `h` picture has the length the invariant demands, and each pixel in bounds holds the colour asked for |
| Raster.Painted | include/picture.h:90-99 | writing one pixel in bounds keeps the buffer length; that pixel reads back the written colour, and every other point reads as before |

## Left out

- `Picture(std::string filename)` (include/picture.h:22-26) and `save` (include/picture.h:57-61) are not modelled. They read and write PNG files through the external lodepng codec.
- `scale` (include/picture.h:116) is not modelled. The header gives it no documented behaviour.
- `include/updatePlanetState.h`, `include/util.h`, `include/io.h` and `include/planet.h` are not part of this model. They hold floating-point integration, the projection from physical coordinates to pixels, unit conversions, and console and JSON input.
- The buffer layout is not visible in the header beyond `std::vector<unsigned char>`. The model assumes the usual packed RGB layout of such a raster: three bytes per pixel, row by row, red first. The contracts are stated through `ColorAt`, not through byte positions.
- Canvas.Picture.Ensure: its contract does not say what colour the newly created pixels get. The header does not document it. The body fills them with white, and nothing proved depends on that.
- Canvas.Picture.Set: does not promise the colour of pixels created by growth, for the same reason as Ensure.
- Canvas.Picture.Add: does not promise the colour of pixels created by growth and not covered by `other`, for the same reason as Ensure. Its clause that an `other` with no pixels leaves the picture unchanged is the model's reading of "if necessary"; the header does not say so. When `other` is this picture, the model pastes a copy of it taken before any growth. An in-place copy could give a different result, depending on the order in which it visits the pixels.
- Canvas.Picture.Grays: the contract does not fix the conversion formula. The header says only that each level is between 0 and 255. The model promises that a level lies between the pixel's smallest and largest channel, which forces a gray pixel to give its own level. The body takes the channel average, rounded down.
- Canvas.Picture.Set requires non-negative coordinates, because the header does not say how negative ones are handled. Channels must lie between 0 and 255, as the header's parameter comments say. The model does not cover how the code narrows an out-of-range `int` to `unsigned char`.
- Canvas.Picture.Add requires non-negative coordinates, for the same reason as Set.
- Canvas.Picture.Filled requires a non-negative width and height, and channels between 0 and 255.
- Canvas.Picture.FromGrays requires every row of the grid to be as long as the first, and every level to be between 0 and 255. The header does not say what a ragged grid or an out-of-range level produces.
- Width and height are unbounded naturals. The model does not cover overflow of the C++ `int` fields, or of `3 * width * height`, for huge pictures.
