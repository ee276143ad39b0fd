/** Pixel colours of the canvas: the `rgbColor` struct and the gray-level conversion. */
module Colors {

  /** The pixel colour struct: three integer channels, red, green and blue. */
  datatype RgbColor = RgbColor(r: int, g: int, b: int)

  /** The colour a default-constructed struct holds: every member starts at 255. */
  const White := RgbColor(255, 255, 255)

  /** What every channel reads outside the picture. */
  const Black := RgbColor(0, 0, 0)

  /** A channel value an unsigned byte can hold. */
  predicate IsChannel(v: int) {
    0 <= v <= 255
  }

  /** Every channel lies between 0 and 255, as the picture's parameters are documented. */
  predicate ValidColor(c: RgbColor) {
    IsChannel(c.r) && IsChannel(c.g) && IsChannel(c.b)
  }

  /** The colour of one gray level: the only gray level it may convert back to is that level. */
  function GrayColor(level: int): (c: RgbColor)
    ensures forall v :: IsGrayOf(v, c) <==> v == level
  {
    RgbColor(level, level, level)
  }

  function Min3(a: int, b: int, c: int): int {
    if a <= b && a <= c then a else if b <= c then b else c
  }

  function Max3(a: int, b: int, c: int): int {
    if a >= b && a >= c then a else if b >= c then b else c
  }

  /** `v` is a gray level that colour `c` may convert to: no darker than its darkest
      channel and no lighter than its lightest one. */
  predicate IsGrayOf(v: int, c: RgbColor) {
    Min3(c.r, c.g, c.b) <= v <= Max3(c.r, c.g, c.b)
  }

  /** The gray level of a colour: the channel average, rounded down. */
  function Gray(c: RgbColor): (v: int)
    ensures IsGrayOf(v, c)
    ensures ValidColor(c) ==> IsChannel(v)
  {
    (c.r + c.g + c.b) / 3
  }
}
