/** Four-channel colours (`src/color.rs`). The f32 alpha compositing `blend`
    is not modelled: operations that need it take it as a parameter of type
    `BlendFn`. */
module Colors {
  import opened Ints

  datatype Color = Color(r: u8, g: u8, b: u8, a: u8)

  /** The compositing operation `fg.blend(bg)`, supplied by the caller. */
  type BlendFn = (Color, Color) -> Color

  function Rgba(r: u8, g: u8, b: u8, a: u8): (c: Color)
    ensures c.r == r && c.g == g && c.b == b && c.a == a
  {
    Color(r, g, b, a)
  }

  /** An opaque colour. */
  function Rgb(r: u8, g: u8, b: u8): (c: Color)
    ensures c.a == 255
    ensures c.r == r && c.g == g && c.b == b
  {
    Rgba(r, g, b, 255)
  }

  function FromTuple3(t: (u8, u8, u8)): (c: Color)
    ensures c == Rgb(t.0, t.1, t.2)
  {
    Rgb(t.0, t.1, t.2)
  }

  function FromArray3(arr: seq<u8>): (c: Color)
    requires |arr| == 3
    ensures c == Rgb(arr[0], arr[1], arr[2])
  {
    Rgb(arr[0], arr[1], arr[2])
  }

  function FromTuple4(t: (u8, u8, u8, u8)): (c: Color)
    ensures c == Rgba(t.0, t.1, t.2, t.3)
  {
    Rgba(t.0, t.1, t.2, t.3)
  }

  function FromArray4(arr: seq<u8>): (c: Color)
    requires |arr| == 4
    ensures c == Rgba(arr[0], arr[1], arr[2], arr[3])
  {
    Rgba(arr[0], arr[1], arr[2], arr[3])
  }

  /** The derived `Default`: every channel zero. */
  function Default(): Color { Color(0, 0, 0, 0) }

  /** Fully transparent black, the same value as `Default`. */
  function Transparent(): (c: Color)
    ensures c == Default()
    ensures c.a == 0
  {
    Color(0, 0, 0, 0)
  }

  /** The named constants: opaque, each channel off or full. */
  function Black(): (c: Color) ensures c == Rgb(0, 0, 0) { Color(0, 0, 0, 255) }
  function White(): (c: Color) ensures c == Rgb(255, 255, 255) { Color(255, 255, 255, 255) }
  function Red(): (c: Color) ensures c == Rgb(255, 0, 0) { Color(255, 0, 0, 255) }
  function Green(): (c: Color) ensures c == Rgb(0, 255, 0) { Color(0, 255, 0, 255) }
  function Blue(): (c: Color) ensures c == Rgb(0, 0, 255) { Color(0, 0, 255, 255) }
  function Yellow(): (c: Color) ensures c == Rgb(255, 255, 0) { Color(255, 255, 0, 255) }
  function Magenta(): (c: Color) ensures c == Rgb(255, 0, 255) { Color(255, 0, 255, 255) }
  function Cyan(): (c: Color) ensures c == Rgb(0, 255, 255) { Color(0, 255, 255, 255) }

  /** The eight named constants are opaque, pairwise distinct, and are the
      corners of the RGB cube. */
  lemma NamedColorsOpaque()
    ensures forall c :: c in [Black(), White(), Red(), Green(), Blue(), Yellow(), Magenta(), Cyan()] ==>
      c.a == 255 && c.r in {0, 255} && c.g in {0, 255} && c.b in {0, 255}
    ensures |{Black(), White(), Red(), Green(), Blue(), Yellow(), Magenta(), Cyan()}| == 8
  {
  }

  /** Index of the nearest-below entry of the 6x6x6 colour cube of the
      256-colour palette: 16 + 36*(r/51) + 6*(g/51) + b/51. */
  function As8BitAnsi(c: Color): (code: u8)
    ensures 16 <= code <= 231
    ensures (code - 16) / 36 == c.r / 51
    ensures (code - 16) / 6 % 6 == c.g / 51
    ensures (code - 16) % 6 == c.b / 51
  {
    var r := c.r / 51;
    var g := c.g / 51;
    var b := c.b / 51;
    CubeDigits(r, g, b);
    16 + 36 * r + 6 * g + b
  }

  /** Base-6 digits of a cube index are recovered by division. */
  lemma CubeDigits(r: int, g: int, b: int)
    requires 0 <= r <= 5 && 0 <= g <= 5 && 0 <= b <= 5
    ensures 0 <= 36 * r + 6 * g + b <= 215
    ensures (36 * r + 6 * g + b) / 36 == r
    ensures (36 * r + 6 * g + b) / 6 % 6 == g
    ensures (36 * r + 6 * g + b) % 6 == b
  {
    var n := 36 * r + 6 * g + b;
    assert n == 6 * (6 * r + g) + b;
    assert n / 6 == 6 * r + g;
    assert n % 6 == b;
    assert (6 * r + g) % 6 == g;
    assert n == 36 * r + (6 * g + b) && 0 <= 6 * g + b < 36;
  }

  /** Colours in the same cube cell map to the same code and only those. */
  lemma As8BitAnsiCells(c: Color, d: Color)
    ensures As8BitAnsi(c) == As8BitAnsi(d) <==>
      (c.r / 51 == d.r / 51 && c.g / 51 == d.g / 51 && c.b / 51 == d.b / 51)
  {
  }

  function AsRgb(c: Color): (t: (u8, u8, u8))
    ensures Rgb(t.0, t.1, t.2) == c.(a := 255)
  {
    (c.r, c.g, c.b)
  }

  function AsRgba(c: Color): (t: (u8, u8, u8, u8))
    ensures Rgba(t.0, t.1, t.2, t.3) == c
    ensures FromTuple4(t) == c
  {
    (c.r, c.g, c.b, c.a)
  }
}
