/** A terminal grid cell and the rule for drawing one cell over another
    (`src/cell.rs`). */
module Cells {
  import opened Colors

  datatype Cell = Cell(fg: Color, bg: Color, symbol: char)

  /** The derived `Default`: transparent colours and the zero symbol. */
  function Default(): Cell { Cell(Colors.Default(), Colors.Default(), '\0') }

  /** The empty cell: transparent colours and symbol '\0'. */
  function Null(): (c: Cell)
    ensures c == Default()
    ensures c.fg == Transparent() && c.bg == Transparent() && c.symbol == '\0'
  {
    Cell(Transparent(), Transparent(), '\0')
  }

  function IsNull(c: Cell): (b: bool)
    ensures b <==> c.fg.a == 0 && c.bg.a == 0 && c.symbol == '\0' &&
                   c.fg.r == c.fg.g == c.fg.b == c.bg.r == c.bg.g == c.bg.b == 0
  {
    c == Null()
  }

  /** True when the front cell's glyph is blank, so the back glyph shows through. */
  predicate ShowsThrough(front: Cell, back: Cell): (r: bool)
    // Only a blank or null front glyph lets anything through, and never a null back glyph.
    ensures r ==> front.symbol in {' ', '\0'} && back.symbol != '\0'
    ensures front.symbol !in {' ', '\0'} ==> !r
    // Over the empty cell every back glyph but the null one shows.
    ensures IsNull(front) ==> (r <==> back.symbol != '\0')
  {
    (front.symbol == ' ' || front.symbol == '\0') && back.symbol != '\0'
  }

  /** `front.blend(back)`: the cell seen when `front` is drawn over `back`. */
  function Blend(front: Cell, back: Cell, blend: BlendFn): (r: Cell)
    ensures r.bg == blend(front.bg, back.bg)
    ensures r.symbol == front.symbol || r.symbol == back.symbol
    ensures ShowsThrough(front, back) ==> r.symbol == back.symbol && r.fg == blend(front.bg, back.fg)
    ensures !ShowsThrough(front, back) ==> r.symbol == front.symbol && r.fg == blend(front.fg, r.bg)
  {
    var bg := blend(front.bg, back.bg);
    if (front.symbol == ' ' || front.symbol == '\0') && back.symbol != '\0' then
      Cell(blend(front.bg, back.fg), bg, back.symbol)
    else
      Cell(blend(front.fg, bg), bg, front.symbol)
  }

  /** A glyph is never replaced by the null symbol, and the null symbol
      survives only when both cells carry it. */
  lemma BlendSymbolNull(front: Cell, back: Cell, blend: BlendFn)
    ensures Blend(front, back, blend).symbol == '\0' <==> front.symbol == '\0' && back.symbol == '\0'
  {
  }

  /** A non-blank front glyph always wins; over a null back cell any front glyph wins. */
  lemma BlendKeepsFrontGlyph(front: Cell, back: Cell, blend: BlendFn)
    requires (front.symbol != ' ' && front.symbol != '\0') || back.symbol == '\0'
    ensures Blend(front, back, blend).symbol == front.symbol
  {
  }
}
