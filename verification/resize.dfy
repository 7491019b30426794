/** The window-geometry cache behind resize notifications
    (`src/terminal/resize.rs`). The signal handler, the ioctl query and the
    channel are not modelled: the queried geometry is a parameter and the
    events to send are returned. */
module Resize {
  import opened Ints
  import opened Events

  /** The OS `winsize` record: all fields are 16-bit. */
  datatype WinSize = WinSize(rows: u16, cols: u16, xpixel: u16, ypixel: u16)

  function Max1(v: u16): u16 { if v < 1 then 1 else v }

  const DEFAULT_FONT_WIDTH: u32 := 16
  const DEFAULT_FONT_HEIGHT: u32 := 32

  /** The font cell size: pixels per column and per row, each side at least 1
      before dividing, with the 16x32 default whenever a quotient is zero. */
  function FontCellSize(ws: WinSize): (size: (u32, u32))
    ensures 0 < size.0 < 0x1_0000 && 0 < size.1 < 0x1_0000
    ensures Max1(ws.xpixel) / Max1(ws.cols) == 0 || Max1(ws.ypixel) / Max1(ws.rows) == 0
            ==> size == (DEFAULT_FONT_WIDTH, DEFAULT_FONT_HEIGHT)
    ensures Max1(ws.xpixel) / Max1(ws.cols) != 0 && Max1(ws.ypixel) / Max1(ws.rows) != 0 ==>
              size.0 * Max1(ws.cols) <= Max1(ws.xpixel) < (size.0 + 1) * Max1(ws.cols) &&
              size.1 * Max1(ws.rows) <= Max1(ws.ypixel) < (size.1 + 1) * Max1(ws.rows)
  {
    var fontWidth := Max1(ws.xpixel) / Max1(ws.cols);
    var fontHeight := Max1(ws.ypixel) / Max1(ws.rows);
    if fontWidth == 0 || fontHeight == 0 then
      (DEFAULT_FONT_WIDTH, DEFAULT_FONT_HEIGHT)
    else
      FontSide(Max1(ws.xpixel), Max1(ws.cols));
      FontSide(Max1(ws.ypixel), Max1(ws.rows));
      (fontWidth, fontHeight)
  }

  /** A nonzero pixels-per-cell quotient of 16-bit sizes fits 16 bits and
      is the whole number of pixels each cell gets. */
  lemma FontSide(n: nat, d: nat)
    requires 0 < d && n < 0x1_0000 && n / d != 0
    ensures 0 < n / d < 0x1_0000
    ensures (n / d) * d <= n < (n / d + 1) * d
  {
    var q := n / d;
    QuotientBounds(n, d);
    assert 0 <= q <= n;
  }

  lemma QuotientBounds(n: nat, d: nat)
    requires 0 < d
    ensures (n / d) * d <= n < (n / d + 1) * d
    ensures n / d <= n
  {
    var q, r := n / d, n % d;
    assert n == q * d + r && 0 <= r < d;
    assert (q + 1) * d == q * d + d;
    var e: nat := d - 1;
    assert q * e >= 0;
    assert q * d == q + q * (d - 1);
  }

  /** The fallback is taken exactly when the terminal reports fewer pixels
      than cells along some axis (an unreported pixel size counts as 1). */
  lemma FontFallbackWhenFewerPixels(ws: WinSize)
    ensures (Max1(ws.xpixel) < Max1(ws.cols) || Max1(ws.ypixel) < Max1(ws.rows))
            ==> FontCellSize(ws) == (DEFAULT_FONT_WIDTH, DEFAULT_FONT_HEIGHT)
    ensures (Max1(ws.xpixel) >= Max1(ws.cols) && Max1(ws.ypixel) >= Max1(ws.rows))
            ==> FontCellSize(ws) == (Max1(ws.xpixel) / Max1(ws.cols), Max1(ws.ypixel) / Max1(ws.rows))
  {
    var x, c, y, r := Max1(ws.xpixel), Max1(ws.cols), Max1(ws.ypixel), Max1(ws.rows);
    if x >= c {
      DivAtLeastOne(x, c);
    }
    if y >= r {
      DivAtLeastOne(y, r);
    }
  }

  lemma DivAtLeastOne(n: nat, d: nat)
    requires 0 < d <= n
    ensures n / d >= 1
  {
    var q, r := n / d, n % d;
    assert n == q * d + r && r < d;
  }

  /** The process-wide cache of terminal geometry. */
  class GeometryCache {
    var termWidth: u32
    var termHeight: u32
    var pixelWidth: u32
    var pixelHeight: u32
    var fontWidth: u32
    var fontHeight: u32

    /** The cached font size is never zero. */
    ghost predicate Valid()
      reads this
    {
      fontWidth > 0 && fontHeight > 0
    }

    /** The initial values of the statics: no cells, no pixels, a 16x32 font. */
    constructor ()
      ensures Valid()
      ensures termWidth == 0 && termHeight == 0 && pixelWidth == 0 && pixelHeight == 0
      ensures fontWidth == DEFAULT_FONT_WIDTH && fontHeight == DEFAULT_FONT_HEIGHT
    {
      termWidth, termHeight := 0, 0;
      pixelWidth, pixelHeight := 0, 0;
      fontWidth, fontHeight := DEFAULT_FONT_WIDTH, DEFAULT_FONT_HEIGHT;
    }

    /** One resize notification: compare the new geometry with the cache,
        update what changed and return the events to send, in order. */
    method HandleResize(ws: WinSize) returns (events: seq<Event>)
      requires Valid()
      modifies this
      ensures Valid()
      ensures termWidth == ws.cols && termHeight == ws.rows
      ensures pixelWidth == ws.xpixel && pixelHeight == ws.ypixel
      ensures (fontWidth, fontHeight) == FontCellSize(ws)
      ensures var cellsChanged := old(termWidth) != ws.cols || old(termHeight) != ws.rows;
              var pixelsChanged := old(pixelWidth) != ws.xpixel || old(pixelHeight) != ws.ypixel;
              var fontChanged := (old(fontWidth), old(fontHeight)) != FontCellSize(ws);
              events == (if cellsChanged then [Event.Resize(ws.cols, ws.rows)] else [])
                      + (if pixelsChanged then [PixelResize(ws.xpixel, ws.ypixel)] else [])
                      + (if fontChanged then [FontResize(FontCellSize(ws).0, FontCellSize(ws).1)] else [])
      ensures |events| <= 3
      ensures old(termWidth) == ws.cols && old(termHeight) == ws.rows
           && old(pixelWidth) == ws.xpixel && old(pixelHeight) == ws.ypixel
           && (old(fontWidth), old(fontHeight)) == FontCellSize(ws)
           ==> events == []
    {
      events := [];
      var width: u32 := ws.cols;
      var height: u32 := ws.rows;
      if termWidth != width || termHeight != height {
        termWidth := width;
        termHeight := height;
        events := events + [Event.Resize(width, height)];
      }

      var pw: u32 := ws.xpixel;
      var ph: u32 := ws.ypixel;
      if pixelWidth != pw || pixelHeight != ph {
        pixelWidth := pw;
        pixelHeight := ph;
        events := events + [PixelResize(pw, ph)];
      }

      var fw: u32 := Max1(ws.xpixel) / Max1(ws.cols);
      var fh: u32 := Max1(ws.ypixel) / Max1(ws.rows);
      if fw == 0 || fh == 0 {
        fw := DEFAULT_FONT_WIDTH;
        fh := DEFAULT_FONT_HEIGHT;
      }

      if fontWidth != fw || fontHeight != fh {
        fontWidth := fw;
        fontHeight := fh;
        events := events + [FontResize(fw, fh)];
      }
    }

    function Width(): (w: u32)
      reads this
      ensures w == termWidth
    {
      termWidth
    }

    function Height(): (h: u32)
      reads this
      ensures h == termHeight
    {
      termHeight
    }

    function PixelWidth(): (w: u32)
      reads this
      ensures w == pixelWidth
    {
      pixelWidth
    }

    function PixelHeight(): (h: u32)
      reads this
      ensures h == pixelHeight
    {
      pixelHeight
    }

    function FontWidth(): (w: u32)
      reads this
      requires Valid()
      ensures w == fontWidth && w > 0
    {
      fontWidth
    }

    function FontHeight(): (h: u32)
      reads this
      requires Valid()
      ensures h == fontHeight && h > 0
    {
      fontHeight
    }
  }

  /** A client of the cache: a second notification with the same geometry
      sends nothing, and a change in cells alone sends a single Resize. */
  method RepeatedNotification(cache: GeometryCache, ws: WinSize, cols: u16, rows: u16)
    returns (second: seq<Event>, third: seq<Event>)
    requires cache.Valid()
    requires (cols, rows) != (ws.cols, ws.rows)
    requires FontCellSize(ws.(cols := cols, rows := rows)) == FontCellSize(ws)
    modifies cache
    ensures second == [] && third == [Event.Resize(cols, rows)]
  {
    var _ := cache.HandleResize(ws);
    second := cache.HandleResize(ws);
    third := cache.HandleResize(ws.(cols := cols, rows := rows));
  }
}
