# mutunga: a verified model of the terminal canvas core

This project models, in Dafny, the core of `mutunga`. It is a Rust library
that draws character cells on a terminal through a double-buffered canvas.
It also decodes keyboard and xterm SGR mouse input, and reports terminal
geometry changes as events. The modelled parts:

- **Colours and cells** (`color.dfy`, `cell.dfy`, `event.dfy`):
  - the RGBA colour record, its constructors and conversions, and the
    6x6x6 cube index of the 256-colour palette;
  - the cell record and the rule that picks which glyph and colours survive
    when one cell is drawn over another;
  - the event and mouse-button enums.
- **The canvas** (`canvas.dfy`): a row-major grid of cells with a
  bounds-checked index, overwriting fills, blended text and sub-canvas
  drawing, and offset views (`CanvasRegion`). Each in-place loop is proved
  against a cell-by-cell description of the new grid.
- **Terminal output** (`escapes.dfy`):
  - the ECMA-48 control sequences the library writes: CSI; CUP (section
    8.3.21); SGR (section 8.3.117) with the ITU-T T.416 direct and indexed
    colour forms; ED (section 8.3.39); the xterm private modes 1049 and 25;
  - the UTF-8 encoding of RFC 3629, zero-padded to 4 bytes, that
    `write_char` writes;
  - the terminal's standard output, modelled as an append-only byte log.

  Each sequence with numeric parameters (CUP, SGR, ED) is decoded back by
  a small ECMA-48 parameter reader, and the round trip is proved. The four
  private-mode sequences start their parameters with '?', which that reader
  rejects; a second reader takes the mode number and the set or reset
  character back from them (`Escapes.PrivateModesDecode`).
- **The renderer** (`render.dfy`): `TerminalCanvas::present` compares the back
  buffer with the front buffer, copies each changed cell and writes only
  what that cell needs.
  - A left fold over the grid (`Sweep`) specifies the commands of a frame.
  - A terminal interpreter (`Run`) gives the commands their meaning, read
    from the bytes they send: SGR 0 restores the terminal's default inks,
    and SGR 38;2 and 48;2 set the red, green and blue channels they carry
    (`Ink`). The main theorem says that a terminal showing the front buffer
    shows the back buffer afterwards, for back buffers whose visible cells
    have a foreground that is not transparent. A transparent foreground
    following another foreground is sent as SGR 38;2;0;0;0 and shows black
    (see Findings).
  - The class method `Present` is proved to write exactly the bytes of
    those commands. When the dimensions fit an `i32`, it leaves the front
    buffer equal to the back buffer.
- **Input** (`input.dfy`): the byte-at-a-time parser with one byte of
  look-ahead. It is specified by functions over `(input, position)`. The
  `InputParser` methods are proved to agree with them, and a round trip
  shows that every reportable mouse event is decoded from its SGR report.
- **Geometry** (`resize.dfy`): the cache of cell, pixel and font sizes.
  Given a new window size, it sends Resize, PixelResize and FontResize
  events for what changed, in that order.

Integer widths are explicit (`ints.dfy`). `u32` arithmetic that can overflow
follows the release-build wrap-around:
- `move_to` writes `y + 1` and `x + 1`;
- an SGR coordinate field of "0" has 1 subtracted from it and wraps to
  4294967295 (`Input.ZeroCoordinateWraps`).

`draw_canvas` casts both widths and both heights to `i32` before it clips
the source against the destination, and its sum `width + dx` and
difference `self.width() - dx` wrap as release-build `i32` arithmetic does
(`Canvases.ClipSpan`). For grids narrower than 2^31 the casts change
nothing (`Canvases.ClipSpanCovers`). A longer source reads as negative:
when the sum does not wrap, nothing of it is drawn
(`Canvases.ClipSpanWraps`); when it wraps, the span is clipped against the
destination after all (`Canvases.ClipSpanWrapsPositive`), and it can then
reach past the destination's edge, e.g. a source 2^31 wide at offset -1
over a destination 100 wide visits 101 columns
(`Canvases.ClipSpanWideExample`).

`present` iterates over `0..h as i32` and `0..w as i32`. When a dimension
does not fit an `i32`, that range is empty and the frame draws no cell;
`Render.DrawnRows` states this.

At the end of the stream, and on a read error, the parser reads byte 0. So
`next_event` on an exhausted stream yields `KeyPress('\0')` forever
(`Input.DecodeEvent`).

The colour compositing `Color::blend` is floating point. It is a parameter
(`BlendFn`) of every operation that uses it.

## Model

| member | source | states |
|---|---|---|
| Ints.WrappingAdd | src/terminal/mod.rs:87-89 | `u32` addition wraps modulo 2^32: exact inside the range, 2^32 goes to 0 and -1 goes to 2^32-1 |
| Ints.WrappingAddI32 | src/canvas.rs:19 | `i32` addition wraps into the signed range, exact when the sum fits |
| Ints.WrappingSubI32 | src/canvas.rs:178-181 | `i32` subtraction wraps into the signed range: exact when the difference fits, 2^32 off when it does not |
| Ints.I32AsU32 | src/canvas.rs:23-29 | `as u32` on an `i32` keeps non-negative values and adds 2^32 to negative ones |
| Ints.U32AsI32 | src/lib.rs:114-115 | `as i32` on a `u32` keeps values below 2^31 and subtracts 2^32 from the rest |
| Events.Discriminant | src/event.rs:1-12 | each mouse button's discriminant is one of the single bits 1<<0 to 1<<8 |
| Events.DiscriminantInjective | src/event.rs:3-11 | two buttons have the same discriminant exactly when they are the same button |
| Events.RightBeforeMiddle | src/event.rs:3-5 | Left=1 < Right=2 < Middle=4 |
| Colors.Rgba | src/color.rs:40-42 | all four channels are stored unchanged |
| Colors.Rgb | src/color.rs:36-38 | the given channels, with alpha 255 |
| Colors.FromTuple3 | src/color.rs:11-15 | conversion from a 3-tuple is `rgb` of its components |
| Colors.FromArray3 | src/color.rs:17-21 | conversion from a 3-array is `rgb` of its elements |
| Colors.FromTuple4 | src/color.rs:23-27 | conversion from a 4-tuple is `rgba` of its components |
| Colors.FromArray4 | src/color.rs:29-33 | conversion from a 4-array is `rgba` of its elements |
| Colors.Transparent | src/color.rs:44-46 | transparent is all zeros, the derived `Default` |
| Colors.Black | src/color.rs:48-55 | black is `rgb(0, 0, 0)` |
| Colors.White | src/color.rs:57-64 | white is `rgb(255, 255, 255)` |
| Colors.Red | src/color.rs:66-73 | red is `rgb(255, 0, 0)` |
| Colors.Green | src/color.rs:75-82 | green is `rgb(0, 255, 0)` |
| Colors.Blue | src/color.rs:84-91 | blue is `rgb(0, 0, 255)` |
| Colors.Yellow | src/color.rs:93-100 | yellow is `rgb(255, 255, 0)` |
| Colors.Magenta | src/color.rs:102-109 | magenta is `rgb(255, 0, 255)` |
| Colors.Cyan | src/color.rs:111-118 | cyan is `rgb(0, 255, 255)` |
| Colors.NamedColorsOpaque | src/color.rs:48-118 | the eight named colours are opaque, pairwise distinct, and have every channel 0 or 255 |
| Colors.As8BitAnsi | src/color.rs:120-126 | the code lies in 16..231 (no u8 overflow), and its base-6 digits are r/51, g/51 and b/51 |
| Colors.CubeDigits | src/color.rs:125 | a cube index of digits at most 5 is at most 215, and division recovers the digits |
| Colors.As8BitAnsiCells | src/color.rs:120-126 | two colours share a code exactly when they fall in the same 51-wide cell on every channel |
| Colors.AsRgb | src/color.rs:128-130 | the channels in r, g, b order: `rgb` of them is the colour made opaque |
| Colors.AsRgba | src/color.rs:132-134 | the channels in r, g, b, a order: `rgba`, and the 4-tuple conversion, of them give the colour back |
| Cells.Null | src/cell.rs:11-17 | transparent colours and symbol '\0', equal to the derived `Default` |
| Cells.IsNull | src/cell.rs:19-21 | true exactly when every channel of both colours is 0 and the symbol is '\0' |
| Cells.ShowsThrough | src/cell.rs:26 | only a blank or null front glyph lets the back glyph through, never a null back glyph; over the null cell every non-null back glyph shows |
| Cells.Blend | src/cell.rs:23-35 | bg is the blend of the two backgrounds; a blank or null front over a non-null back shows the back symbol with fg = front.bg blended over back.fg; otherwise the front symbol with fg = front.fg blended over the new bg |
| Cells.BlendSymbolNull | src/cell.rs:26-32 | the result symbol is '\0' exactly when both input symbols are |
| Cells.BlendKeepsFrontGlyph | src/cell.rs:26-32 | a non-blank front glyph, or any front glyph over a null back, is kept |
| Canvases.RowStartIsProduct | src/canvas.rs:109 | the row offset used for indexing is `y * width` |
| Canvases.RowStartMono | src/canvas.rs:109 | later rows start at larger offsets |
| Canvases.IndexBound | src/canvas.rs:104-110 | an in-bounds position's index is below `width * height` |
| Canvases.IndexInjective | src/canvas.rs:109 | distinct positions within the width have distinct indices |
| Canvases.IndexCovers | src/canvas.rs:109 | every index k of the grid is the index of the in-bounds position (k % w, k / w) |
| Canvases.AtUpdate | src/canvas.rs:120-126 | writing through `cell_mut` changes the cell at that position and no other |
| Canvases.GridExtensional | src/canvas.rs:3-8 | two grids of the same size that agree at every position are equal |
| Canvases.Canvas.constructor | src/canvas.rs:52-56 | a `w` by `h` grid of exactly w*h null cells |
| Canvases.Canvas.Resize | src/canvas.rs:98-102 | sets the dimensions; every one of the w*h cells is null |
| Canvases.Canvas.Index | src/canvas.rs:104-110 | None exactly when x<0, y<0, x>=width or y>=height; otherwise the row-major index, below width*height |
| Canvases.Canvas.IndexIsRowMajor | src/canvas.rs:109 | the index is `x + y * width` |
| Canvases.Canvas.CellAt | src/canvas.rs:112-118 | Some exactly for in-bounds positions, holding the cell there |
| Canvases.Canvas.Fill | src/canvas.rs:70-72 | every cell becomes the given cell; the dimensions and the cell count are kept |
| Canvases.Canvas.Clear | src/canvas.rs:66-68 | every cell becomes null; the dimensions are kept |
| Canvases.Canvas.FillRect | src/canvas.rs:74-84 | every in-bounds position of the rectangle is overwritten, without blending; every other cell is unchanged |
| Canvases.Canvas.DrawText | src/canvas.rs:128-136 | the i-th character is blended over the cell at (x+i, y) when that is in bounds; every other cell is unchanged |
| Canvases.Canvas.DrawCanvas | src/canvas.rs:174-192 | each destination position whose source position lies inside the `i32`-cast, clipped spans becomes the source cell blended over the destination cell; nothing else changes |
| Canvases.Canvas.DrawCanvasRow | src/canvas.rs:184-190 | one source row, cut to the clipped span, is composited; the rows before it stay composited |
| Canvases.ClipSpan | src/canvas.rs:175-182 | computed with release-build `i32` wrap-around; whenever neither the sum nor the difference wraps, the span is the source's cast length or less, ends at the destination's cast length or before, and one of the two is exact |
| Canvases.ClipSpanCovers | src/canvas.rs:175-182 | for lengths below 2^31, every source position landing on the destination lies inside the span |
| Canvases.ClipSpanWraps | src/canvas.rs:175-182 | a source length of 2^31 or more whose sum with the offset does not wrap, over a destination narrower than 2^31, casts to a negative span: nothing is visited |
| Canvases.ClipSpanWrapsPositive | src/canvas.rs:175-182 | when that sum wraps past the destination, the span is the wrapped difference `dstLen - d`, which lies past the destination's edge when it does not wrap |
| Canvases.ClipSpanWideExample | src/canvas.rs:175-182 | a source 2^31 wide at offset -1 over a destination 100 wide gives a span of 101 |
| Canvases.Canvas.RegionMut | src/canvas.rs:58-60 | a view of this canvas through the given rectangle |
| Canvases.Canvas.AsRegionMut | src/canvas.rs:62-64 | a view at (0, 0) with the canvas's size cast to `i32` |
| Canvases.Translate | src/canvas.rs:19 | moving a rectangle keeps its size, and adds the offsets exactly whenever the sums fit an `i32` |
| Canvases.WrappingAddAssoc | src/canvas.rs:19 | wrapping `i32` addition is associative |
| Canvases.TranslateCompose | src/canvas.rs:16-21 | moving by a translated offset is moving twice |
| Canvases.CanvasRegion.constructor | src/canvas.rs:10-13 | the view holds the canvas and the rectangle |
| Canvases.CanvasRegion.RegionMut | src/canvas.rs:16-21 | a nested view: the offsets add up, the requested width and height are kept |
| Canvases.CanvasRegion.Width | src/canvas.rs:23-25 | the view's width as `u32` |
| Canvases.CanvasRegion.Height | src/canvas.rs:27-29 | the view's height as `u32` |
| Canvases.CanvasRegion.Size | src/canvas.rs:31-33 | the pair (width, height) |
| Canvases.CanvasRegion.FillRect | src/canvas.rs:43-48 | fills the rectangle moved by the view's offset on the underlying canvas |
| Canvases.CanvasRegion.Fill | src/canvas.rs:39-41 | the canvas `fill_rect` over the view's own rectangle |
| Canvases.CanvasRegion.Clear | src/canvas.rs:35-37 | the view's rectangle filled with null cells |
| Canvases.FillNested | src/canvas.rs:16-21 | filling through a nested view writes the rectangle moved by the inner and then the outer offset |
| Canvases.ModShift | src/canvas.rs:19 | adding a multiple of 2^32 does not change the residue |
| Escapes.DigitChar | src/terminal/mod.rs:87-89 | the digit character of a value 0..9 |
| Escapes.Decimal | src/terminal/mod.rs:87-89 | Rust's `{}` of an unsigned integer: a non-empty run of digits, without a leading zero |
| Escapes.DecimalRoundTrip | src/terminal/mod.rs:87-89 | the numeral reads back as its value |
| Escapes.Split | src/terminal/mod.rs:87-89 | the ';'-separated fields: at least one, none containing ';' |
| Escapes.SplitField | src/terminal/mod.rs:87-89 | a field without ';' followed by ';' splits off whole |
| Escapes.SplitJoin | src/terminal/mod.rs:87-89 | splitting undoes joining fields without ';' |
| Escapes.Values | src/terminal/mod.rs:99-107 | the parameter values, one per field |
| Escapes.Numerals | src/terminal/mod.rs:99-107 | one numeral per value, in order |
| Escapes.NumeralsValues | src/terminal/mod.rs:99-107 | the numerals of a list of values read back as that list |
| Escapes.ValuesCons | src/terminal/mod.rs:99-107 | a leading field of digits puts its value in front of the others' values |
| Escapes.JoinCons | src/terminal/mod.rs:99-107 | joining a field in front adds it and a ';' |
| Escapes.NumeralsCons | src/terminal/mod.rs:99-107 | a leading value puts its numeral in front |
| Escapes.ValuesOne | src/terminal/mod.rs:109-117 | a single field of digits reads as its value |
| Escapes.ControlRoundTrip | src/terminal/mod.rs:70-72 | a CSI sequence of numeric parameters and a final byte decodes to those parameters and that byte |
| Escapes.ControlBody | src/terminal/mod.rs:70-72 | decoding `csi(body + final)` reads the parameters of `body` and the final byte |
| Escapes.NoSeparator | src/terminal/mod.rs:87-89 | a numeral contains no ';' |
| Escapes.Join2 | src/terminal/mod.rs:87-89 | two numerals joined are `a;b` |
| Escapes.ParamsCons | src/terminal/mod.rs:99-107 | a leading numeral adds its value in front of the rest |
| Escapes.ParamsOne | src/terminal/mod.rs:109-117 | a single numeral reads as its value |
| Escapes.CsiSeq | src/terminal/mod.rs:70-72 | ESC '[' followed by the argument |
| Escapes.MoveToDecodes | src/terminal/mod.rs:87-89 | CUP reads back as row y+1, column x+1 (wrapping), final 'H'; exactly y+1, x+1 when they fit |
| Escapes.MoveToSeq | src/terminal/mod.rs:87-89 | a control sequence ending in 'H' |
| Escapes.FgColorSeq | src/terminal/mod.rs:99-102 | a control sequence ending in 'm' |
| Escapes.BgColorSeq | src/terminal/mod.rs:104-107 | a control sequence ending in 'm' |
| Escapes.Fg8BitSeq | src/terminal/mod.rs:109-112 | a control sequence ending in 'm' |
| Escapes.Bg8BitSeq | src/terminal/mod.rs:114-117 | a control sequence ending in 'm' |
| Escapes.ResetSeq | src/terminal/mod.rs:123-125 | `CSI m`: a three-character control sequence ending in 'm' |
| Escapes.EraseSeq | src/terminal/mod.rs:74-77 | a control sequence ending in 'J' |
| Escapes.AltScreenSeq | src/terminal/mod.rs:79-81 | a private-mode ('?') control sequence ending in 'h' |
| Escapes.MainScreenSeq | src/terminal/mod.rs:83-85 | a private-mode ('?') control sequence ending in 'l' |
| Escapes.ShowCursorSeq | src/terminal/mod.rs:91-93 | a private-mode ('?') control sequence ending in 'h' |
| Escapes.HideCursorSeq | src/terminal/mod.rs:95-97 | a private-mode ('?') control sequence ending in 'l' |
| Escapes.FgColorSeqDecodes | src/terminal/mod.rs:99-102 | the sequence reads back as 38;2;r;g;b 'm'; alpha is not sent |
| Escapes.BgColorSeqDecodes | src/terminal/mod.rs:104-107 | the sequence reads back as 48;2;r;g;b 'm' |
| Escapes.Fg8BitSeqDecodes | src/terminal/mod.rs:109-112 | the sequence reads back as 38;5;n 'm' with n the cube index |
| Escapes.Bg8BitSeqDecodes | src/terminal/mod.rs:114-117 | the sequence reads back as 48;5;n 'm' |
| Escapes.SplitSep | src/terminal/mod.rs:99-107 | a ';' separates the fields of its two sides |
| Escapes.ValuesAppend | src/terminal/mod.rs:99-107 | the values of joined field lists are the joined values |
| Escapes.LeadValues | src/terminal/mod.rs:99-107 | `sel;2;r` reads as [sel, 2, r] |
| Escapes.LeadSplit | src/terminal/mod.rs:99-102 | `sel;2;r` is `sel`, ';' and `2;r` |
| Escapes.ParamsSnoc | src/terminal/mod.rs:99-107 | one more numeral appends its value |
| Escapes.DirectColorDecodes | src/terminal/mod.rs:99-107 | `CSI sel;2;r;g;b m` reads as [sel, 2, r, g, b] and 'm' |
| Escapes.IndexedColorDecodes | src/terminal/mod.rs:109-117 | `CSI sel;5;n m` reads as [sel, 5, n] and 'm' |
| Escapes.ResetAndEraseDecode | src/terminal/mod.rs:74-77 | `CSI m` reads as SGR 0, and `CSI 2J` as ED with parameter 2 |
| Escapes.Utf8 | src/terminal/mod.rs:64-68 | the RFC 3629 encoding: 1 to 4 bytes by code point range, with the lead-byte and continuation-byte patterns |
| Escapes.PrivateModeRoundTrip | src/terminal/mod.rs:79-97 | `CSI ? n final` reads back as the mode n and the final character |
| Escapes.PrivateModesDecode | src/terminal/mod.rs:79-97 | the alternate-screen, main-screen, show-cursor and hide-cursor sequences read back as (1049, 'h'), (1049, 'l'), (25, 'h') and (25, 'l'), and none of them as numeric parameters |
| Escapes.PrivateMode | src/terminal/mod.rs:79-97 | a private-mode sequence reads back as its mode and final character, and not as numeric parameters |
| Escapes.NoDigitParams | src/terminal/mod.rs:79-97 | parameters starting with '?' are not a list of numbers |
| Escapes.Utf8RoundTrip | src/terminal/mod.rs:64-68 | the encoding, followed by anything, decodes to the character and its length |
| Escapes.CharBytes | src/terminal/mod.rs:64-68 | always 4 bytes: the UTF-8 encoding, then zeros |
| Escapes.CharBytesDecode | src/terminal/mod.rs:64-68 | the 4-byte buffer decodes to the character |
| Escapes.StrBytes | src/terminal/mod.rs:60-62 | `as_bytes`: at least one byte per character |
| Escapes.EncodeAllAppend | src/terminal/mod.rs:60-62 | the bytes of two command lists are concatenated |
| Escapes.CsiBytes | src/terminal/mod.rs:70-72 | the bytes of a control sequence start with ESC '[' |
| Escapes.Encode | src/terminal/mod.rs:60-125 | only a flush writes nothing; a character is a 4-byte buffer that decodes back to it; every other command is a control sequence starting ESC '[' |
| Escapes.Terminal.constructor | src/terminal/mod.rs:22-34 | an empty output log, nothing flushed |
| Escapes.Terminal.Size | src/terminal/mod.rs:52-54 | the cached cell width and height |
| Escapes.Terminal.Flush | src/terminal/mod.rs:56-58 | everything written is flushed; the output is unchanged |
| Escapes.Terminal.Write | src/terminal/mod.rs:60-62 | appends the UTF-8 bytes of the string and returns their count |
| Escapes.Terminal.WriteChar | src/terminal/mod.rs:64-68 | appends the zero-padded 4-byte buffer and returns 4 |
| Escapes.Terminal.Csi | src/terminal/mod.rs:70-72 | appends ESC '[' and the string |
| Escapes.Terminal.Clear | src/terminal/mod.rs:74-77 | appends SGR reset, then ED 2, and returns the count of the second write |
| Escapes.Terminal.AltScreen | src/terminal/mod.rs:79-81 | appends `CSI ?1049h` |
| Escapes.Terminal.MainScreen | src/terminal/mod.rs:83-85 | appends `CSI ?1049l` |
| Escapes.Terminal.MoveTo | src/terminal/mod.rs:87-89 | appends the bytes of the MoveTo command, row first and 1-based |
| Escapes.Terminal.ShowCursor | src/terminal/mod.rs:91-93 | appends `CSI ?25h` |
| Escapes.Terminal.HideCursor | src/terminal/mod.rs:95-97 | appends `CSI ?25l` |
| Escapes.Terminal.FgColor | src/terminal/mod.rs:99-102 | appends the bytes of the Fg command |
| Escapes.Terminal.BgColor | src/terminal/mod.rs:104-107 | appends the bytes of the Bg command |
| Escapes.Terminal.Fg8BitColor | src/terminal/mod.rs:109-112 | appends `CSI 38;5;n m` |
| Escapes.Terminal.Bg8BitColor | src/terminal/mod.rs:114-117 | appends `CSI 48;5;n m` |
| Escapes.Terminal.Color | src/terminal/mod.rs:119-121 | the foreground sequence, then the background one, with the summed count |
| Escapes.Terminal.Reset | src/terminal/mod.rs:123-125 | appends `CSI m` |
| Input.ByteAt | src/terminal/input.rs:177-184 | the byte at the position, or 0 past the end |
| Input.Next | src/terminal/input.rs:177-184 | a read advances by one exactly when input remains |
| Input.ParseU32 | src/terminal/input.rs:122 | `parse::<u32>` succeeds exactly on a non-empty run of digits whose value is below 2^32, and yields that value |
| Input.IsCtrlChar | src/terminal/input.rs:42-47 | true exactly for the sixteen introducers D E H M N O P V W X Z [ \\ ] ^ _ |
| Input.Coordinate | src/terminal/input.rs:122-125 | an unparseable field gives 0; a value v >= 1 gives v-1; "0" wraps to 2^32-1 |
| Input.CoordinateOfNumeral | src/terminal/input.rs:122-125 | the numeral of n >= 1 gives n-1 |
| Input.ZeroCoordinateWraps | src/terminal/input.rs:122 | a field "0" gives 4294967295 |
| Input.ScanStep | src/terminal/input.rs:119-150 | goes on exactly over digits and over ';' closing field 0 or 1; closing field 0 sets x to the field's coordinate and closing field 1 sets y, keeping the other and clearing the digits; a digit is appended; only 'm' closing field 0 or 1 marks a release; anything else changes nothing |
| Input.Scan | src/terminal/input.rs:161-163 | on non-empty input at least one byte is read, and never past the end; at most two fields are completed; x changes only while field 0 is open and y only when field 1 closes |
| Input.DecodeButton | src/terminal/input.rs:85-107 | '0', '1', '2' give Left, Middle, Right presses in one byte; '3' then '2'..'5' give motion with Left, Middle, Right, None, and any other second byte motion with Unknown; '6' then '4' or '5' give WheelUp or WheelDown, otherwise Unknown; any other first byte Unknown after one byte; never past the end |
| Input.DecodeSgrMouse | src/terminal/input.rs:81-159 | no ';' after the button gives Unknown; a motion selector gives MouseMove whatever the terminator; the result is a mouse event or Unknown; the coordinates are stated by `SgrFieldsDecode` and `SgrOneFieldDecodes` |
| Input.DecodeCtrl | src/terminal/input.rs:68-79 | 'M' gives Unknown and reads nothing more; '<' enters the SGR decoder; any other byte c gives KeyPress(c) |
| Input.DecodeEsc | src/terminal/input.rs:60-66 | an introducer other than '[' gives Unknown |
| Input.DecodeEvent | src/terminal/input.rs:165-175 | always Some; consumes input while any remains; an exhausted stream gives KeyPress('\0') without moving |
| Input.KeyPressUnlessEscape | src/terminal/input.rs:165-175 | exactly one byte is consumed, and it is a key press, unless it is ESC followed by an introducer (peeked, not consumed) |
| Input.OtherIntroducerUnknown | src/terminal/input.rs:60-66 | ESC and an introducer other than '[' are both consumed and give Unknown |
| Input.Latin1 | src/terminal/input.rs:186-188 | the bytes that `byte as char` turns back into the string |
| Input.HasTextSplit | src/terminal/input.rs:186-188 | text at a position splits into its two parts at their positions |
| Input.ScanDigit | src/terminal/input.rs:143-145 | a digit is appended to the current field and the scan goes on |
| Input.ScanDigits | src/terminal/input.rs:143-145 | a run of digits is read into the current field |
| Input.ScanField | src/terminal/input.rs:119-150 | a field of digits and its terminator make one closure step on the complete field |
| Input.ScanFirstField | src/terminal/input.rs:120-123 | any digit field and ';' set x to its coordinate and open field 1 |
| Input.ScanSecondField | src/terminal/input.rs:124-139 | any digit field and 'M' or 'm' set y to its coordinate, record a release for 'm', and stop |
| Input.ScanFields | src/terminal/input.rs:115-150 | `d1;d2` and the final byte scan to (Coordinate(d1), Coordinate(d2)) with the right release flag, consumed exactly |
| Input.ScanOneField | src/terminal/input.rs:115-150 | one field of digits closed by 'M' or 'm' sets x from it, leaves y at 0 and stops right after the terminator |
| Input.ScanBothFields | src/terminal/input.rs:115-150 | the two digit fields, each at its position, scan to their coordinates |
| Input.ButtonDecodes | src/terminal/input.rs:85-107 | every button code xterm sends is read back as its button and motion flag |
| Input.ButtonThenSeparator | src/terminal/input.rs:85-113 | a button code followed by ';' reads as the button, with ';' next |
| Input.SgrIntroducer | src/terminal/input.rs:165-175 | ESC '[' '<' leads to the SGR mouse decoder |
| Input.SgrBodyDecodes | src/terminal/input.rs:81-159 | the report after `CSI <` gives the reported event and is consumed exactly |
| Input.SgrSteps | src/terminal/input.rs:81-159 | the button, the ';' and the scanned fields together make the event |
| Input.SgrFieldsDecode | src/terminal/input.rs:81-159 | any two digit fields (empty, "0" or too long included) give the event at (Coordinate(d1), Coordinate(d2)), consumed exactly |
| Input.SgrOneFieldDecodes | src/terminal/input.rs:81-159 | a report with one field gives the event at (Coordinate(d1), 0) |
| Input.ReportIsLatin1 | src/terminal/input.rs:81-159 | every character of a report fits a byte |
| Input.Latin1HasText | src/terminal/input.rs:186-188 | the bytes of a string hold its text at position 0 |
| Input.ReportShape | src/terminal/input.rs:81-159 | a report is `CSI <`, then the code, ';', and the fields |
| Input.ReportDecodes | src/terminal/input.rs:165-175 | a report anywhere in the input gives its event, consumed exactly |
| Input.ReportBytesDecode | src/terminal/input.rs:165-175 | the bytes of a report, followed by anything, give its event |
| Input.MouseReportRoundTrip | src/terminal/input.rs:81-175 | round trip: the SGR report of any reportable mouse event gives back exactly that event and stops right after the report |
| Input.ExampleReportText | src/terminal/input.rs:81-159 | the report of a left press at (10, 5) is `ESC [ < 0 ; 11 ; 6` and the final byte |
| Input.ExampleReportBytes | src/terminal/input.rs:81-159 | the same report as bytes |
| Input.LeftButtonExample | src/terminal/input.rs:119-158 | `ESC [ < 0 ; 11 ; 6 M` gives MouseDown(Left, 10, 5); with 'm' it gives MouseUp(Left, 10, 5) |
| Input.MotionIgnoresFinal | src/terminal/input.rs:152-153 | a motion report ending in 'm' is a move, never a release |
| Input.OneFieldExample | src/terminal/input.rs:115-158 | `ESC [ < 0 ; 5 M` gives MouseDown(Left, 4, 0) |
| Input.EmptyFieldsExample | src/terminal/input.rs:115-158 | `ESC [ < 0 ; ; M` gives MouseDown(Left, 0, 0): empty fields do not parse and count as 1 |
| Input.ZeroFieldExample | src/terminal/input.rs:115-158 | `ESC [ < 0 ; 0 ; 1 M` gives MouseDown(Left, 4294967295, 0) |
| Input.UnknownButtonExample | src/terminal/input.rs:85-158 | `ESC [ < 7 ; 2 ; 2 M` gives MouseDown(Unknown, 1, 1) |
| Input.UnknownMotionExample | src/terminal/input.rs:85-158 | `ESC [ < 3 9 ; 2 ; 2 m` gives MouseMove(Unknown, 1, 1): motion wins over the release |
| Input.InputParser.constructor | src/terminal/input.rs:54-58 | the parser starts at the beginning of the stream |
| Input.InputParser.NextByte | src/terminal/input.rs:177-184 | the byte at the position, or 0 at the end, consuming it when there is one |
| Input.InputParser.NextChar | src/terminal/input.rs:186-188 | the next byte as a character |
| Input.InputParser.PeekByte | src/terminal/input.rs:190-197 | the next byte, or 0, without consuming it |
| Input.InputParser.PeekChar | src/terminal/input.rs:199-201 | the peeked byte as a character |
| Input.InputParser.ReadX10Mouse | src/terminal/input.rs:76-79 | always Unknown, reading nothing |
| Input.InputParser.ScanChars | src/terminal/input.rs:161-163 | the loop ends in the state and position `Scan` gives |
| Input.InputParser.ReadSgrMouse | src/terminal/input.rs:81-159 | the event and end position that `DecodeSgrMouse` gives |
| Input.InputParser.ReadCtrlSequence | src/terminal/input.rs:68-74 | the event and end position that `DecodeCtrl` gives |
| Input.InputParser.ReadEscSequence | src/terminal/input.rs:60-66 | the event and end position that `DecodeEsc` gives |
| Input.InputParser.NextEvent | src/terminal/input.rs:165-175 | the event and end position that `DecodeEvent` gives |
| Resize.FontCellSize | src/terminal/resize.rs:58-64 | never zero and below 2^16; the 16x32 default when a quotient is 0; otherwise the integer quotients of pixels by cells, each side at least 1 |
| Resize.QuotientBounds | src/terminal/resize.rs:58-59 | the quotient times the divisor is at most the dividend and within one divisor of it |
| Resize.FontSide | src/terminal/resize.rs:58-64 | a nonzero quotient of a 16-bit size is below 2^16 and is the whole number of pixels per cell |
| Resize.FontFallbackWhenFewerPixels | src/terminal/resize.rs:58-64 | the fallback is taken exactly when an axis has fewer pixels than cells |
| Resize.DivAtLeastOne | src/terminal/resize.rs:58-64 | a dividend at least the divisor gives a quotient of at least 1 |
| Resize.GeometryCache.constructor | src/terminal/resize.rs:9-14 | 0x0 cells, 0x0 pixels and a 16x32 font |
| Resize.GeometryCache.HandleResize | src/terminal/resize.rs:17-77 | the cache takes the new geometry; Resize, PixelResize and FontResize are sent, in that order, each exactly when its part changed; the font size stays non-zero; an unchanged geometry sends nothing |
| Resize.GeometryCache.Width | src/terminal/resize.rs:106-108 | the cached cell width |
| Resize.GeometryCache.Height | src/terminal/resize.rs:110-112 | the cached cell height |
| Resize.GeometryCache.PixelWidth | src/terminal/resize.rs:114-116 | the cached pixel width |
| Resize.GeometryCache.PixelHeight | src/terminal/resize.rs:118-120 | the cached pixel height |
| Resize.GeometryCache.FontWidth | src/terminal/resize.rs:122-124 | the cached font width, never zero |
| Resize.GeometryCache.FontHeight | src/terminal/resize.rs:126-128 | the cached font height, never zero |
| Resize.RepeatedNotification | src/terminal/resize.rs:28-76 | a repeated notification sends nothing; a change of cells alone sends one Resize |
| Render.ShownBg | src/lib.rs:140-146 | an alpha-0 background counts as transparent, and only those |
| Render.CountChars | src/lib.rs:162 | at most one character per command |
| Render.CountCharsAppend | src/lib.rs:162 | character counts add up over concatenation |
| Render.DrawCellCommands | src/lib.rs:122-165 | a changed cell: MoveTo first exactly when the cursor is elsewhere, no other move, exactly one character and last (a blank for '\0'), and the tracked cursor one column right |
| Render.Visit | src/lib.rs:116-120 | a cell equal in both buffers writes nothing and keeps the tracked state |
| Render.FrameCommands | src/lib.rs:113-172 | a frame starts with Reset and ends with MoveTo(0, 0) and Flush |
| Render.DrawCell | src/lib.rs:122-165 | the cursor is tracked one column right of the cell; a null symbol leaves the default colours tracked, a glyph its own colours; at least one command |
| Render.SweepRow | src/lib.rs:115-166 | a row that writes nothing keeps the tracked state |
| Render.Sweep | src/lib.rs:114-169 | a grid that writes nothing keeps the tracked state |
| Render.RowQuietIffUnchanged | src/lib.rs:115-166 | a row writes nothing exactly when none of its cells changed |
| Render.QuietIffUnchanged | src/lib.rs:114-169 | the cells write nothing exactly when none changed |
| Render.RowCharCount | src/lib.rs:114-166 | a row writes one character per changed cell |
| Render.FrameCharCount | src/lib.rs:114-169 | a frame writes one character per changed cell and no more |
| Render.QuietRow | src/lib.rs:118-120 | a row without changes writes nothing and keeps the tracked state |
| Render.QuietSweep | src/lib.rs:114-120 | a grid without changes writes nothing and keeps the tracked state |
| Render.IdleFrame | src/lib.rs:104-175 | presenting buffers that already agree writes exactly Reset, MoveTo(0, 0), Flush |
| Render.AdjacentChangeNoMove | src/lib.rs:122-126 | a changed cell right after another in the same row is written without a cursor move |
| Render.RunAppend | src/lib.rs:104-175 | running two command lists is running one after the other |
| Render.RunOne | src/lib.rs:104-175 | running one command applies it |
| Render.MoveStep | src/lib.rs:122-126 | the cursor step puts the terminal cursor on the cell |
| Render.InkOf | src/lib.rs:112-113 | the ink a tracked colour stands for: the default exactly for transparent, otherwise its red, green and blue channels |
| Render.BlankStep | src/lib.rs:130-136 | a null cell shows a blank in the default inks, and both inks become the default |
| Render.BgStep | src/lib.rs:137-156 | the background step leaves the cell's background ink and, after a reset, the default foreground |
| Render.GlyphRun | src/lib.rs:137-163 | exactly what a visible symbol's commands do: the symbol in the cell's background ink and in the foreground channels sent by SGR 38 when sent, else the ink in effect |
| Render.GlyphStep | src/lib.rs:137-163 | a visible symbol shows in its colours' inks, and they become current, unless a transparent foreground follows another foreground |
| Render.GlyphStepBlack | src/lib.rs:157-160 | a transparent foreground after another foreground shows the glyph black, and the screen's foreground ink is no longer the tracked one |
| Render.GlyphCmdsFixed | src/lib.rs:157-160 | the corrected commands agree with the source's for every non-transparent foreground |
| Render.GlyphStepFixed | src/lib.rs:157-160 | with the correction every visible symbol shows as its cell is meant to look, and the tracked colours stay true |
| Render.DrawCellShows | src/lib.rs:122-165 | a changed cell's commands show its display form at (x, y), put the cursor after it and keep the tracked state true, unless a transparent foreground follows another foreground |
| Render.SweepRowShows | src/lib.rs:115-166 | a row's commands paint its changed cells and keep the tracked state true, when its visible cells have non-transparent foregrounds |
| Render.SweepShows | src/lib.rs:114-169 | the frame's cell commands paint every changed cell, when the visible cells have non-transparent foregrounds |
| Render.PaintRowAt | src/lib.rs:115-166 | after a row, each position shows the back cell if it changed, else what it showed |
| Render.PaintAt | src/lib.rs:114-169 | after all rows, each in-grid position shows the back cell if it changed, else what it showed |
| Render.PresentShowsBack | src/lib.rs:104-175 | main theorem: a terminal showing the front buffer shows the back buffer after the frame, with the cursor at the top left, when the back buffer's visible cells have non-transparent foregrounds |
| Render.TransparentFgFrame | src/lib.rs:104-175 | on the two-cell frame 'a' in red then 'b' in transparent, 'b' shows black instead of in the default ink |
| Render.TransparentFgCommands | src/lib.rs:113-172 | that frame's commands: 'b' is preceded by SGR 38 with the transparent colour |
| Render.EncodeSnoc | src/lib.rs:104-175 | one more command appends its bytes |
| Render.Emitted | src/lib.rs:104-175 | writing one more command extends the logged bytes |
| Render.EmittedBoth | src/lib.rs:104-175 | two logged runs written one after the other |
| Render.EmitBlank | src/lib.rs:130-136 | writes Reset only when a tracked colour is not the default, then a blank |
| Render.EmitBg | src/lib.rs:140-156 | writes no background command when the tracked one is right, Reset to reach the default (which also clears fg), else Bg |
| Render.EmitGlyph | src/lib.rs:137-163 | the background step, Fg only when the tracked foreground differs, then the symbol |
| Render.EmitCell | src/lib.rs:122-165 | writes exactly the bytes of the changed cell's commands and returns the tracked state after them |
| Render.Blank | src/canvas.rs:98-102 | n cells, all null |
| Render.AllNull | src/canvas.rs:98-102 | a sequence of null cells is the blank grid |
| Render.Copied | src/lib.rs:128 | the front buffer with its first k cells copied from the back buffer |
| Render.CopiedAt | src/lib.rs:128 | the cells before k come from the back buffer, the rest from the front buffer |
| Render.CopiedAll | src/lib.rs:114-128 | once every cell is copied, the front buffer is the back buffer |
| Render.CopyNext | src/lib.rs:128 | one more cell copied |
| Render.CopySame | src/lib.rs:118-120 | skipping an equal cell is the same as copying it |
| Render.SentCell | src/lib.rs:116-165 | visiting one more cell extends the commands and the bytes sent |
| Render.ProgressCell | src/lib.rs:115-166 | one more cell visited in row order |
| Render.SkippedProgress | src/lib.rs:118-120 | an unchanged cell adds no command and keeps the tracked state |
| Render.ProgressFrame | src/lib.rs:114 | at the start of a row, the rows before it are all that was visited |
| Render.ProgressRow | src/lib.rs:114-115 | the end of one row is the start of the next |
| Render.SkipStep | src/lib.rs:118-120 | an unchanged cell is passed over: nothing copied or sent |
| Render.DrawStep | src/lib.rs:122-165 | a changed cell is copied and its commands are sent |
| Render.RowStep | src/lib.rs:114-115 | the end of a row is the start of the next |
| Render.FrameBytes | src/lib.rs:113-172 | a frame's bytes are the reset, the cells' commands and the move home |
| Render.ResetLog | src/lib.rs:113 | the bytes of Reset in front of a log |
| Render.FrameWritten | src/lib.rs:113-172 | the log after the reset, the cells' commands and the move home is the log plus the frame's bytes |
| Render.MoveHome | src/lib.rs:171-172 | the bytes of the closing move and flush are those of the move |
| Render.RowStartEnd | src/lib.rs:115 | a row of the grid ends inside it |
| Render.DrawnRows | src/lib.rs:114-115 | all rows are drawn exactly when h is 0 or both dimensions fit an `i32`; none otherwise |
| Render.TerminalCanvas.constructor | src/lib.rs:25-36 | both buffers blank and equal, at the terminal's size |
| Render.TerminalCanvas.SetCell | src/lib.rs:86-90 | overwrites one in-bounds back-buffer cell, changes no other, and ignores out-of-bounds positions |
| Render.TerminalCanvas.Clear | src/lib.rs:92-94 | every back-buffer cell null |
| Render.TerminalCanvas.RefreshSize | src/lib.rs:96-102 | both buffers are resized and blanked exactly when the terminal size differs from the back buffer's, otherwise kept; the buffers always share dimensions |
| Render.TerminalCanvas.FrameStart | src/lib.rs:111-113 | nothing of the frame is done yet |
| Render.TerminalCanvas.PresentCell | src/lib.rs:116-166 | one more cell of the frame is done |
| Render.TerminalCanvas.DrawChanged | src/lib.rs:122-165 | a changed cell is drawn and copied, and the frame state moves one cell on |
| Render.TerminalCanvas.PresentRow | src/lib.rs:115-167 | the inner loop finishes its row and stands at the start of the next |
| Render.TerminalCanvas.PresentRows | src/lib.rs:114-169 | the nested loops end with every drawn row done |
| Render.TerminalCanvas.DrawFrame | src/lib.rs:106-172 | writes exactly the bytes of the frame's commands and flushes them all; the front buffer ends equal to the back buffer whenever the rows are drawn (the dimensions fit an `i32`), and is untouched otherwise |
| Render.TerminalCanvas.Present | src/lib.rs:104-175 | `refresh_size`, then the frame: the bytes of the frame from the (possibly blanked) front buffer; afterwards front equals back whenever the dimensions fit an `i32` |

## Left out

- `Color::blend`, `as_floats` and `set_brightness` (src/color.rs:136-165), and `font_ratio` (src/terminal/resize.rs:130-132): floating-point arithmetic. `blend` is a parameter of every operation that uses it.
- `Canvas::draw_line` (src/canvas.rs:138-172): an f32 error accumulator whose termination rests on float equality.
- Canvas accessors `width`, `height` and `size` (src/canvas.rs:86-96): the fields are read directly.
- `Canvas::cell_mut` (src/canvas.rs:120-126): modelled by `Index` and a write to the cell sequence, since Dafny has no mutable references into a sequence.
- The clip arithmetic of `draw_canvas` (src/canvas.rs:177-181) wraps as a release build does; a debug build panics on that overflow instead, which is not modelled.
- Canvas coordinate sums such as `x + rect.x` and `x + dx` (src/canvas.rs:77-78, 185) are unbounded integers. An `i32` overflow there panics in a debug build and wraps in a release build; either way the result is off the grid when the canvas is narrower than 2^31 columns, so the model treats it as out of bounds.
- Render.GlyphStep: proved only where a transparent foreground does not follow another foreground, because the source then writes black (see Findings); `GlyphRun` states what happens in every case.
- Render.DrawCellShows: proved only for null cells, non-transparent foregrounds, or a transparent foreground already in effect, for the same reason.
- Render.SweepRowShows: proved only for rows whose visible cells have non-transparent foregrounds, for the same reason.
- Render.SweepShows: proved only for grids whose visible cells have non-transparent foregrounds, for the same reason.
- Render.PresentShowsBack: proved only for back buffers whose visible cells have non-transparent foregrounds, for the same reason; `TransparentFgFrame` is a frame where it fails.
- `TerminalCanvas::canvas`, `canvas_mut`, `width` and `height` (src/lib.rs:38-52): accessors. Resizing the back buffer through `canvas_mut` alone is not modelled; the class keeps the two buffers the same size.
- `TerminalCanvas::new` (src/lib.rs:25-36): the constructor takes a ready `Terminal`. The event channel and the terminal setup are not modelled.
- `attach`, `detach` and `next_event` of `TerminalCanvas` (src/lib.rs:54-84): terminal mode changes through termios and a non-blocking channel poll.
- Signals, threads and channels:
  - `handle_interrupt` and `listen_for_events` (src/terminal/input.rs:10-39);
  - the `RESIZE_CHANNEL` static and the ioctl query in `handle_resize` (src/terminal/resize.rs:15-26);
  - `listen_for_resize` and `Terminal::refresh_size` (src/terminal/resize.rs:80-104).

  The queried geometry is a parameter of `HandleResize`, and the events to send are its result. The model sends them even when no channel is installed; the Rust code then drops them.
- `Terminal::new` (src/terminal/mod.rs:22-34) calls `refresh_size`. In the model the caller passes a `GeometryCache` that `HandleResize` has already updated. The stdin and stdout accessors (src/terminal/mod.rs:36-50) are not modelled.
- `src/terminal/flags.rs` and `src/terminal/modes.rs` (termios through ioctl, mouse mode writes) and `src/terminal_wasm` (a stub backend) are not part of this model.
- I/O errors and partial writes: every write succeeds completely, so no `?` early return is modelled. `Render.TerminalCanvas.Present` and `Escapes.Terminal.Write` promise nothing about a failed write.
- Input read errors are read as byte 0, as end of input is; the model has no separate error stream.
- Input.InputParser.ReadX10Mouse: the source does not decode X10 reports either.
- Double-width characters (src/lib.rs:164): the cursor advances one column per written character, as in the source.
- Render.TerminalCanvas.PresentRows: when the width does not fit an `i32`, the source still runs the row loop, but every row's range is empty. The model skips that loop, which has the same effect.
- `Event` equality is Dafny's structural equality on datatypes, matching the derived `PartialEq`.

## Findings

| source | as written | input that shows it | evidently intended | confidence | as-written member | corrected member |
|---|---|---|---|---|---|---|
| src/lib.rs:157-160 | a transparent foreground that differs from the tracked one is sent with `fg_color`, i.e. SGR 38;2;0;0;0 (black), while `cursor_fg` records transparent, the default | front [null, null], back ['a' red on transparent, 'b' transparent on transparent], 2x1: 'b' shows black, but drawn first it shows in the default ink | a transparent foreground shows in the terminal's default foreground, as SGR 0 sets it | medium, not executed | Render.TransparentFgFrame, Render.GlyphStepBlack | Render.GlyphCmdsFixed, Render.GlyphStepFixed |

The renderer class (`Render.TerminalCanvas`) and `Render.DrawCell` model the code as written; the corrected commands are proved separately.
