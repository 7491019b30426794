/** The double-buffered renderer `TerminalCanvas` (`src/lib.rs`).

    Drawing goes to a back buffer; `present` compares it with a front buffer
    holding what the terminal shows, copies each changed cell across and
    writes only what that cell needs: a cursor move unless the cursor is
    already there, colour changes unless the colours are already set, and
    the character.

    The commands of one frame are specified by a left fold over the grid in
    row-major order (`Sweep`), from which the frame's command list
    (`FrameCommands`) is built. A terminal interpreter (`Run`) gives the
    commands their meaning, and the main theorem (`PresentShowsBack`) says a
    terminal that showed the front buffer shows the back buffer once the
    frame has been written. The class `TerminalCanvas` performs the Rust
    nested loops against the byte-level `Terminal` and is proved to write
    exactly the bytes of `FrameCommands`. */
module Render {
  import opened Ints
  import opened Options
  import opened Colors
  import opened Cells
  import opened Canvases
  import opened Escapes

  // ---------------------------------------------------------------------
  // The commands for one changed cell.

  /** What `present` believes about the terminal: the cursor position
      (-1, -1 when unknown) and the colours last set. */
  datatype Tracker = Tracker(x: int, y: int, fg: Color, bg: Color)

  /** The tracked state after the initial reset. */
  const Start: Tracker := Tracker(-1, -1, Transparent(), Transparent())

  /** The background a cell is drawn with: an alpha of 0 counts as transparent. */
  function ShownBg(bg: Color): (r: Color)
    ensures r == Transparent() <==> bg.a == 0
  {
    if bg.a > 0 then bg else Transparent()
  }

  function CountChars(cmds: seq<Command>): (n: nat)
    ensures n <= |cmds|
  {
    if cmds == [] then 0 else (if cmds[0].Char? then 1 else 0) + CountChars(cmds[1..])
  }

  lemma {:induction false} CountCharsAppend(a: seq<Command>, b: seq<Command>)
    ensures CountChars(a + b) == CountChars(a) + CountChars(b)
  {
    if a == [] {
      assert a + b == b;
    } else {
      assert (a + b)[0] == a[0] && (a + b)[1..] == a[1..] + b;
      CountCharsAppend(a[1..], b);
    }
  }

  /** The cursor move before a changed cell: none if the cursor is there. */
  function MoveCmds(t: Tracker, x: u32, y: u32): seq<Command>
  {
    if x != t.x || y != t.y then [MoveTo(x, y)] else []
  }

  /** A null-symbol cell: a reset unless both colours are already the
      default, then a blank. */
  function BlankCmds(t: Tracker): seq<Command>
  {
    (if t.fg != Transparent() || t.bg != Transparent() then [Command.Reset] else []) + [Char(' ')]
  }

  /** The background step for a visible symbol: nothing if the background is
      already right, a reset to reach the default, otherwise SGR 48. */
  function BgCmds(t: Tracker, c: Cell): seq<Command>
  {
    var bg := ShownBg(c.bg);
    if t.bg == bg then [] else if bg == Transparent() then [Command.Reset] else [Bg(c.bg)]
  }

  /** The foreground in effect after the background step (a reset clears it). */
  function FgAfterBg(t: Tracker, c: Cell): Color
  {
    if t.bg != ShownBg(c.bg) && ShownBg(c.bg) == Transparent() then Transparent() else t.fg
  }

  /** A visible symbol: the background step, SGR 38 unless the foreground is
      already right, then the symbol. */
  function GlyphCmds(t: Tracker, c: Cell): seq<Command>
  {
    BgCmds(t, c) + (if FgAfterBg(t, c) != c.fg then [Fg(c.fg)] else []) + [Char(c.symbol)]
  }

  /** The commands `present` writes for a cell that differs from the front
      buffer, and the tracked state afterwards. */
  function DrawCell(t: Tracker, x: u32, y: u32, c: Cell): (r: (Tracker, seq<Command>))
    // The cursor is tracked one column to the right of the cell.
    ensures r.0.x == x + 1 && r.0.y == y
    // A null symbol leaves the default colours set; a glyph leaves its own.
    ensures c.symbol == '\0' ==> r.0.fg == Transparent() && r.0.bg == Transparent()
    ensures c.symbol != '\0' ==> r.0.fg == c.fg && r.0.bg == ShownBg(c.bg)
    // Something is always written.
    ensures |r.1| >= 1
  {
    if c.symbol == '\0' then (Tracker(x + 1, y, Transparent(), Transparent()), MoveCmds(t, x, y) + BlankCmds(t))
    else (Tracker(x + 1, y, c.fg, ShownBg(c.bg)), MoveCmds(t, x, y) + GlyphCmds(t, c))
  }

  /** The shape of a changed cell's commands. */
  lemma DrawCellCommands(t: Tracker, x: u32, y: u32, c: Cell)
    ensures var r := DrawCell(t, x, y, c);
      // The cursor moves exactly when it is not already at the cell, and first.
      ((x != t.x || y != t.y) <==> (|r.1| > 0 && r.1[0] == MoveTo(x, y))) &&
      (forall i :: 1 <= i < |r.1| ==> !r.1[i].MoveTo?) &&
      // Exactly one character is written, last: a blank for the null symbol.
      |r.1| > 0 && r.1[|r.1| - 1] == Char(if c.symbol == '\0' then ' ' else c.symbol) &&
      CountChars(r.1) == 1 &&
      // The tracked cursor ends one column to the right.
      r.0.x == x + 1 && r.0.y == y
  {
    var move := MoveCmds(t, x, y);
    if c.symbol == '\0' {
      var reset := if t.fg != Transparent() || t.bg != Transparent() then [Command.Reset] else [];
      CountCharsAppend(reset, [Char(' ')]);
      CountCharsAppend(move, BlankCmds(t));
    } else {
      var fgCmds := if FgAfterBg(t, c) != c.fg then [Fg(c.fg)] else [];
      CountCharsAppend(BgCmds(t, c) + fgCmds, [Char(c.symbol)]);
      CountCharsAppend(BgCmds(t, c), fgCmds);
      CountCharsAppend(move, GlyphCmds(t, c));
    }
  }

  // ---------------------------------------------------------------------
  // The commands of a whole frame.

  /** The cell at (x, y) is written only if the back buffer changed it. */
  function Visit(front: seq<Cell>, back: seq<Cell>, w: u32, x: u32, y: u32, t: Tracker): (r: (Tracker, seq<Command>))
    ensures At(back, w, x, y) == At(front, w, x, y) ==> r == (t, [])
  {
    var b := At(back, w, x, y);
    if b == At(front, w, x, y) then (t, []) else DrawCell(t, x, y, b)
  }

  /** The first `n` cells of row `y`, left to right. */
  function SweepRow(front: seq<Cell>, back: seq<Cell>, w: u32, y: u32, n: nat, t: Tracker): (r: (Tracker, seq<Command>))
    requires n <= w
    // A row that writes nothing leaves the tracked state untouched
    // (RowQuietIffUnchanged says when that happens).
    ensures r.1 == [] ==> r.0 == t
    decreases n
  {
    if n == 0 then (t, [])
    else
      var p := SweepRow(front, back, w, y, n - 1, t);
      var v := Visit(front, back, w, n - 1, y, p.0);
      (v.0, p.1 + v.1)
  }

  /** The first `m` rows, top to bottom. */
  function Sweep(front: seq<Cell>, back: seq<Cell>, w: u32, m: nat, t: Tracker): (r: (Tracker, seq<Command>))
    requires m <= U32_LIMIT
    // Rows that write nothing leave the tracked state untouched
    // (QuietIffUnchanged says when that happens).
    ensures r.1 == [] ==> r.0 == t
    decreases m
  {
    if m == 0 then (t, [])
    else
      var p := Sweep(front, back, w, m - 1, t);
      var row := SweepRow(front, back, w, m - 1, w, p.0);
      (row.0, p.1 + row.1)
  }

  /** Everything one `present` writes for buffers of `w` by `h` cells. */
  function FrameCommands(front: seq<Cell>, back: seq<Cell>, w: u32, h: u32): (cmds: seq<Command>)
    ensures |cmds| >= 3 && cmds[0] == Command.Reset
    ensures cmds[|cmds| - 2..] == [MoveTo(0, 0), Flush]
  {
    [Command.Reset] + Sweep(front, back, w, h, Start).1 + [MoveTo(0, 0), Flush]
  }

  // ---------------------------------------------------------------------
  // How many characters a frame writes.

  /** The number of cells among the first `n` of row `y` that differ. */
  function ChangedInRow(front: seq<Cell>, back: seq<Cell>, w: u32, y: u32, n: nat): nat
    requires n <= w
  {
    if n == 0 then 0
    else ChangedInRow(front, back, w, y, n - 1) + (if At(back, w, n - 1, y) != At(front, w, n - 1, y) then 1 else 0)
  }

  function Changed(front: seq<Cell>, back: seq<Cell>, w: u32, m: nat): nat
    requires m <= U32_LIMIT
  {
    if m == 0 then 0 else Changed(front, back, w, m - 1) + ChangedInRow(front, back, w, m - 1, w)
  }

  /** A row writes nothing exactly when none of its cells changed. */
  lemma {:induction false} RowQuietIffUnchanged(front: seq<Cell>, back: seq<Cell>, w: u32, y: u32, n: nat, t: Tracker)
    requires n <= w
    ensures SweepRow(front, back, w, y, n, t).1 == [] <==> ChangedInRow(front, back, w, y, n) == 0
  {
    if n > 0 {
      RowQuietIffUnchanged(front, back, w, y, n - 1, t);
      var p := SweepRow(front, back, w, y, n - 1, t);
      var v := Visit(front, back, w, n - 1, y, p.0);
      assert SweepRow(front, back, w, y, n, t).1 == p.1 + v.1;
      assert v.1 == [] <==> At(back, w, n - 1, y) == At(front, w, n - 1, y);
    }
  }

  /** A frame's rows write nothing exactly when no cell in them changed. */
  lemma {:induction false} QuietIffUnchanged(front: seq<Cell>, back: seq<Cell>, w: u32, m: nat, t: Tracker)
    requires m <= U32_LIMIT
    ensures Sweep(front, back, w, m, t).1 == [] <==> Changed(front, back, w, m) == 0
  {
    if m > 0 {
      QuietIffUnchanged(front, back, w, m - 1, t);
      var p := Sweep(front, back, w, m - 1, t);
      RowQuietIffUnchanged(front, back, w, m - 1, w, p.0);
    }
  }

  lemma {:induction false} RowCharCount(front: seq<Cell>, back: seq<Cell>, w: u32, y: u32, n: nat, t: Tracker)
    requires n <= w
    ensures CountChars(SweepRow(front, back, w, y, n, t).1) == ChangedInRow(front, back, w, y, n)
  {
    if n > 0 {
      RowCharCount(front, back, w, y, n - 1, t);
      var p := SweepRow(front, back, w, y, n - 1, t);
      DrawCellCommands(p.0, n - 1, y, At(back, w, n - 1, y));
      CountCharsAppend(p.1, Visit(front, back, w, n - 1, y, p.0).1);
    }
  }

  /** A frame writes one character per changed cell and no other. */
  lemma {:induction false} FrameCharCount(front: seq<Cell>, back: seq<Cell>, w: u32, m: nat, t: Tracker)
    requires m <= U32_LIMIT
    ensures CountChars(Sweep(front, back, w, m, t).1) == Changed(front, back, w, m)
  {
    if m > 0 {
      FrameCharCount(front, back, w, m - 1, t);
      var p := Sweep(front, back, w, m - 1, t);
      RowCharCount(front, back, w, m - 1, w, p.0);
      CountCharsAppend(p.1, SweepRow(front, back, w, m - 1, w, p.0).1);
    }
  }

  /** Unchanged rows write nothing and leave the tracked state alone. */
  lemma {:induction false} QuietRow(front: seq<Cell>, back: seq<Cell>, w: u32, y: u32, n: nat, t: Tracker)
    requires n <= w
    requires forall a :: 0 <= a < n ==> At(back, w, a, y) == At(front, w, a, y)
    ensures SweepRow(front, back, w, y, n, t) == (t, [])
  {
    if n > 0 {
      QuietRow(front, back, w, y, n - 1, t);
      assert At(back, w, n - 1, y) == At(front, w, n - 1, y);
      var none: seq<Command> := [];
      assert none + none == none;
    }
  }

  lemma {:induction false} QuietSweep(front: seq<Cell>, back: seq<Cell>, w: u32, m: nat, t: Tracker)
    requires m <= U32_LIMIT
    requires forall a, b :: 0 <= a < w && 0 <= b < m ==> At(back, w, a, b) == At(front, w, a, b)
    ensures Sweep(front, back, w, m, t) == (t, [])
  {
    if m > 0 {
      QuietSweep(front, back, w, m - 1, t);
      QuietRow(front, back, w, m - 1, w, t);
      var none: seq<Command> := [];
      assert none + none == none;
    }
  }

  /** Presenting buffers that already agree writes only the frame's
      opening reset, the cursor home and the flush. */
  lemma IdleFrame(cells: seq<Cell>, w: u32, h: u32)
    ensures FrameCommands(cells, cells, w, h) == [Command.Reset, MoveTo(0, 0), Flush]
  {
    QuietSweep(cells, cells, w, h, Start);
  }

  /** A changed cell right after another changed cell of the same row is
      written without a cursor move: a run of changes costs one move. */
  lemma AdjacentChangeNoMove(t: Tracker, x: u32, y: u32, c: Cell, d: Cell)
    requires x + 1 < U32_LIMIT
    ensures var second := DrawCell(DrawCell(t, x, y, c).0, x + 1, y, d).1;
      forall i :: 0 <= i < |second| ==> !second[i].MoveTo?
  {
    DrawCellCommands(t, x, y, c);
    DrawCellCommands(DrawCell(t, x, y, c).0, x + 1, y, d);
  }

  // ---------------------------------------------------------------------
  // What the commands do to a terminal.

  /** A colour as the terminal holds it: its default, or the red, green and
      blue channels an SGR 38;2 or 48;2 sequence sent (alpha is never sent). */
  datatype Ink = DefaultInk | RgbInk(r: u8, g: u8, b: u8)

  /** The ink `present` means by a tracked colour: transparent is the
      terminal's default (the state right after SGR 0), any other colour is
      its channels. */
  function InkOf(c: Color): (k: Ink)
    ensures k == DefaultInk <==> c == Transparent()
    ensures k != DefaultInk ==> k == RgbInk(c.r, c.g, c.b)
  {
    if c == Transparent() then DefaultInk else RgbInk(c.r, c.g, c.b)
  }

  /** A character cell as a terminal shows it. */
  datatype Glyph = Glyph(symbol: char, fg: Ink, bg: Ink)

  /** A terminal screen: the cursor, the current inks and the glyph shown at
      each position written. */
  datatype Screen = Screen(cx: int, cy: int, fg: Ink, bg: Ink, shown: map<(int, int), Glyph>)

  /** The effect of one command, read from the bytes it sends: SGR 0
      restores the default inks, CUP places the cursor, SGR 38;2 and 48;2 set
      the channels they carry, a character is shown with the current inks
      and moves the cursor one column right. */
  function Apply(s: Screen, cmd: Command): Screen
  {
    match cmd
    case Reset => s.(fg := DefaultInk, bg := DefaultInk)
    case MoveTo(x, y) => s.(cx := x, cy := y)
    case Bg(c) => s.(bg := RgbInk(c.r, c.g, c.b))
    case Fg(c) => s.(fg := RgbInk(c.r, c.g, c.b))
    case Char(ch) => s.(shown := s.shown[(s.cx, s.cy) := Glyph(ch, s.fg, s.bg)], cx := s.cx + 1)
    case Flush => s
  }

  function Run(s: Screen, cmds: seq<Command>): Screen
    decreases |cmds|
  {
    if cmds == [] then s else Run(Apply(s, cmds[0]), cmds[1..])
  }

  lemma {:induction false} RunAppend(s: Screen, a: seq<Command>, b: seq<Command>)
    ensures Run(s, a + b) == Run(Run(s, a), b)
    decreases |a|
  {
    if a == [] {
      assert a + b == b;
    } else {
      assert (a + b)[0] == a[0] && (a + b)[1..] == a[1..] + b;
      RunAppend(Apply(s, a[0]), a[1..], b);
    }
  }

  /** How a buffer cell is meant to look on the terminal: the null symbol
      as a blank in the default inks, any other symbol in its colours, where
      a transparent colour (and any alpha-0 background) is the default. */
  function Display(c: Cell): Glyph
  {
    if c.symbol == '\0' then Glyph(' ', DefaultInk, DefaultInk)
    else Glyph(c.symbol, InkOf(c.fg), InkOf(ShownBg(c.bg)))
  }

  /** A cell whose look `present` writes faithfully: the null symbol, or a
      foreground that is not transparent. */
  predicate InkedFg(c: Cell)
  {
    c.symbol == '\0' || c.fg != Transparent()
  }

  /** The tracked state is true of the screen: the inks are those of the
      tracked colours, and a known cursor position is the real one. */
  predicate Synced(t: Tracker, s: Screen)
  {
    s.fg == InkOf(t.fg) && s.bg == InkOf(t.bg) && (t.x >= 0 ==> s.cx == t.x && s.cy == t.y)
  }

  lemma RunOne(s: Screen, cmd: Command)
    ensures Run(s, [cmd]) == Apply(s, cmd)
  {
    assert [cmd][1..] == [];
  }

  /** The cursor step of `DrawCell` puts the cursor on the cell. */
  lemma MoveStep(t: Tracker, s: Screen, x: u32, y: u32)
    requires Synced(t, s)
    ensures Run(s, MoveCmds(t, x, y)) == s.(cx := x, cy := y)
  {
    if x != t.x || y != t.y {
      RunOne(s, MoveTo(x, y));
    }
  }

  lemma BlankStep(t: Tracker, s: Screen)
    requires s.fg == InkOf(t.fg) && s.bg == InkOf(t.bg)
    ensures Run(s, BlankCmds(t))
         == s.(fg := DefaultInk, bg := DefaultInk, cx := s.cx + 1,
               shown := s.shown[(s.cx, s.cy) := Glyph(' ', DefaultInk, DefaultInk)])
  {
    var reset := if t.fg != Transparent() || t.bg != Transparent() then [Command.Reset] else [];
    var s1 := s.(fg := DefaultInk, bg := DefaultInk);
    if reset != [] { RunOne(s, Command.Reset); }
    assert Run(s, reset) == s1;
    RunOne(s1, Char(' '));
    RunAppend(s, reset, [Char(' ')]);
  }

  /** The background step leaves the background ink of the cell and, when
      it had to reset, the default foreground. */
  lemma BgStep(t: Tracker, s: Screen, c: Cell)
    requires s.fg == InkOf(t.fg) && s.bg == InkOf(t.bg)
    ensures Run(s, BgCmds(t, c)) == s.(fg := InkOf(FgAfterBg(t, c)), bg := InkOf(ShownBg(c.bg)))
  {
    if BgCmds(t, c) != [] { RunOne(s, BgCmds(t, c)[0]); }
  }

  /** The foreground ink a glyph is written in, as the source does it: the
      channels of the cell's foreground when SGR 38 is sent, otherwise the
      ink already in effect. */
  function SentFg(t: Tracker, c: Cell): Ink
  {
    if FgAfterBg(t, c) != c.fg then RgbInk(c.fg.r, c.fg.g, c.fg.b) else InkOf(c.fg)
  }

  /** What the commands of a visible symbol do to the screen. */
  lemma GlyphRun(t: Tracker, s: Screen, c: Cell)
    requires s.fg == InkOf(t.fg) && s.bg == InkOf(t.bg)
    ensures Run(s, GlyphCmds(t, c))
         == s.(fg := SentFg(t, c), bg := InkOf(ShownBg(c.bg)), cx := s.cx + 1,
               shown := s.shown[(s.cx, s.cy) := Glyph(c.symbol, SentFg(t, c), InkOf(ShownBg(c.bg)))])
  {
    var fgCmds := if FgAfterBg(t, c) != c.fg then [Fg(c.fg)] else [];
    var s1 := s.(fg := InkOf(FgAfterBg(t, c)), bg := InkOf(ShownBg(c.bg)));
    BgStep(t, s, c);
    var s2 := s1.(fg := SentFg(t, c));
    if fgCmds != [] { RunOne(s1, Fg(c.fg)); }
    assert Run(s1, fgCmds) == s2;
    RunOne(s2, Char(c.symbol));
    RunAppend(s, BgCmds(t, c), fgCmds);
    RunAppend(s, BgCmds(t, c) + fgCmds, [Char(c.symbol)]);
  }

  /** A visible symbol shows as it is meant to, and its colours become the
      tracked ones, unless its foreground is transparent while another
      foreground is in effect (see `GlyphStepBlack`). */
  lemma GlyphStep(t: Tracker, s: Screen, c: Cell)
    requires s.fg == InkOf(t.fg) && s.bg == InkOf(t.bg)
    requires c.fg == Transparent() ==> FgAfterBg(t, c) == Transparent()
    ensures Run(s, GlyphCmds(t, c))
         == s.(fg := InkOf(c.fg), bg := InkOf(ShownBg(c.bg)), cx := s.cx + 1,
               shown := s.shown[(s.cx, s.cy) := Glyph(c.symbol, InkOf(c.fg), InkOf(ShownBg(c.bg)))])
  {
    GlyphRun(t, s, c);
  }

  /** As written, a transparent foreground after another foreground is sent
      with SGR 38;2;0;0;0: the glyph shows black, and the screen no longer
      holds the ink of the tracked foreground (the default). */
  lemma GlyphStepBlack(t: Tracker, s: Screen, c: Cell)
    requires s.fg == InkOf(t.fg) && s.bg == InkOf(t.bg)
    requires c.fg == Transparent() && FgAfterBg(t, c) != Transparent()
    ensures var after := Run(s, GlyphCmds(t, c));
      (s.cx, s.cy) in after.shown
      && after.shown[(s.cx, s.cy)] == Glyph(c.symbol, RgbInk(0, 0, 0), InkOf(ShownBg(c.bg)))
      && after.fg == RgbInk(0, 0, 0) && after.fg != InkOf(c.fg)
  {
    GlyphRun(t, s, c);
  }

  /** The foreground step as evidently intended: a transparent foreground
      is the terminal's default, which SGR 0 restores; SGR 0 also clears the
      background, so a visible background is sent again. */
  function FgCmdsFixed(t: Tracker, c: Cell): seq<Command>
  {
    if FgAfterBg(t, c) == c.fg then []
    else if c.fg != Transparent() then [Fg(c.fg)]
    else [Command.Reset] + (if ShownBg(c.bg) != Transparent() then [Bg(c.bg)] else [])
  }

  /** The corrected commands of a visible symbol; they differ from the
      source's only for a transparent foreground. */
  function GlyphCmdsFixed(t: Tracker, c: Cell): (cmds: seq<Command>)
    ensures c.fg != Transparent() ==> cmds == GlyphCmds(t, c)
  {
    BgCmds(t, c) + FgCmdsFixed(t, c) + [Char(c.symbol)]
  }

  /** With the correction every visible symbol shows as it is meant to, and
      the tracked colours stay true of the screen. */
  lemma GlyphStepFixed(t: Tracker, s: Screen, c: Cell)
    requires s.fg == InkOf(t.fg) && s.bg == InkOf(t.bg)
    ensures Run(s, GlyphCmdsFixed(t, c))
         == s.(fg := InkOf(c.fg), bg := InkOf(ShownBg(c.bg)), cx := s.cx + 1,
               shown := s.shown[(s.cx, s.cy) := Glyph(c.symbol, InkOf(c.fg), InkOf(ShownBg(c.bg)))])
    ensures c.symbol != '\0' ==> Glyph(c.symbol, InkOf(c.fg), InkOf(ShownBg(c.bg))) == Display(c)
  {
    var s1 := s.(fg := InkOf(FgAfterBg(t, c)), bg := InkOf(ShownBg(c.bg)));
    BgStep(t, s, c);
    var fgCmds := FgCmdsFixed(t, c);
    var s2 := s1.(fg := InkOf(c.fg));
    if FgAfterBg(t, c) == c.fg {
    } else if c.fg != Transparent() {
      RunOne(s1, Fg(c.fg));
    } else {
      var s0 := s1.(fg := DefaultInk, bg := DefaultInk);
      RunOne(s1, Command.Reset);
      if ShownBg(c.bg) != Transparent() {
        RunOne(s0, Bg(c.bg));
        RunAppend(s1, [Command.Reset], [Bg(c.bg)]);
        assert fgCmds == [Command.Reset] + [Bg(c.bg)];
      } else {
        assert fgCmds == [Command.Reset];
      }
    }
    assert Run(s1, fgCmds) == s2;
    RunOne(s2, Char(c.symbol));
    RunAppend(s, BgCmds(t, c), fgCmds);
    RunAppend(s, BgCmds(t, c) + fgCmds, [Char(c.symbol)]);
  }

  /** The commands for one changed cell show it where it belongs, with the
      colours it asks for, and keep the tracked state true. */
  lemma DrawCellShows(t: Tracker, s: Screen, x: u32, y: u32, c: Cell)
    requires Synced(t, s)
    // A transparent foreground shows right only where it is already in effect.
    requires InkedFg(c) || FgAfterBg(t, c) == Transparent()
    ensures var r := DrawCell(t, x, y, c);
      Run(s, r.1) == Screen(x + 1, y, InkOf(r.0.fg), InkOf(r.0.bg), s.shown[(x, y) := Display(c)])
      && Synced(r.0, Run(s, r.1))
  {
    MoveStep(t, s, x, y);
    var s1 := s.(cx := x, cy := y);
    if c.symbol == '\0' {
      BlankStep(t, s1);
      RunAppend(s, MoveCmds(t, x, y), BlankCmds(t));
    } else {
      GlyphStep(t, s1, c);
      RunAppend(s, MoveCmds(t, x, y), GlyphCmds(t, c));
    }
  }

  /** The screen contents once the first `n` cells of row `y` are presented. */
  function PaintRow(shown: map<(int, int), Glyph>, front: seq<Cell>, back: seq<Cell>, w: u32, y: u32, n: nat): map<(int, int), Glyph>
    requires n <= w
  {
    if n == 0 then shown
    else
      var m := PaintRow(shown, front, back, w, y, n - 1);
      if At(back, w, n - 1, y) != At(front, w, n - 1, y) then m[(n - 1, y as int) := Display(At(back, w, n - 1, y))] else m
  }

  function Paint(shown: map<(int, int), Glyph>, front: seq<Cell>, back: seq<Cell>, w: u32, rows: nat): map<(int, int), Glyph>
    requires rows <= U32_LIMIT
  {
    if rows == 0 then shown else PaintRow(Paint(shown, front, back, w, rows - 1), front, back, w, rows - 1, w)
  }

  lemma {:induction false} SweepRowShows(front: seq<Cell>, back: seq<Cell>, w: u32, y: u32, n: nat, t: Tracker, s: Screen)
    requires n <= w && Synced(t, s)
    requires forall a :: 0 <= a < n ==> InkedFg(At(back, w, a, y))
    ensures var r := SweepRow(front, back, w, y, n, t);
      Synced(r.0, Run(s, r.1)) && Run(s, r.1).shown == PaintRow(s.shown, front, back, w, y, n)
  {
    if n > 0 {
      var p := SweepRow(front, back, w, y, n - 1, t);
      SweepRowShows(front, back, w, y, n - 1, t, s);
      var v := Visit(front, back, w, n - 1, y, p.0);
      RunAppend(s, p.1, v.1);
      if At(back, w, n - 1, y) != At(front, w, n - 1, y) {
        DrawCellShows(p.0, Run(s, p.1), n - 1, y, At(back, w, n - 1, y));
      }
    }
  }

  lemma {:induction false} SweepShows(front: seq<Cell>, back: seq<Cell>, w: u32, m: nat, t: Tracker, s: Screen)
    requires m <= U32_LIMIT && Synced(t, s)
    requires forall a, b :: 0 <= a < w && 0 <= b < m ==> InkedFg(At(back, w, a, b))
    ensures var r := Sweep(front, back, w, m, t);
      Synced(r.0, Run(s, r.1)) && Run(s, r.1).shown == Paint(s.shown, front, back, w, m)
  {
    if m > 0 {
      var p := Sweep(front, back, w, m - 1, t);
      SweepShows(front, back, w, m - 1, t, s);
      var row := SweepRow(front, back, w, m - 1, w, p.0);
      RunAppend(s, p.1, row.1);
      SweepRowShows(front, back, w, m - 1, w, p.0, Run(s, p.1));
    }
  }

  lemma {:induction false} PaintRowAt(shown: map<(int, int), Glyph>, front: seq<Cell>, back: seq<Cell>, w: u32, y: u32, n: nat, a: int, b: int)
    requires n <= w && (a, b) in shown
    ensures (a, b) in PaintRow(shown, front, back, w, y, n)
    ensures PaintRow(shown, front, back, w, y, n)[(a, b)]
         == if b == y && 0 <= a < n && At(back, w, a, b) != At(front, w, a, b) then Display(At(back, w, a, b)) else shown[(a, b)]
  {
    if n > 0 {
      PaintRowAt(shown, front, back, w, y, n - 1, a, b);
    }
  }

  lemma {:induction false} PaintAt(shown: map<(int, int), Glyph>, front: seq<Cell>, back: seq<Cell>, w: u32, rows: nat, a: int, b: int)
    requires rows <= U32_LIMIT && (a, b) in shown
    ensures (a, b) in Paint(shown, front, back, w, rows)
    ensures Paint(shown, front, back, w, rows)[(a, b)]
         == if 0 <= b < rows && 0 <= a < w && At(back, w, a, b) != At(front, w, a, b) then Display(At(back, w, a, b)) else shown[(a, b)]
  {
    if rows > 0 {
      PaintAt(shown, front, back, w, rows - 1, a, b);
      PaintRowAt(Paint(shown, front, back, w, rows - 1), front, back, w, rows - 1, w, a, b);
    }
  }

  /** Main theorem: a terminal showing the front buffer shows the back
      buffer once a frame's commands have been written to it, whatever its
      cursor and inks were, and its cursor is left at the top left. It
      holds for back buffers whose visible cells have a foreground that is
      not transparent; `TransparentFgFrame` shows why. */
  lemma PresentShowsBack(front: seq<Cell>, back: seq<Cell>, w: u32, h: u32, s: Screen)
    requires forall a, b :: InBounds(w, h, a, b) ==> (a, b) in s.shown && s.shown[(a, b)] == Display(At(front, w, a, b))
    requires forall a, b :: InBounds(w, h, a, b) ==> InkedFg(At(back, w, a, b))
    ensures var after := Run(s, FrameCommands(front, back, w, h));
      after.cx == 0 && after.cy == 0 &&
      forall a, b :: InBounds(w, h, a, b) ==> (a, b) in after.shown && after.shown[(a, b)] == Display(At(back, w, a, b))
  {
    var s1 := Apply(s, Command.Reset);
    RunOne(s, Command.Reset);
    var r := Sweep(front, back, w, h, Start);
    SweepShows(front, back, w, h, Start, s1);
    var s2 := Run(s1, r.1);
    var tail := [MoveTo(0, 0), Flush];
    assert Run(s2, tail) == s2.(cx := 0, cy := 0) by {
      assert tail[1..] == [Flush];
      assert [Flush][1..] == [];
    }
    RunAppend(s, [Command.Reset], r.1);
    RunAppend(s, [Command.Reset] + r.1, tail);
    forall a, b | InBounds(w, h, a, b)
      ensures (a, b) in s2.shown && s2.shown[(a, b)] == Display(At(back, w, a, b))
    {
      PaintAt(s1.shown, front, back, w, h, a, b);
    }
  }

  /** The source as written, on a two-cell row: 'a' in red, then 'b' with a
      transparent foreground. 'b' is sent after SGR 38;2;0;0;0 and shows
      black, where it is meant to show in the default ink, as it does when
      it is the first glyph drawn. */
  lemma TransparentFgFrame(s: Screen)
    ensures var front := [Null(), Null()];
      var back := [Cell(Red(), Transparent(), 'a'), Cell(Transparent(), Transparent(), 'b')];
      var after := Run(s, FrameCommands(front, back, 2, 1));
      (1, 0) in after.shown && after.shown[(1, 0)] == Glyph('b', RgbInk(0, 0, 0), DefaultInk)
      && Display(back[1]) == Glyph('b', DefaultInk, DefaultInk)
  {
    var row := TransparentFgCommands();
    var s5 := Run(s, [Command.Reset] + row);
    RunAppend(s, [Command.Reset] + row, [MoveTo(0, 0), Flush]);
    assert s5.shown[(1, 0)] == Glyph('b', RgbInk(0, 0, 0), DefaultInk) by {
      var prefix := [Command.Reset, MoveTo(0, 0), Fg(Red()), Char('a'), Fg(Transparent())];
      assert [Command.Reset] + row == prefix + [Char('b')];
      RunAppend(s, prefix, [Char('b')]);
      RunOne(Run(s, prefix), Char('b'));
    }
  }

  /** The commands of that frame: the second glyph is preceded by
      `Fg(Transparent())`. */
  lemma TransparentFgCommands() returns (row: seq<Command>)
    ensures row == [MoveTo(0, 0), Fg(Red()), Char('a'), Fg(Transparent()), Char('b')]
    ensures FrameCommands([Null(), Null()], [Cell(Red(), Transparent(), 'a'), Cell(Transparent(), Transparent(), 'b')], 2, 1)
         == [Command.Reset] + row + [MoveTo(0, 0), Flush]
  {
    var front := [Null(), Null()];
    var a := Cell(Red(), Transparent(), 'a');
    var b := Cell(Transparent(), Transparent(), 'b');
    var back := [a, b];
    var t1 := Tracker(1, 0, Red(), Transparent());
    assert At(back, 2, 0, 0) == a && At(front, 2, 0, 0) == Null() by {
      assert RowStart(0, 2) == 0;
    }
    assert At(back, 2, 1, 0) == b && At(front, 2, 1, 0) == Null() by {
      assert RowStart(0, 2) == 0;
    }
    assert ShownBg(Transparent()) == Transparent() && Red() != Transparent();
    assert Visit(front, back, 2, 0, 0, Start) == (t1, [MoveTo(0, 0), Fg(Red()), Char('a')]) by {
      assert MoveCmds(Start, 0, 0) == [MoveTo(0, 0)] && BgCmds(Start, a) == [];
      assert GlyphCmds(Start, a) == [] + [Fg(Red())] + [Char('a')];
      assert a != Null();
      assert DrawCell(Start, 0, 0, a).0 == t1;
      assert DrawCell(Start, 0, 0, a).1 == [MoveTo(0, 0)] + ([] + [Fg(Red())] + [Char('a')]);
      assert [MoveTo(0, 0)] + ([] + [Fg(Red())] + [Char('a')]) == [MoveTo(0, 0), Fg(Red()), Char('a')];
    }
    assert Visit(front, back, 2, 1, 0, t1) == (Tracker(2, 0, Transparent(), Transparent()), [Fg(Transparent()), Char('b')]) by {
      assert MoveCmds(t1, 1, 0) == [] && BgCmds(t1, b) == [] && FgAfterBg(t1, b) == Red();
      assert GlyphCmds(t1, b) == [] + [Fg(Transparent())] + [Char('b')];
      assert b != Null();
      assert DrawCell(t1, 1, 0, b).1 == [] + ([] + [Fg(Transparent())] + [Char('b')]);
      assert [] + ([] + [Fg(Transparent())] + [Char('b')]) == [Fg(Transparent()), Char('b')];
    }
    row := [MoveTo(0, 0), Fg(Red()), Char('a'), Fg(Transparent()), Char('b')];
    assert SweepRow(front, back, 2, 0, 1, Start).1 == [MoveTo(0, 0), Fg(Red()), Char('a')];
    assert SweepRow(front, back, 2, 0, 2, Start).1 == row;
    assert Sweep(front, back, 2, 1, Start).1 == row;
  }

  // ---------------------------------------------------------------------
  // The renderer object.

  lemma EncodeSnoc(cmds: seq<Command>, cmd: Command)
    ensures EncodeAll(cmds + [cmd]) == EncodeAll(cmds) + Encode(cmd)
  {
    EncodeAllAppend(cmds, [cmd]);
    assert [cmd][1..] == [];
  }

  /** One more command written after a logged prefix. */
  lemma Emitted(o: seq<u8>, log: seq<Command>, cmd: Command)
    ensures o + EncodeAll(log) + Encode(cmd) == o + EncodeAll(log + [cmd])
  {
    EncodeSnoc(log, cmd);
    Regroup(o, EncodeAll(log), Encode(cmd));
  }

  /** Output written in two pieces is the output followed by both pieces;
      kept apart from the encoder so that the regrouping is proved on plain bytes. */
  lemma Regroup(o: seq<u8>, a: seq<u8>, b: seq<u8>)
    ensures o + a + b == o + (a + b)
  {
  }

  /** Two logged runs of commands written one after the other. */
  lemma EmittedBoth(o: seq<u8>, a: seq<Command>, b: seq<Command>)
    ensures o + EncodeAll(a) + EncodeAll(b) == o + EncodeAll(a + b)
  {
    EncodeAllAppend(a, b);
    Regroup(o, EncodeAll(a), EncodeAll(b));
  }

  /** `src/lib.rs` lines 130-136: a null-symbol cell. */
  method EmitBlank(term: Terminal, t: Tracker)
    modifies term
    ensures term.out == old(term.out) + EncodeAll(BlankCmds(t))
    ensures term.flushed == old(term.flushed)
  {
    ghost var log: seq<Command> := [];
    if t.fg != Transparent() || t.bg != Transparent() {
      var _ := term.Reset();
      Emitted(old(term.out), log, Command.Reset);
      log := log + [Command.Reset];
    }
    assert term.out == old(term.out) + EncodeAll(log);
    var _ := term.WriteChar(' ');
    Emitted(old(term.out), log, Char(' '));
    log := log + [Char(' ')];
  }

  /** `src/lib.rs` lines 137-141 and 147-151: the background colour of a
      visible symbol. */
  method EmitBg(term: Terminal, t: Tracker, c: Cell) returns (fg: Color)
    modifies term
    ensures term.out == old(term.out) + EncodeAll(BgCmds(t, c))
    ensures term.flushed == old(term.flushed)
    ensures fg == FgAfterBg(t, c)
  {
    fg := t.fg;
    var bg := if c.bg.a > 0 then c.bg else Transparent();
    if t.bg != bg {
      if bg == Transparent() {
        var _ := term.Reset();
        Emitted(old(term.out), [], Command.Reset);
        fg := Transparent();
      } else {
        var _ := term.BgColor(c.bg);
        Emitted(old(term.out), [], Bg(c.bg));
      }
    }
  }

  /** `src/lib.rs` lines 137-163: a visible symbol with its colours. */
  method EmitGlyph(term: Terminal, t: Tracker, c: Cell)
    modifies term
    ensures term.out == old(term.out) + EncodeAll(GlyphCmds(t, c))
    ensures term.flushed == old(term.flushed)
  {
    var fg := EmitBg(term, t, c);
    ghost var log := BgCmds(t, c);
    if fg != c.fg {
      var _ := term.FgColor(c.fg);
      Emitted(old(term.out), log, Fg(c.fg));
      log := log + [Fg(c.fg)];
    }
    assert term.out == old(term.out) + EncodeAll(log);
    var _ := term.WriteChar(c.symbol);
    Emitted(old(term.out), log, Char(c.symbol));
    log := log + [Char(c.symbol)];
    assert log == GlyphCmds(t, c);
  }

  /** The body of `present`'s loop for a changed cell (lines 122-165 of
      `src/lib.rs`, without the copy into the front buffer): writes the cell's
      commands and returns the new tracked state. */
  method EmitCell(term: Terminal, t: Tracker, x: u32, y: u32, c: Cell) returns (t2: Tracker)
    modifies term
    ensures term.out == old(term.out) + EncodeAll(DrawCell(t, x, y, c).1)
    ensures term.flushed == old(term.flushed)
    ensures t2 == DrawCell(t, x, y, c).0
  {
    var cursorX, cursorY := t.x, t.y;
    if x != cursorX || y != cursorY {
      cursorX, cursorY := x, y;
      var _ := term.MoveTo(x, y);
      Emitted(old(term.out), [], MoveTo(x, y));
    }
    assert term.out == old(term.out) + EncodeAll(MoveCmds(t, x, y));
    if c.symbol == '\0' {
      EmitBlank(term, t);
      EmittedBoth(old(term.out), MoveCmds(t, x, y), BlankCmds(t));
      t2 := Tracker(cursorX + 1, cursorY, Transparent(), Transparent());
    } else {
      EmitGlyph(term, t, c);
      EmittedBoth(old(term.out), MoveCmds(t, x, y), GlyphCmds(t, c));
      t2 := Tracker(cursorX + 1, cursorY, c.fg, if c.bg.a > 0 then c.bg else Transparent());
    }
  }

  // ---------------------------------------------------------------------
  // The double-buffered canvas.

  /** A grid of `n` null cells, as a fresh or resized canvas holds. */
  function Blank(n: nat): (s: seq<Cell>)
    ensures |s| == n && forall i :: 0 <= i < n ==> s[i] == Null()
  {
    seq(n, _ => Null())
  }

  lemma AllNull(s: seq<Cell>)
    requires forall i :: 0 <= i < |s| ==> s[i] == Null()
    ensures s == Blank(|s|)
  {
  }

  /** The front buffer part way through `present`: the first `k` cells (in
      row-major order) copied from the back buffer one at a time. */
  function Copied(front: seq<Cell>, back: seq<Cell>, k: nat): (s: seq<Cell>)
    requires |front| == |back| && k <= |back|
    ensures |s| == |back|
  {
    if k == 0 then front else Copied(front, back, k - 1)[k - 1 := back[k - 1]]
  }

  /** The cells before `k` come from the back buffer, the others from the front one. */
  lemma {:induction false} CopiedAt(front: seq<Cell>, back: seq<Cell>, k: nat, j: nat)
    requires |front| == |back| && k <= |back| && j < |back|
    ensures Copied(front, back, k)[j] == if j < k then back[j] else front[j]
  {
    if k > 0 {
      CopiedAt(front, back, k - 1, j);
    }
  }

  /** Everything copied is the back buffer. */
  lemma CopiedAll(front: seq<Cell>, back: seq<Cell>)
    requires |front| == |back|
    ensures Copied(front, back, |back|) == back
  {
    forall j | 0 <= j < |back| ensures Copied(front, back, |back|)[j] == back[j] {
      CopiedAt(front, back, |back|, j);
    }
  }

  /** One more cell copied. */
  lemma CopyNext(front: seq<Cell>, back: seq<Cell>, k: nat)
    requires |front| == |back| && k < |back|
    ensures Copied(front, back, k + 1) == Copied(front, back, k)[k := back[k]]
  {
  }

  /** Copying a cell that already matches changes nothing. */
  lemma CopySame(front: seq<Cell>, back: seq<Cell>, k: nat)
    requires |front| == |back| && k < |back| && front[k] == back[k]
    ensures Copied(front, back, k + 1) == Copied(front, back, k)
  {
    CopiedAt(front, back, k, k);
    var s := Copied(front, back, k);
    assert s[k := s[k]] == s;
  }

  /** A frame in progress: the buffers as it began, their size, the tracked
      state it started from, and the terminal's output and flushed count at
      its start. */
  datatype Pass = Pass(shown: seq<Cell>, drawn: seq<Cell>, w: u32, h: u32, t0: Tracker, o: seq<u8>, f: nat)

  /** The tracked state and commands after the first `n` rows of `g` and the
      first `x` cells of row `n`. */
  function Progress(g: Pass, n: nat, x: nat): (Tracker, seq<Command>)
    requires n <= g.h && x <= g.w
  {
    var p := Sweep(g.shown, g.drawn, g.w, n, g.t0);
    var r := SweepRow(g.shown, g.drawn, g.w, n as u32, x, p.0);
    (r.0, p.1 + r.1)
  }

  /** The output after one more cell. */
  lemma SentCell(g: Pass, n: nat, x: nat, out: seq<u8>)
    requires n < g.h && x < g.w && out == g.o + EncodeAll(Progress(g, n, x).1)
    ensures var v := Visit(g.shown, g.drawn, g.w, x as u32, n as u32, Progress(g, n, x).0);
      Progress(g, n, x + 1) == (v.0, Progress(g, n, x).1 + v.1) &&
      out + EncodeAll(v.1) == g.o + EncodeAll(Progress(g, n, x + 1).1)
  {
    var v := Visit(g.shown, g.drawn, g.w, x as u32, n as u32, Progress(g, n, x).0);
    ProgressCell(g, n, x);
    EmittedBoth(g.o, Progress(g, n, x).1, v.1);
  }

  /** One more cell visited. */
  lemma ProgressCell(g: Pass, n: nat, x: nat)
    requires n < g.h && x < g.w
    ensures var p := Progress(g, n, x);
      var v := Visit(g.shown, g.drawn, g.w, x as u32, n as u32, p.0);
      Progress(g, n, x + 1) == (v.0, p.1 + v.1)
  {
    var p := Sweep(g.shown, g.drawn, g.w, n, g.t0);
    var r := SweepRow(g.shown, g.drawn, g.w, n as u32, x, p.0);
    var v := Visit(g.shown, g.drawn, g.w, x as u32, n as u32, r.0);
    assert SweepRow(g.shown, g.drawn, g.w, n as u32, x + 1, p.0) == (v.0, r.1 + v.1);
    assert p.1 + (r.1 + v.1) == p.1 + r.1 + v.1;
  }

  /** An unchanged cell adds no commands and leaves the tracked state. */
  lemma SkippedProgress(g: Pass, n: nat, x: nat)
    requires n < g.h && x < g.w && |g.shown| == |g.drawn| && RowStart(n, g.w) + x < |g.drawn|
    requires g.shown[RowStart(n, g.w) + x] == g.drawn[RowStart(n, g.w) + x]
    ensures Progress(g, n, x + 1) == Progress(g, n, x)
  {
    var p := Progress(g, n, x);
    assert At(g.drawn, g.w, x as u32, n as u32) == At(g.shown, g.w, x as u32, n as u32);
    assert Visit(g.shown, g.drawn, g.w, x as u32, n as u32, p.0) == (p.0, []);
    ProgressCell(g, n, x);
    assert p.1 + [] == p.1;
  }

  /** At the start of a row, the rows before it are all that was visited. */
  lemma ProgressFrame(g: Pass, m: nat)
    requires m <= g.h
    ensures Progress(g, m, 0) == Sweep(g.shown, g.drawn, g.w, m, g.t0)
  {
    var p := Sweep(g.shown, g.drawn, g.w, m, g.t0);
    assert p.1 + [] == p.1;
  }

  /** The end of row `n` is the start of row `n + 1`. */
  lemma ProgressRow(g: Pass, n: nat)
    requires n < g.h
    ensures Progress(g, n, g.w) == Progress(g, n + 1, 0)
  {
    var p := Sweep(g.shown, g.drawn, g.w, n + 1, g.t0);
    assert p.1 + [] == p.1;
  }

  /** The front buffer part way through `g`: the cells before row `n`, and
      the first `x` of row `n`, have been copied from the back buffer. */
  ghost predicate CopiedUpTo(g: Pass, n: nat, x: nat, cells: seq<Cell>)
  {
    n <= g.h && x <= g.w && |g.shown| == |g.drawn| && RowStart(n, g.w) + x <= |g.drawn| &&
    cells == Copied(g.shown, g.drawn, RowStart(n, g.w) + x)
  }

  /** The terminal part way through `g`: it has been sent exactly the
      commands of the cells visited so far, and `t` is the tracked state. */
  ghost predicate SentUpTo(g: Pass, n: nat, x: nat, t: Tracker, out: seq<u8>)
  {
    n <= g.h && x <= g.w && Progress(g, n, x).0 == t && out == g.o + EncodeAll(Progress(g, n, x).1)
  }

  /** An unchanged cell is passed over: nothing is copied or sent. */
  lemma SkipStep(g: Pass, n: nat, x: nat, t: Tracker, cells: seq<Cell>, out: seq<u8>)
    requires CopiedUpTo(g, n, x, cells) && SentUpTo(g, n, x, t, out)
    requires n < g.h && x < g.w && RowStart(n, g.w) + g.w <= |g.drawn|
    requires g.shown[RowStart(n, g.w) + x] == g.drawn[RowStart(n, g.w) + x]
    ensures CopiedUpTo(g, n, x + 1, cells) && SentUpTo(g, n, x + 1, t, out)
  {
    CopySame(g.shown, g.drawn, RowStart(n, g.w) + x);
    SkippedProgress(g, n, x);
  }

  /** A changed cell is drawn and copied. */
  lemma DrawStep(g: Pass, n: nat, x: nat, t: Tracker, cells: seq<Cell>, out: seq<u8>)
    requires CopiedUpTo(g, n, x, cells) && SentUpTo(g, n, x, t, out)
    requires n < g.h && x < g.w && RowStart(n, g.w) + g.w <= |g.drawn|
    requires g.shown[RowStart(n, g.w) + x] != g.drawn[RowStart(n, g.w) + x]
    ensures var k := RowStart(n, g.w) + x;
      var d := DrawCell(t, x as u32, n as u32, g.drawn[k]);
      CopiedUpTo(g, n, x + 1, cells[k := g.drawn[k]]) && SentUpTo(g, n, x + 1, d.0, out + EncodeAll(d.1))
  {
    CopyNext(g.shown, g.drawn, RowStart(n, g.w) + x);
    SentCell(g, n, x, out);
  }

  /** The end of row `n` is the start of row `n + 1`. */
  lemma RowStep(g: Pass, n: nat, t: Tracker, cells: seq<Cell>, out: seq<u8>)
    requires CopiedUpTo(g, n, g.w, cells) && SentUpTo(g, n, g.w, t, out) && n < g.h
    ensures CopiedUpTo(g, n + 1, 0, cells) && SentUpTo(g, n + 1, 0, t, out)
  {
    ProgressRow(g, n);
    assert RowStart(n + 1, g.w) + 0 == RowStart(n, g.w) + g.w;
  }

  /** The bytes of a frame: a reset, the cells' commands, the move home. */
  lemma FrameBytes(front: seq<Cell>, back: seq<Cell>, w: u32, n: u32)
    ensures EncodeAll(FrameCommands(front, back, w, n))
         == Encode(Command.Reset) + EncodeAll(Sweep(front, back, w, n, Start).1) + Encode(MoveTo(0, 0))
  {
    var log := Sweep(front, back, w, n, Start).1;
    var tail := [MoveTo(0, 0), Flush];
    assert FrameCommands(front, back, w, n) == [Command.Reset] + log + tail;
    EncodeAllAppend([Command.Reset] + log, tail);
    ResetLog(log);
    MoveHome();
  }

  /** The reset, the cells' commands and the move home, written one after
      another after earlier output `out`, leave `out` followed by the frame. */
  lemma FrameWritten(front: seq<Cell>, back: seq<Cell>, w: u32, n: u32, out: seq<u8>)
    ensures out + Encode(Command.Reset) + EncodeAll(Sweep(front, back, w, n, Start).1) + Encode(MoveTo(0, 0))
         == out + EncodeAll(FrameCommands(front, back, w, n))
  {
    var log := Sweep(front, back, w, n, Start).1;
    var head := [Command.Reset] + log;
    calc {
      out + Encode(Command.Reset) + EncodeAll(log) + Encode(MoveTo(0, 0));
      { assert EncodeAll([Command.Reset]) == Encode(Command.Reset) by {
          assert [Command.Reset][1..] == [];
          assert Encode(Command.Reset) + [] == Encode(Command.Reset);
        } }
      out + EncodeAll([Command.Reset]) + EncodeAll(log) + Encode(MoveTo(0, 0));
      { EmittedBoth(out, [Command.Reset], log); }
      out + EncodeAll(head) + Encode(MoveTo(0, 0));
      { Emitted(out, head, MoveTo(0, 0)); }
      out + EncodeAll(head + [MoveTo(0, 0)]);
      { assert Encode(Flush) == []; }
      out + EncodeAll(head + [MoveTo(0, 0)]) + Encode(Flush);
      { Emitted(out, head + [MoveTo(0, 0)], Flush);
        assert FrameCommands(front, back, w, n) == head + [MoveTo(0, 0)] + [Flush]; }
      out + EncodeAll(FrameCommands(front, back, w, n));
    }
  }

  lemma ResetLog(log: seq<Command>)
    ensures EncodeAll([Command.Reset] + log) == Encode(Command.Reset) + EncodeAll(log)
  {
    EncodeAllAppend([Command.Reset], log);
    assert [Command.Reset][1..] == [];
  }

  lemma MoveHome()
    ensures EncodeAll([MoveTo(0, 0), Flush]) == Encode(MoveTo(0, 0))
  {
    var tail := [MoveTo(0, 0), Flush];
    assert tail[1..] == [Flush];
    assert [Flush][1..] == [];
  }


  /** Row `y` of a grid of `h` rows ends inside the grid. */
  lemma RowStartEnd(w: nat, h: nat, y: nat)
    requires y < h
    ensures RowStart(y, w) + w <= RowStart(h, w)
  {
    RowStartMono(y + 1, h, w);
  }

  /** How many rows `present` draws: `0..h as i32` and `0..w as i32` are
      empty ranges once the dimension no longer fits an `i32`. */
  function DrawnRows(w: u32, h: u32): (n: nat)
    ensures n <= h
    ensures n == h <==> h == 0 || (w < 0x8000_0000 && h < 0x8000_0000)
  {
    if w < 0x8000_0000 && h < 0x8000_0000 then h else 0
  }

  /** `TerminalCanvas`: a terminal with a front buffer holding what it shows
      and a back buffer that is drawn on. */
  class TerminalCanvas {
    const term: Terminal
    const front: Canvas
    const back: Canvas

    ghost predicate Valid()
      reads this, term, front, back
    {
      front != back && front.Valid() && back.Valid() &&
      front.width == back.width && front.height == back.height && term.Valid()
    }

    /** `TerminalCanvas::new`: both buffers blank, at the terminal's size. */
    constructor (term: Terminal)
      requires term.Valid()
      ensures Valid() && this.term == term && fresh(front) && fresh(back)
      ensures (back.width, back.height) == term.Size()
      ensures back.cells == Blank(back.width * back.height) && front.cells == back.cells
    {
      this.term := term;
      var (w, h) := term.Size();
      front := new Canvas(w, h);
      back := new Canvas(w, h);
      new;
      AllNull(front.cells);
      AllNull(back.cells);
      RowStartIsProduct(h, w);
    }

    /** `set_cell`: writes one cell of the back buffer; off the grid it does
        nothing. */
    method SetCell(x: i32, y: i32, cell: Cell)
      requires Valid()
      modifies back
      ensures Valid() && back.width == old(back.width) && back.height == old(back.height)
      ensures forall a, b :: InBounds(back.width, back.height, a, b) ==>
        At(back.cells, back.width, a, b) == if a == x && b == y then cell else At(old(back.cells), back.width, a, b)
      ensures !InBounds(back.width, back.height, x, y) ==> back.cells == old(back.cells)
    {
      var idx := back.Index(x, y);
      if idx.Some? {
        AtUpdate(back.cells, back.width, back.height, x, y, idx.value, cell);
        back.cells := back.cells[idx.value := cell];
      }
    }

    /** `clear`: every cell of the back buffer null. */
    method Clear()
      requires Valid()
      modifies back
      ensures Valid() && back.width == old(back.width) && back.height == old(back.height)
      ensures back.cells == Blank(back.width * back.height)
    {
      back.Clear();
      AllNull(back.cells);
      RowStartIsProduct(back.height, back.width);
    }

    /** `refresh_size`: when the terminal's size differs from the back
        buffer's, both buffers are resized (and so blanked). */
    method RefreshSize()
      requires Valid()
      modifies front, back
      ensures Valid() && (back.width, back.height) == term.Size()
      ensures (old(back.width), old(back.height)) == term.Size() ==>
        front.cells == old(front.cells) && back.cells == old(back.cells)
      ensures (old(back.width), old(back.height)) != term.Size() ==>
        back.cells == Blank(back.width * back.height) && front.cells == back.cells
    {
      var (w, h) := term.Size();
      if w != back.width || h != back.height {
        back.Resize(w, h);
        front.Resize(w, h);
        AllNull(back.cells);
        AllNull(front.cells);
        RowStartIsProduct(h, w);
      }
    }

    /** The state of `present` part way through a frame `g`: the first `n`
        rows and the first `x` cells of row `n` have been visited, the front
        buffer holds the back buffer's cells up to there, the tracked state
        is `t` and the terminal has been sent exactly the commands so far. */
    ghost predicate Drawn(g: Pass, n: nat, x: nat, t: Tracker)
      reads this, term, front, back
    {
      Valid() && front.width == g.w && front.height == g.h && back.cells == g.drawn && term.flushed == g.f &&
      CopiedUpTo(g, n, x, front.cells) && SentUpTo(g, n, x, t, term.out)
    }

    /** Nothing of the frame `g` done yet. */
    lemma FrameStart(g: Pass)
      requires Valid() && g.shown == front.cells && g.drawn == back.cells
      requires g.w == front.width && g.h == front.height && g.o == term.out && g.f == term.flushed
      ensures Drawn(g, 0, 0, g.t0)
    {
      assert g.o + [] == g.o;
    }

    /** The body of `present`'s inner loop for the cell (x, y) (`src/lib.rs` lines
        116-166): an unchanged cell is skipped; a changed one is
        drawn and copied into the front buffer. */
    method PresentCell(x: u32, y: u32, t: Tracker, ghost g: Pass) returns (t2: Tracker)
      requires Drawn(g, y, x, t) && x < g.w && y < g.h
      requires RowStart(y, g.w) + g.w <= |g.drawn|
      modifies front, term
      ensures Drawn(g, y, x + 1, t2)
    {
      ghost var k := RowStart(y, g.w) + x;
      CopiedAt(g.shown, g.drawn, k, k);
      t2 := t;
      var bc := back.CellAt(x, y);
      if bc.Some? {
        var idx := front.Index(x, y);
        if idx.Some? {
          if bc.value != front.cells[idx.value] {
            t2 := DrawChanged(x, y, t, g, idx.value);
          } else {
            SkipStep(g, y, x, t, front.cells, term.out);
          }
        }
      }
    }

    /** A changed cell (lines 122-165 of `src/lib.rs`): its commands are
        written and it is copied into the front buffer. */
    method DrawChanged(x: u32, y: u32, t: Tracker, ghost g: Pass, i: nat) returns (t2: Tracker)
      requires Drawn(g, y, x, t) && x < g.w && y < g.h && RowStart(y, g.w) + g.w <= |g.drawn|
      requires i == RowStart(y, g.w) + x && g.shown[i] != g.drawn[i]
      modifies front, term
      ensures Drawn(g, y, x + 1, t2)
    {
      DrawStep(g, y, x as nat, t, front.cells, term.out);
      t2 := EmitCell(term, t, x, y, back.cells[i]);
      front.cells := front.cells[i := back.cells[i]];
    }

    /** The inner loop of `present` over row `y`, for a width that fits an
        `i32`; it ends at the start of the next row. */
    method PresentRow(y: u32, t: Tracker, ghost g: Pass) returns (t2: Tracker, next: int)
      requires Drawn(g, y, 0, t) && y < g.h && g.w < 0x8000_0000
      modifies front, term
      ensures next == y + 1 && Drawn(g, next, 0, t2)
    {
      next := y as int + 1;
      RowStartEnd(g.w, g.h, y);
      var w := front.width;
      var x: int := 0;
      t2 := t;
      while x < w as int
        invariant 0 <= x <= w && Drawn(g, y, x, t2)
      {
        t2 := PresentCell(x as u32, y, t2, g);
        x := x + 1;
      }
      RowStep(g, y, t2, front.cells, term.out);
    }

    /** The outer loop of `present` (lines 114-169 of `src/lib.rs`). When the
        width does not fit an `i32`, every row's inner range `0..w as i32` is
        empty and the loop draws nothing, so only the other case is run. */
    method PresentRows(t: Tracker, ghost g: Pass) returns (t2: Tracker)
      requires Drawn(g, 0, 0, t)
      modifies front, term
      ensures Drawn(g, DrawnRows(g.w, g.h), 0, t2)
    {
      var w, h := front.width, front.height;
      t2 := t;
      var rows := U32AsI32(h);
      var cols := U32AsI32(w);
      if cols >= 0 {
        var y: int := 0;
        while y < rows
          invariant 0 <= y && (rows < 0 ==> y == 0) && (rows >= 0 ==> y <= rows)
          invariant Drawn(g, y, 0, t2)
        {
          t2, y := PresentRow(y as u32, t2, g);
        }
        assert y == DrawnRows(g.w, g.h);
      }
    }

    /** `present` after `refresh_size` (lines 106-172 of `src/lib.rs`): a
        reset, the commands of every changed cell row by row, a move to the
        top left and a flush. */
    method DrawFrame()
      requires Valid()
      modifies front, term
      ensures Valid() && front.width == old(front.width) && front.height == old(front.height)
      ensures term.out == old(term.out) + EncodeAll(FrameCommands(old(front.cells), back.cells, front.width, DrawnRows(front.width, front.height)))
      ensures front.cells == if DrawnRows(front.width, front.height) == front.height then back.cells else old(front.cells)
      ensures term.flushed == |term.out|
    {
      var _ := term.Reset();
      ghost var g := Pass(front.cells, back.cells, front.width, front.height, Start, term.out, term.flushed);
      FrameStart(g);
      var _ := PresentRows(Start, g);
      ghost var m := DrawnRows(g.w, g.h);
      ProgressFrame(g, m);
      CopiedAll(g.shown, g.drawn);
      var _ := term.MoveTo(0, 0);
      term.Flush();
      FrameWritten(g.shown, g.drawn, g.w, m, old(term.out));
    }

    /** `present`: `refresh_size`, then the frame. */
    method Present()
      requires Valid()
      modifies front, back, term
      ensures Valid() && (back.width, back.height) == term.Size()
      ensures var resized := (old(back.width), old(back.height)) != term.Size();
        back.cells == if resized then Blank(back.width * back.height) else old(back.cells)
      ensures var resized := (old(back.width), old(back.height)) != term.Size();
        var shown := if resized then Blank(back.width * back.height) else old(front.cells);
        term.out == old(term.out) + EncodeAll(FrameCommands(shown, back.cells, back.width, DrawnRows(back.width, back.height))) &&
        front.cells == (if DrawnRows(back.width, back.height) == back.height then back.cells else shown)
      ensures term.flushed == |term.out|
    {
      RefreshSize();
      DrawFrame();
    }
  }
}
