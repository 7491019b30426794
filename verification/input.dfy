/** The terminal input parser (`src/terminal/input.rs`): a byte-at-a-time
    decoder with one byte of look-ahead that turns key presses, ECMA-48
    control sequences and xterm's SGR extended mouse reports (mode 1006,
    `CSI < b ; x ; y M` or `m`) into events.

    The stream is a finite byte sequence read from a position. Once it is
    exhausted, and wherever a read of the Rust stream fails, a read yields byte 0
    and the position stays put. The decoder is first given as functions
    over (input, position), about which the lemmas speak; `InputParser`
    then consumes its stream step by step as the Rust parser does, and each of
    its methods is proved to agree with those functions. */
module Input {
  import opened Ints
  import Options
  import opened Events
  import opened Escapes

  // ---------------------------------------------------------------------
  // Reading the stream.

  /** The byte `next_byte` and `peek_byte` see at `pos`: 0 past the end. */
  function ByteAt(input: seq<u8>, pos: nat): (b: u8)
    ensures pos < |input| ==> b == input[pos]
    ensures pos >= |input| ==> b == 0
  {
    if pos < |input| then input[pos] else 0
  }

  /** The byte as a character, as `byte as char` widens it. */
  function CharAt(input: seq<u8>, pos: nat): char
  {
    ByteAt(input, pos) as char
  }

  /** The position after one read: a read at the end consumes nothing. */
  function Next(input: seq<u8>, pos: nat): (p: nat)
    ensures p == pos || p == pos + 1
    ensures p == pos + 1 <==> pos < |input|
  {
    if pos < |input| then pos + 1 else pos
  }

  /** The characters that may follow ESC to open an escape sequence. */
  predicate IsCtrlChar(c: char): (r: bool)
    ensures r <==> c in "DEHMNOPVWXZ[\\]^_"
    ensures r ==> 'D' <= c <= '_'
  {
    match c
    case 'D' => true case 'E' => true case 'H' => true case 'M' => true
    case 'N' => true case 'O' => true case 'P' => true case 'V' => true
    case 'W' => true case 'X' => true case 'Z' => true case '[' => true
    case '\\' => true case ']' => true case '^' => true case '_' => true
    case _ => false
  }

  // ---------------------------------------------------------------------
  // Mouse coordinates.

  /** `str::parse::<u32>` on a run of digits: fails on the empty string and
      on values past the u32 range. */
  function ParseU32(digits: string): (r: Options.Option<u32>)
    ensures r.Some? <==> digits != [] && IsDigits(digits) && DecimalValue(digits) < U32_LIMIT
    ensures r.Some? ==> r.value == DecimalValue(digits)
  {
    if digits == [] || !IsDigits(digits) then Options.None
    else if DecimalValue(digits) < U32_LIMIT then Options.Some(DecimalValue(digits))
    else Options.None
  }

  /** A reported coordinate: the 1-based field value minus one, where a
      field that does not parse counts as 1. Subtracting from "0" wraps. */
  function Coordinate(digits: string): (r: u32)
    ensures ParseU32(digits).None? ==> r == 0
    ensures ParseU32(digits).Some? && ParseU32(digits).value >= 1 ==> r == ParseU32(digits).value - 1
    ensures ParseU32(digits) == Options.Some(0) ==> r == U32_LIMIT - 1
  {
    var v := match ParseU32(digits) case Some(v) => v case None => 1;
    WrappingAdd(v, -1)
  }

  lemma CoordinateOfNumeral(n: nat)
    requires 1 <= n < U32_LIMIT
    ensures Coordinate(Decimal(n)) == n - 1
  {
    DecimalRoundTrip(n);
  }

  /** A field of a single "0" wraps round to the largest u32. */
  lemma ZeroCoordinateWraps()
    ensures Coordinate("0") == U32_LIMIT - 1
  {
    assert DecimalValue("0") == 0 by {
      assert "0"[..0] == [];
    }
  }

  // ---------------------------------------------------------------------
  // The coordinate scanner of an SGR mouse report.

  /** The variables the scanning closure updates: the two coordinates, the
      index of the field being read, the digits read so far and whether the
      report ended with 'm' (a release). */
  datatype ScanState = ScanState(x: u32, y: u32, token: nat, digits: string, up: bool)

  const ScanStart := ScanState(0, 0, 0, [], false)

  predicate IsTerminator(c: char) { c == ';' || c == 'm' || c == 'M' }

  /** One call of the scanning closure: the new state and whether to go on. */
  function ScanStep(s: ScanState, c: char): (r: (ScanState, bool))
    // The scan goes on only over digits and over the ';' closing field 0 or 1:
    // any other byte, or a terminator after the second field, stops it.
    ensures r.1 <==> IsDigit(c) || (c == ';' && s.token < 2)
    // Each of the first two terminators opens the next field; later ones are ignored.
    ensures r.0.token == if IsTerminator(c) && s.token < 2 then s.token + 1 else s.token
    // Only an 'm' closing field 0 or 1 marks a release.
    ensures r.0.up <==> s.up || (c == 'm' && s.token < 2)
    // Closing field 0 sets x from its digits, closing field 1 sets y; the
    // digits start afresh and the other coordinate is kept.
    ensures IsTerminator(c) && s.token == 0 ==> r.0.x == Coordinate(s.digits) && r.0.y == s.y && r.0.digits == []
    ensures IsTerminator(c) && s.token == 1 ==> r.0.y == Coordinate(s.digits) && r.0.x == s.x && r.0.digits == []
    // A digit is appended to the field and nothing else changes.
    ensures IsDigit(c) ==> r.0 == s.(digits := s.digits + [c])
    // Any other byte, and a terminator after the second field, change nothing.
    ensures (!IsDigit(c) && !IsTerminator(c)) || (IsTerminator(c) && s.token >= 2) ==> r.0 == s
  {
    if IsTerminator(c) then
      if s.token == 0 then
        (s.(x := Coordinate(s.digits), digits := [], token := 1, up := s.up || c == 'm'), c != 'm' && c != 'M')
      else if s.token == 1 then
        (s.(y := Coordinate(s.digits), digits := [], token := 2, up := s.up || c == 'm'), c != 'm' && c != 'M')
      else
        (s, false)
    else if '0' <= c <= '9' then
      (s.(digits := s.digits + [c]), true)
    else
      (s, false)
  }

  /** `scan_chars`: feed the closure one read at a time until it says stop;
      the result is the final state and the position after the last read. */
  function Scan(input: seq<u8>, pos: nat, s: ScanState): (r: (ScanState, nat))
    ensures pos < |input| ==> pos < r.1 <= |input|
    ensures pos >= |input| ==> r == (s, pos)
    ensures s.token <= 2 ==> r.0.token <= 2
    ensures s.token <= r.0.token
    // x is set only when field 0 closes, y only when field 1 closes.
    ensures s.token >= 1 ==> r.0.x == s.x
    ensures r.0.token <= 1 ==> r.0.y == s.y
    decreases |input| - pos
  {
    var step := ScanStep(s, CharAt(input, pos));
    if step.1 then Scan(input, Next(input, pos), step.0) else (step.0, Next(input, pos))
  }

  // ---------------------------------------------------------------------
  // Events.

  /** The button of an SGR report and whether it reports motion. */
  datatype Selector = Selector(button: MouseButton, moving: bool)

  /** The button selector: one digit, or two for motion ("32".."35") and
      the wheel ("64", "65"); any other code reads as an unknown button. */
  function DecodeButton(input: seq<u8>, pos: nat): (r: (Selector, nat))
    ensures pos <= r.1 <= pos + 2
    ensures pos < |input| ==> pos < r.1
    ensures pos <= |input| ==> r.1 <= |input|
    // One-byte codes: presses and releases.
    ensures CharAt(input, pos) == '0' ==> r == (Selector(Left, false), Next(input, pos))
    ensures CharAt(input, pos) == '1' ==> r == (Selector(Middle, false), Next(input, pos))
    ensures CharAt(input, pos) == '2' ==> r == (Selector(Right, false), Next(input, pos))
    // '3' and a second byte: motion, with the button held (or none).
    ensures CharAt(input, pos) == '3' ==> r.0.moving && r.1 == Next(input, Next(input, pos))
    ensures CharAt(input, pos) == '3' && CharAt(input, Next(input, pos)) == '2' ==> r.0.button == Left
    ensures CharAt(input, pos) == '3' && CharAt(input, Next(input, pos)) == '3' ==> r.0.button == Middle
    ensures CharAt(input, pos) == '3' && CharAt(input, Next(input, pos)) == '4' ==> r.0.button == Right
    ensures CharAt(input, pos) == '3' && CharAt(input, Next(input, pos)) == '5' ==> r.0.button == None
    ensures CharAt(input, pos) == '3' && CharAt(input, Next(input, pos)) !in {'2', '3', '4', '5'}
            ==> r.0.button == MouseButton.Unknown
    // '6' and a second byte: the wheel.
    ensures CharAt(input, pos) == '6' ==> !r.0.moving && r.1 == Next(input, Next(input, pos))
    ensures CharAt(input, pos) == '6' && CharAt(input, Next(input, pos)) == '4' ==> r.0.button == WheelUp
    ensures CharAt(input, pos) == '6' && CharAt(input, Next(input, pos)) == '5' ==> r.0.button == WheelDown
    ensures CharAt(input, pos) == '6' && CharAt(input, Next(input, pos)) !in {'4', '5'}
            ==> r.0.button == MouseButton.Unknown
    // Any other first byte is an unknown button, and only that byte is read.
    ensures CharAt(input, pos) !in {'0', '1', '2', '3', '6'}
            ==> r == (Selector(MouseButton.Unknown, false), Next(input, pos))
  {
    var p := Next(input, pos);
    match CharAt(input, pos)
    case '0' => (Selector(Left, false), p)
    case '1' => (Selector(Middle, false), p)
    case '2' => (Selector(Right, false), p)
    case '3' =>
      var b := match CharAt(input, p)
        case '2' => Left
        case '3' => Middle
        case '4' => Right
        case '5' => None
        case _ => MouseButton.Unknown;
      (Selector(b, true), Next(input, p))
    case '6' =>
      var b := match CharAt(input, p)
        case '4' => WheelUp
        case '5' => WheelDown
        case _ => MouseButton.Unknown;
      (Selector(b, false), Next(input, p))
    case _ => (Selector(MouseButton.Unknown, false), p)
  }

  /** `read_sgr_mouse`, entered after ESC '[' '<'. */
  function DecodeSgrMouse(input: seq<u8>, pos: nat): (r: (Event, nat))
    ensures r.0 == Event.Unknown || r.0.MouseMove? || r.0.MouseUp? || r.0.MouseDown?
    // Without a ';' after the button the report is rejected.
    ensures CharAt(input, DecodeButton(input, pos).1) != ';' ==> r.0 == Event.Unknown
    // Motion wins over the terminator.
    ensures DecodeButton(input, pos).0.moving && CharAt(input, DecodeButton(input, pos).1) == ';' ==> r.0.MouseMove?
    ensures pos < |input| ==> pos < r.1
    ensures pos <= |input| ==> r.1 <= |input|
  {
    var sel := DecodeButton(input, pos);
    var p := sel.1;
    if CharAt(input, p) != ';' then (Event.Unknown, Next(input, p))
    else
      var scan := Scan(input, Next(input, p), ScanStart);
      var s := scan.0;
      var e :=
        if sel.0.moving then MouseMove(sel.0.button, s.x, s.y)
        else if s.up then MouseUp(sel.0.button, s.x, s.y)
        else MouseDown(sel.0.button, s.x, s.y);
      (e, scan.1)
  }

  /** `read_ctrl_sequence`, entered after ESC '['. */
  function DecodeCtrl(input: seq<u8>, pos: nat): (r: (Event, nat))
    // 'M' (an X10 mouse report) is not decoded and nothing more is read.
    ensures CharAt(input, pos) == 'M' ==> r == (Event.Unknown, Next(input, pos))
    ensures CharAt(input, pos) == '<' ==> r == DecodeSgrMouse(input, Next(input, pos))
    ensures CharAt(input, pos) !in {'M', '<'} ==> r == (KeyPress(CharAt(input, pos)), Next(input, pos))
    ensures pos < |input| ==> pos < r.1
    ensures pos <= |input| ==> r.1 <= |input|
  {
    var p := Next(input, pos);
    match CharAt(input, pos)
    case 'M' => (Event.Unknown, p)
    case '<' => DecodeSgrMouse(input, p)
    case c => (KeyPress(c), p)
  }

  /** `read_esc_sequence`, entered after ESC with the introducer still unread. */
  function DecodeEsc(input: seq<u8>, pos: nat): (r: (Event, nat))
    ensures CharAt(input, pos) != '[' ==> r == (Event.Unknown, Next(input, pos))
    ensures pos < |input| ==> pos < r.1
    ensures pos <= |input| ==> r.1 <= |input|
  {
    if CharAt(input, pos) == '[' then DecodeCtrl(input, Next(input, pos))
    else (Event.Unknown, Next(input, pos))
  }

  /** `next_event`: an event and the position after it. There is always an
      event, and every call on a non-exhausted stream consumes input. */
  function DecodeEvent(input: seq<u8>, pos: nat): (r: (Options.Option<Event>, nat))
    ensures r.0.Some?
    ensures pos < |input| ==> pos < r.1
    ensures pos <= |input| ==> r.1 <= |input|
    // An exhausted stream yields the key press of byte 0, without end.
    ensures pos >= |input| ==> r == (Options.Some(KeyPress(0 as char)), pos)
  {
    var c := CharAt(input, pos);
    var p := Next(input, pos);
    if c == ESC && IsCtrlChar(CharAt(input, p)) then (Options.Some(DecodeEsc(input, p).0), DecodeEsc(input, p).1)
    else (Options.Some(KeyPress(c)), p)
  }

  // ---------------------------------------------------------------------
  // What `next_event` makes of the first bytes.

  /** `next_event` reads exactly one byte, and reports it as a key press,
      unless that byte is ESC and the byte after it (only peeked) opens an
      escape sequence; an escape sequence takes at least two bytes. */
  lemma KeyPressUnlessEscape(input: seq<u8>, pos: nat)
    requires pos <= |input|
    ensures DecodeEvent(input, pos).1 == Next(input, pos)
        <==> !(CharAt(input, pos) == ESC && IsCtrlChar(CharAt(input, Next(input, pos))))
    ensures !(CharAt(input, pos) == ESC && IsCtrlChar(CharAt(input, Next(input, pos))))
        ==> DecodeEvent(input, pos).0 == Options.Some(KeyPress(CharAt(input, pos)))
  {
    var p := Next(input, pos);
    if CharAt(input, pos) == ESC && IsCtrlChar(CharAt(input, p)) {
      assert CharAt(input, p) != 0 as char;
      assert p < |input|;
    }
  }

  /** ESC and an introducer other than '[' are both consumed and make an
      unknown event. */
  lemma OtherIntroducerUnknown(input: seq<u8>, pos: nat)
    requires pos + 1 < |input|
    requires CharAt(input, pos) == ESC && IsCtrlChar(CharAt(input, pos + 1)) && CharAt(input, pos + 1) != '['
    ensures DecodeEvent(input, pos) == (Options.Some(Event.Unknown), pos + 2)
  {
  }

  // ---------------------------------------------------------------------
  // The mouse report a terminal sends, and its round trip through the parser.

  /** The button code xterm puts in an SGR report, where there is one. */
  function ButtonCode(b: MouseButton, moving: bool): Options.Option<string>
  {
    if moving then
      match b
      case Left => Options.Some("32")
      case Middle => Options.Some("33")
      case Right => Options.Some("34")
      case None => Options.Some("35")
      case _ => Options.None
    else
      match b
      case Left => Options.Some("0")
      case Middle => Options.Some("1")
      case Right => Options.Some("2")
      case WheelUp => Options.Some("64")
      case WheelDown => Options.Some("65")
      case _ => Options.None
  }

  /** A mouse event a terminal can report: a button with a code and 1-based
      coordinates that fit a u32. */
  predicate Reportable(e: Event)
  {
    match e
    case MouseMove(b, x, y) => ButtonCode(b, true).Some? && x + 1 < U32_LIMIT && y + 1 < U32_LIMIT
    case MouseUp(b, x, y) => ButtonCode(b, false).Some? && x + 1 < U32_LIMIT && y + 1 < U32_LIMIT
    case MouseDown(b, x, y) => ButtonCode(b, false).Some? && x + 1 < U32_LIMIT && y + 1 < U32_LIMIT
    case _ => false
  }

  /** `CSI < code ; x+1 ; y+1` and the final byte. */
  function Report(code: string, x: nat, y: nat, final: char): string
  {
    [ESC, '[', '<'] + code + ";" + Decimal(x + 1) + ";" + Decimal(y + 1) + [final]
  }

  /** The report of a mouse event; motion is sent with 'M', a release with 'm'. */
  function MouseReport(e: Event): string
    requires Reportable(e)
  {
    match e
    case MouseMove(b, x, y) => Report(ButtonCode(b, true).value, x, y, 'M')
    case MouseUp(b, x, y) => Report(ButtonCode(b, false).value, x, y, 'm')
    case MouseDown(b, x, y) => Report(ButtonCode(b, false).value, x, y, 'M')
  }

  predicate IsLatin1(s: string) { forall i :: 0 <= i < |s| ==> s[i] as int < 0x100 }

  /** A string of characters below 256 as the bytes that carry them. */
  function Latin1(s: string): (bytes: seq<u8>)
    requires IsLatin1(s)
    ensures |bytes| == |s|
    ensures forall i :: 0 <= i < |s| ==> bytes[i] as char == s[i]
  {
    seq(|s|, i requires 0 <= i < |s| && IsLatin1(s) => s[i] as int)
  }

  /** The input holds the characters of `t` from `p` on. */
  predicate HasText(input: seq<u8>, p: nat, t: string)
  {
    p + |t| <= |input| && forall i :: 0 <= i < |t| ==> CharAt(input, p + i) == t[i]
  }

  lemma HasTextSplit(input: seq<u8>, p: nat, a: string, b: string)
    requires HasText(input, p, a + b)
    ensures HasText(input, p, a) && HasText(input, p + |a|, b)
  {
    forall i | 0 <= i < |a|
      ensures CharAt(input, p + i) == a[i]
    {
      assert CharAt(input, p + i) == (a + b)[i];
    }
    forall i | 0 <= i < |b|
      ensures CharAt(input, p + |a| + i) == b[i]
    {
      var j := |a| + i;
      assert CharAt(input, p + j) == (a + b)[j];
      assert p + j == p + |a| + i;
    }
  }

  lemma ScanDigit(input: seq<u8>, p: nat, s: ScanState)
    requires p < |input| && IsDigit(CharAt(input, p))
    ensures Scan(input, p, s) == Scan(input, p + 1, s.(digits := s.digits + [CharAt(input, p)]))
  {
  }

  /** A run of digits is read into the current field. */
  lemma {:induction false} ScanDigits(input: seq<u8>, p: nat, d: string, s: ScanState)
    requires HasText(input, p, d) && IsDigits(d)
    ensures Scan(input, p, s) == Scan(input, p + |d|, s.(digits := s.digits + d))
    decreases |d|
  {
    if d == [] {
      assert s.digits + d == s.digits;
    } else {
      assert CharAt(input, p + 0) == d[0];
      assert [d[0]] + d[1..] == d;
      HasTextSplit(input, p, [d[0]], d[1..]);
      var s1 := s.(digits := s.digits + [d[0]]);
      assert s.digits + [d[0]] + d[1..] == s.digits + d;
      calc {
        Scan(input, p, s);
        { ScanDigit(input, p, s); }
        Scan(input, p + 1, s1);
        { ScanDigits(input, p + 1, d[1..], s1); }
        Scan(input, p + 1 + |d[1..]|, s1.(digits := s1.digits + d[1..]));
        Scan(input, p + |d|, s.(digits := s.digits + d));
      }
    }
  }

  /** A field of digits and the terminator after it. */
  lemma ScanField(input: seq<u8>, p: nat, d: string, c: char, s: ScanState)
    requires HasText(input, p, d + [c]) && IsDigits(d) && s.digits == []
    ensures var step := ScanStep(s.(digits := d), c);
      Scan(input, p, s) == if step.1 then Scan(input, p + |d| + 1, step.0) else (step.0, p + |d| + 1)
  {
    HasTextSplit(input, p, d, [c]);
    ScanDigits(input, p, d, s);
    assert s.digits + d == d;
    var q := p + |d|;
    assert HasText(input, q, [c]);
    assert CharAt(input, q + 0) == [c][0] == c;
  }

  /** The first field closed by ';' sets x from its digits and moves on to
      the second. */
  lemma ScanFirstField(input: seq<u8>, p: nat, d1: string)
    requires IsDigits(d1) && HasText(input, p, d1 + ";")
    ensures Scan(input, p, ScanStart) == Scan(input, p + |d1| + 1, ScanState(Coordinate(d1), 0, 1, [], false))
  {
    ScanField(input, p, d1, ';', ScanStart);
  }

  /** The second field closed by 'M' or 'm' sets y from its digits and ends
      the scan. */
  lemma ScanSecondField(input: seq<u8>, p: nat, x: u32, d2: string, final: char)
    requires IsDigits(d2) && (final == 'm' || final == 'M')
    requires HasText(input, p, d2 + [final])
    ensures Scan(input, p, ScanState(x, 0, 1, [], false))
         == (ScanState(x, Coordinate(d2), 2, [], final == 'm'), p + |d2| + 1)
  {
    ScanField(input, p, d2, final, ScanState(x, 0, 1, [], false));
  }

  /** A single field closed by 'M' or 'm': x is set, y stays 0. */
  lemma ScanOneField(input: seq<u8>, p: nat, d1: string, final: char)
    requires IsDigits(d1) && (final == 'm' || final == 'M')
    requires HasText(input, p, d1 + [final])
    ensures Scan(input, p, ScanStart) == (ScanState(Coordinate(d1), 0, 1, [], final == 'm'), p + |d1| + 1)
  {
    ScanField(input, p, d1, final, ScanStart);
  }

  /** The two coordinate fields and the final byte of a report, whatever
      digits (none included) the fields hold. */
  lemma ScanFields(input: seq<u8>, p: nat, d1: string, d2: string, final: char)
    requires IsDigits(d1) && IsDigits(d2) && (final == 'm' || final == 'M')
    requires HasText(input, p, d1 + ";" + d2 + [final])
    ensures Scan(input, p, ScanStart)
         == (ScanState(Coordinate(d1), Coordinate(d2), 2, [], final == 'm'), p + |d1 + ";" + d2 + [final]|)
  {
    assert d1 + ";" + d2 + [final] == (d1 + ";") + (d2 + [final]);
    HasTextSplit(input, p, d1 + ";", d2 + [final]);
    ScanBothFields(input, p, d1, d2, final);
  }

  /** The fields one after the other. */
  lemma ScanBothFields(input: seq<u8>, p: nat, d1: string, d2: string, final: char)
    requires IsDigits(d1) && IsDigits(d2) && (final == 'm' || final == 'M')
    requires HasText(input, p, d1 + ";")
    requires HasText(input, p + |d1 + ";"|, d2 + [final])
    ensures Scan(input, p, ScanStart)
         == (ScanState(Coordinate(d1), Coordinate(d2), 2, [], final == 'm'), p + |d1 + ";"| + |d2 + [final]|)
  {
    var q := p + |d1 + ";"|;
    calc {
      Scan(input, p, ScanStart);
      { ScanFirstField(input, p, d1); }
      Scan(input, q, ScanState(Coordinate(d1), 0, 1, [], false));
      { ScanSecondField(input, q, Coordinate(d1), d2, final); }
      (ScanState(Coordinate(d1), Coordinate(d2), 2, [], final == 'm'), q + |d2| + 1);
    }
  }

  /** The button code is read back as the button it was sent for. */
  lemma ButtonDecodes(input: seq<u8>, p: nat, b: MouseButton, moving: bool)
    requires ButtonCode(b, moving).Some? && HasText(input, p, ButtonCode(b, moving).value)
    ensures DecodeButton(input, p) == (Selector(b, moving), p + |ButtonCode(b, moving).value|)
  {
    var code := ButtonCode(b, moving).value;
    assert CharAt(input, p + 0) == code[0];
    if |code| == 2 {
      assert CharAt(input, p + 1) == code[1];
    }
  }

  /** ESC '[' '<' leads to the SGR mouse decoder. */
  lemma SgrIntroducer(input: seq<u8>, p: nat)
    requires HasText(input, p, [ESC, '[', '<'])
    ensures DecodeEvent(input, p) == (Options.Some(DecodeSgrMouse(input, p + 3).0), DecodeSgrMouse(input, p + 3).1)
  {
    var t := [ESC, '[', '<'];
    assert t[0] == ESC && t[1] == '[' && t[2] == '<';
    assert CharAt(input, p + 0) == t[0];
    assert CharAt(input, p + 1) == t[1];
    assert CharAt(input, p + 2) == t[2];
  }

  /** The event an SGR report stands for. */
  function ReportedEvent(b: MouseButton, moving: bool, x: u32, y: u32, final: char): Event
  {
    if moving then MouseMove(b, x, y) else if final == 'm' then MouseUp(b, x, y) else MouseDown(b, x, y)
  }

  /** The part of a report after `CSI <` decodes to the reported event and
      is consumed exactly. */
  lemma SgrBodyDecodes(input: seq<u8>, p: nat, b: MouseButton, moving: bool, code: string, x: nat, y: nat, final: char)
    requires ButtonCode(b, moving) == Options.Some(code) && x + 1 < U32_LIMIT && y + 1 < U32_LIMIT
    requires final == 'm' || final == 'M'
    requires HasText(input, p, code + ";" + (Decimal(x + 1) + ";" + Decimal(y + 1) + [final]))
    ensures DecodeSgrMouse(input, p) == (ReportedEvent(b, moving, x, y, final),
      p + |code| + 1 + |Decimal(x + 1) + ";" + Decimal(y + 1) + [final]|)
  {
    CoordinateOfNumeral(x + 1);
    CoordinateOfNumeral(y + 1);
    SgrFieldsDecode(input, p, b, moving, code, Decimal(x + 1), Decimal(y + 1), final);
  }

  /** A report whose two fields hold any digits, none at all included: each
      coordinate is what `Coordinate` makes of its field. */
  lemma SgrFieldsDecode(input: seq<u8>, p: nat, b: MouseButton, moving: bool, code: string,
                        d1: string, d2: string, final: char)
    requires ButtonCode(b, moving) == Options.Some(code)
    requires IsDigits(d1) && IsDigits(d2) && (final == 'm' || final == 'M')
    requires HasText(input, p, code + ";" + (d1 + ";" + d2 + [final]))
    ensures DecodeSgrMouse(input, p)
         == (ReportedEvent(b, moving, Coordinate(d1), Coordinate(d2), final), p + |code| + 1 + |d1 + ";" + d2 + [final]|)
  {
    var fields := d1 + ";" + d2 + [final];
    HasTextSplit(input, p, code + ";", fields);
    HasTextSplit(input, p, code, ";");
    var q := p + |code|;
    var f := p + |code + ";"|;
    ButtonThenSeparator(input, p, b, moving, code);
    ScanFields(input, f, d1, d2, final);
    assert f == q + 1;
    SgrSteps(input, p, q, b, moving, Coordinate(d1), Coordinate(d2), 2, final, f + |fields|);
  }

  /** A report with a single field: the final byte closes the x field and y
      keeps its initial 0. */
  lemma SgrOneFieldDecodes(input: seq<u8>, p: nat, b: MouseButton, moving: bool, code: string, d1: string, final: char)
    requires ButtonCode(b, moving) == Options.Some(code)
    requires IsDigits(d1) && (final == 'm' || final == 'M')
    requires HasText(input, p, code + ";" + (d1 + [final]))
    ensures DecodeSgrMouse(input, p) == (ReportedEvent(b, moving, Coordinate(d1), 0, final), p + |code| + 1 + |d1 + [final]|)
  {
    var field := d1 + [final];
    HasTextSplit(input, p, code + ";", field);
    HasTextSplit(input, p, code, ";");
    var q := p + |code|;
    var f := p + |code + ";"|;
    ButtonThenSeparator(input, p, b, moving, code);
    ScanOneField(input, f, d1, final);
    assert f == q + 1;
    SgrSteps(input, p, q, b, moving, Coordinate(d1), 0, 1, final, f + |field|);
  }

  /** The button code followed by ';' is read back as the button, and the
      decoder then stands on that ';'. */
  lemma ButtonThenSeparator(input: seq<u8>, p: nat, b: MouseButton, moving: bool, code: string)
    requires ButtonCode(b, moving) == Options.Some(code)
    requires HasText(input, p, code) && HasText(input, p + |code|, ";")
    ensures DecodeButton(input, p) == (Selector(b, moving), p + |code|)
    ensures p + |code| < |input| && CharAt(input, p + |code|) == ';'
  {
    ButtonDecodes(input, p, b, moving);
    assert CharAt(input, p + |code| + 0) == ";"[0];
  }

  /** The decoder's steps: the button up to `q`, the ';' at `q`, then the
      fields up to `e`. */
  lemma SgrSteps(input: seq<u8>, p: nat, q: nat, b: MouseButton, moving: bool, x: u32, y: u32, token: nat, final: char, e: nat)
    requires DecodeButton(input, p) == (Selector(b, moving), q)
    requires q < |input| && CharAt(input, q) == ';'
    requires Scan(input, q + 1, ScanStart) == (ScanState(x, y, token, [], final == 'm'), e)
    ensures DecodeSgrMouse(input, p) == (ReportedEvent(b, moving, x, y, final), e)
  {
  }

  lemma ReportIsLatin1(code: string, x: nat, y: nat, final: char)
    requires IsDigits(code) && final as int < 0x100
    ensures IsLatin1(Report(code, x, y, final))
  {
    var dx, dy := Decimal(x + 1), Decimal(y + 1);
    var r := Report(code, x, y, final);
    forall i | 0 <= i < |r|
      ensures r[i] as int < 0x100
    {
      var head := [ESC, '[', '<'];
      if i < 3 {
        assert r[i] == head[i];
      } else if i < 3 + |code| {
        assert r[i] == code[i - 3];
      } else if i == 3 + |code| {
        assert r[i] == ';';
      } else if i < 4 + |code| + |dx| {
        assert r[i] == dx[i - 4 - |code|];
      } else if i == 4 + |code| + |dx| {
        assert r[i] == ';';
      } else if i < 5 + |code| + |dx| + |dy| {
        assert r[i] == dy[i - 5 - |code| - |dx|];
      } else {
        assert r[i] == final;
      }
    }
  }

  lemma Latin1HasText(s: string, rest: seq<u8>)
    requires IsLatin1(s)
    ensures HasText(Latin1(s) + rest, 0, s)
  {
    var input := Latin1(s) + rest;
    forall i | 0 <= i < |s|
      ensures CharAt(input, 0 + i) == s[i]
    {
      assert input[i] == Latin1(s)[i];
    }
  }

  lemma ReportShape(code: string, x: nat, y: nat, final: char)
    ensures Report(code, x, y, final)
         == [ESC, '[', '<'] + (code + ";" + (Decimal(x + 1) + ";" + Decimal(y + 1) + [final]))
  {
  }

  /** A report anywhere in the input decodes to its event and is consumed exactly. */
  lemma ReportDecodes(input: seq<u8>, p: nat, b: MouseButton, moving: bool, x: nat, y: nat, final: char)
    requires ButtonCode(b, moving).Some? && x + 1 < U32_LIMIT && y + 1 < U32_LIMIT
    requires final == 'm' || final == 'M'
    requires HasText(input, p, Report(ButtonCode(b, moving).value, x, y, final))
    ensures DecodeEvent(input, p)
         == (Options.Some(ReportedEvent(b, moving, x, y, final)), p + |Report(ButtonCode(b, moving).value, x, y, final)|)
  {
    var code := ButtonCode(b, moving).value;
    var fields := Decimal(x + 1) + ";" + Decimal(y + 1) + [final];
    ReportShape(code, x, y, final);
    HasTextSplit(input, p, [ESC, '[', '<'], code + ";" + fields);
    SgrIntroducer(input, p);
    SgrBodyDecodes(input, p + 3, b, moving, code, x, y, final);
  }

  lemma ReportBytesDecode(b: MouseButton, moving: bool, x: nat, y: nat, final: char, rest: seq<u8>)
    requires ButtonCode(b, moving).Some? && x + 1 < U32_LIMIT && y + 1 < U32_LIMIT
    requires final == 'm' || final == 'M'
    ensures IsLatin1(Report(ButtonCode(b, moving).value, x, y, final))
    ensures var report := Report(ButtonCode(b, moving).value, x, y, final);
      DecodeEvent(Latin1(report) + rest, 0) == (Options.Some(ReportedEvent(b, moving, x, y, final)), |report|)
  {
    var report := Report(ButtonCode(b, moving).value, x, y, final);
    ReportIsLatin1(ButtonCode(b, moving).value, x, y, final);
    Latin1HasText(report, rest);
    ReportDecodes(Latin1(report) + rest, 0, b, moving, x, y, final);
  }

  /** Round trip: the SGR report of any reportable mouse event, followed by
      anything at all, makes `next_event` return exactly that event and stop
      right after the report. */
  lemma MouseReportRoundTrip(e: Event, rest: seq<u8>)
    requires Reportable(e)
    ensures IsLatin1(MouseReport(e))
    ensures DecodeEvent(Latin1(MouseReport(e)) + rest, 0) == (Options.Some(e), |MouseReport(e)|)
  {
    match e
    case MouseMove(b, x, y) => ReportBytesDecode(b, true, x, y, 'M', rest);
    case MouseUp(b, x, y) => ReportBytesDecode(b, false, x, y, 'm', rest);
    case MouseDown(b, x, y) => ReportBytesDecode(b, false, x, y, 'M', rest);
  }

  lemma ExampleReportText(final: char)
    ensures Report("0", 10, 5, final) == [27 as char, '[', '<', '0', ';', '1', '1', ';', '6', final]
  {
    assert Decimal(11) == "11" && Decimal(6) == "6";
  }

  lemma ExampleReportBytes(final: char, code: u8)
    requires final as int == code
    ensures IsLatin1(Report("0", 10, 5, final))
    ensures Latin1(Report("0", 10, 5, final)) == [27, 91, 60, 48, 59, 49, 49, 59, 54, code]
  {
    ExampleReportText(final);
  }

  /** `ESC [ < 0 ; 11 ; 6 M` is a press of the left button at column 10,
      row 5 (0-based); with 'm' it is the release. */
  lemma LeftButtonExample(rest: seq<u8>)
    ensures DecodeEvent([27, 91, 60, 48, 59, 49, 49, 59, 54, 77] + rest, 0) == (Options.Some(MouseDown(Left, 10, 5)), 10)
    ensures DecodeEvent([27, 91, 60, 48, 59, 49, 49, 59, 54, 109] + rest, 0) == (Options.Some(MouseUp(Left, 10, 5)), 10)
  {
    ExampleReportBytes('M', 77);
    ReportBytesDecode(Left, false, 10, 5, 'M', rest);
    ExampleReportBytes('m', 109);
    ReportBytesDecode(Left, false, 10, 5, 'm', rest);
  }

  /** `ESC [ < 0 ; 5 M` has one field: a press at column 4 and row 0. */
  lemma OneFieldExample(rest: seq<u8>)
    ensures DecodeEvent([27, 91, 60, 48, 59, 53, 77] + rest, 0) == (Options.Some(MouseDown(Left, 4, 0)), 7)
  {
    var input: seq<u8> := [27, 91, 60, 48, 59, 53, 77] + rest;
    var body := DecodeSgrMouse(input, 3);
    assert DecodeEvent(input, 0) == (Options.Some(body.0), body.1) by {
      assert HasText(input, 0, [ESC, '[', '<']);
      SgrIntroducer(input, 0);
    }
    assert body == (ReportedEvent(Left, false, Coordinate("5"), 0, 'M'), 7) by {
      var t := "0" + ";" + ("5" + ['M']);
      assert t == ['0', ';', '5', 'M'];
      assert HasText(input, 3, t);
      SgrOneFieldDecodes(input, 3, Left, false, "0", "5", 'M');
    }
    assert Coordinate("5") == 4 by {
      assert Decimal(5) == "5";
      CoordinateOfNumeral(5);
    }
  }

  /** `ESC [ < 0 ; ; M` has two empty fields, each read as 1 and so as
      coordinate 0. */
  lemma EmptyFieldsExample(rest: seq<u8>)
    ensures DecodeEvent([27, 91, 60, 48, 59, 59, 77] + rest, 0) == (Options.Some(MouseDown(Left, 0, 0)), 7)
  {
    var input: seq<u8> := [27, 91, 60, 48, 59, 59, 77] + rest;
    var body := DecodeSgrMouse(input, 3);
    assert DecodeEvent(input, 0) == (Options.Some(body.0), body.1) by {
      assert HasText(input, 0, [ESC, '[', '<']);
      SgrIntroducer(input, 0);
    }
    assert body == (ReportedEvent(Left, false, Coordinate(""), Coordinate(""), 'M'), 7) by {
      var t := "0" + ";" + ("" + ";" + "" + ['M']);
      assert t == ['0', ';', ';', 'M'];
      assert HasText(input, 3, t);
      SgrFieldsDecode(input, 3, Left, false, "0", "", "", 'M');
    }
  }

  /** `ESC [ < 0 ; 0 ; 1 M`: a field of "0" wraps round to the largest u32. */
  lemma ZeroFieldExample(rest: seq<u8>)
    ensures DecodeEvent([27, 91, 60, 48, 59, 48, 59, 49, 77] + rest, 0) == (Options.Some(MouseDown(Left, U32_LIMIT - 1, 0)), 9)
  {
    var input: seq<u8> := [27, 91, 60, 48, 59, 48, 59, 49, 77] + rest;
    var body := DecodeSgrMouse(input, 3);
    assert DecodeEvent(input, 0) == (Options.Some(body.0), body.1) by {
      assert HasText(input, 0, [ESC, '[', '<']);
      SgrIntroducer(input, 0);
    }
    assert body == (ReportedEvent(Left, false, Coordinate("0"), Coordinate("1"), 'M'), 9) by {
      var t := "0" + ";" + ("0" + ";" + "1" + ['M']);
      assert t == ['0', ';', '0', ';', '1', 'M'];
      assert HasText(input, 3, t);
      SgrFieldsDecode(input, 3, Left, false, "0", "0", "1", 'M');
    }
    ZeroCoordinateWraps();
    assert Coordinate("1") == 0 by {
      assert Decimal(1) == "1";
      CoordinateOfNumeral(1);
    }
  }

  /** `ESC [ < 7 ; 2 ; 2 M`: a code with no button reads as an unknown
      button, and the report still decodes. */
  lemma UnknownButtonExample(rest: seq<u8>)
    ensures DecodeEvent([27, 91, 60, 55, 59, 50, 59, 50, 77] + rest, 0) == (Options.Some(MouseDown(MouseButton.Unknown, 1, 1)), 9)
  {
    var input: seq<u8> := [27, 91, 60, 55, 59, 50, 59, 50, 77] + rest;
    var body := DecodeSgrMouse(input, 3);
    assert DecodeEvent(input, 0) == (Options.Some(body.0), body.1) by {
      assert HasText(input, 0, [ESC, '[', '<']);
      SgrIntroducer(input, 0);
    }
    assert Coordinate("2") == 1 by {
      assert Decimal(2) == "2";
      CoordinateOfNumeral(2);
    }
    assert Scan(input, 5, ScanStart) == (ScanState(1, 1, 2, [], false), 9) by {
      var t := "2" + ";" + "2" + ['M'];
      assert t == ['2', ';', '2', 'M'];
      assert HasText(input, 5, t);
      ScanFields(input, 5, "2", "2", 'M');
    }
    assert DecodeButton(input, 3) == (Selector(MouseButton.Unknown, false), 4);
    SgrSteps(input, 3, 4, MouseButton.Unknown, false, 1, 1, 2, 'M', 9);
  }

  /** `ESC [ < 3 9 ; 2 ; 2 m`: motion with an unknown button is still a move,
      whatever the final byte. */
  lemma UnknownMotionExample(rest: seq<u8>)
    ensures DecodeEvent([27, 91, 60, 51, 57, 59, 50, 59, 50, 109] + rest, 0) == (Options.Some(MouseMove(MouseButton.Unknown, 1, 1)), 10)
  {
    var input: seq<u8> := [27, 91, 60, 51, 57, 59, 50, 59, 50, 109] + rest;
    var body := DecodeSgrMouse(input, 3);
    assert DecodeEvent(input, 0) == (Options.Some(body.0), body.1) by {
      assert HasText(input, 0, [ESC, '[', '<']);
      SgrIntroducer(input, 0);
    }
    assert Coordinate("2") == 1 by {
      assert Decimal(2) == "2";
      CoordinateOfNumeral(2);
    }
    assert Scan(input, 6, ScanStart) == (ScanState(1, 1, 2, [], true), 10) by {
      var t := "2" + ";" + "2" + ['m'];
      assert t == ['2', ';', '2', 'm'];
      assert HasText(input, 6, t);
      ScanFields(input, 6, "2", "2", 'm');
    }
    assert DecodeButton(input, 3) == (Selector(MouseButton.Unknown, true), 5);
    SgrSteps(input, 3, 5, MouseButton.Unknown, true, 1, 1, 2, 'm', 10);
  }

  /** A motion report ending in 'm' is still a move, never a release. */
  lemma MotionIgnoresFinal(b: MouseButton, x: nat, y: nat, rest: seq<u8>)
    requires ButtonCode(b, true).Some? && x + 1 < U32_LIMIT && y + 1 < U32_LIMIT
    ensures IsLatin1(Report(ButtonCode(b, true).value, x, y, 'm'))
    ensures DecodeEvent(Latin1(Report(ButtonCode(b, true).value, x, y, 'm')) + rest, 0).0
         == Options.Some(MouseMove(b, x, y))
  {
    ReportBytesDecode(b, true, x, y, 'm', rest);
  }

  // ---------------------------------------------------------------------
  // The parser object.

  /** `InputParser`: the byte stream and how far it has been read. The
      Rust parser keeps a peekable iterator; its state is the read position. */
  class InputParser {
    const input: seq<u8>
    var pos: nat

    predicate Valid()
      reads this
    {
      pos <= |input|
    }

    constructor (stream: seq<u8>)
      ensures Valid() && input == stream && pos == 0
    {
      input := stream;
      pos := 0;
    }

    /** The next byte, or 0 when there is none. */
    method NextByte() returns (b: u8)
      requires Valid()
      modifies this
      ensures Valid()
      ensures b == ByteAt(input, old(pos)) && pos == Next(input, old(pos))
    {
      if pos < |input| {
        b := input[pos];
        pos := pos + 1;
      } else {
        b := 0;
      }
    }

    method NextChar() returns (c: char)
      requires Valid()
      modifies this
      ensures Valid()
      ensures c == CharAt(input, old(pos)) && pos == Next(input, old(pos))
    {
      var b := NextByte();
      c := b as char;
    }

    /** The next byte without consuming it, or 0 when there is none. */
    method PeekByte() returns (b: u8)
      requires Valid()
      ensures b == ByteAt(input, pos)
      ensures pos < |input| ==> b == input[pos]
    {
      b := if pos < |input| then input[pos] else 0;
    }

    method PeekChar() returns (c: char)
      requires Valid()
      ensures c == CharAt(input, pos)
    {
      var b := PeekByte();
      c := b as char;
    }

    /** X10 mouse reports are not decoded; nothing is read. */
    method ReadX10Mouse() returns (e: Event)
      ensures e == Event.Unknown
    {
      e := Event.Unknown;
    }

    /** `scan_chars` with the coordinate closure: reads until the closure
      stops, starting from `start`. */
    method ScanChars(start: ScanState) returns (s: ScanState)
      requires Valid()
      modifies this
      ensures Valid()
      ensures (s, pos) == Scan(input, old(pos), start)
    {
      s := start;
      var more := true;
      while more
        invariant Valid()
        invariant Scan(input, old(pos), start) == if more then Scan(input, pos, s) else (s, pos)
        decreases if more then |input| - pos + 1 else 0
      {
        var c := NextChar();
        var step := ScanStep(s, c);
        s, more := step.0, step.1;
      }
    }

    method ReadSgrMouse() returns (e: Event)
      requires Valid()
      modifies this
      ensures Valid()
      ensures (e, pos) == DecodeSgrMouse(input, old(pos))
    {
      var moving := false;
      var button: MouseButton;
      var c := NextChar();
      match c {
        case '0' => button := Left;
        case '1' => button := Middle;
        case '2' => button := Right;
        case '3' =>
          moving := true;
          var d := NextChar();
          button := match d
            case '2' => Left
            case '3' => Middle
            case '4' => Right
            case '5' => None
            case _ => MouseButton.Unknown;
        case '6' =>
          var d := NextChar();
          button := match d
            case '4' => WheelUp
            case '5' => WheelDown
            case _ => MouseButton.Unknown;
        case _ => button := MouseButton.Unknown;
      }
      var separator := NextChar();
      if separator != ';' {
        return Event.Unknown;
      }
      var s := ScanChars(ScanStart);
      if moving {
        e := MouseMove(button, s.x, s.y);
      } else if s.up {
        e := MouseUp(button, s.x, s.y);
      } else {
        e := MouseDown(button, s.x, s.y);
      }
    }

    method ReadCtrlSequence() returns (e: Event)
      requires Valid()
      modifies this
      ensures Valid()
      ensures (e, pos) == DecodeCtrl(input, old(pos))
    {
      var c := NextChar();
      match c {
        case 'M' => e := ReadX10Mouse();
        case '<' => e := ReadSgrMouse();
        case _ => e := KeyPress(c);
      }
    }

    method ReadEscSequence() returns (e: Event)
      requires Valid()
      modifies this
      ensures Valid()
      ensures (e, pos) == DecodeEsc(input, old(pos))
    {
      var c := NextChar();
      if c == '[' {
        e := ReadCtrlSequence();
      } else {
        e := Event.Unknown;
      }
    }

    /** The next event; ESC is only the start of an escape sequence when the
      byte after it, peeked and not consumed, is an introducer. */
    method NextEvent() returns (r: Options.Option<Event>)
      requires Valid()
      modifies this
      ensures Valid()
      ensures (r, pos) == DecodeEvent(input, old(pos))
    {
      var c := NextChar();
      var escape := false;
      if c == ESC {
        var peeked := PeekChar();
        escape := IsCtrlChar(peeked);
      }
      if escape {
        var e := ReadEscSequence();
        r := Options.Some(e);
      } else {
        r := Options.Some(KeyPress(c));
      }
    }
  }
}
