/** Terminal output (`src/terminal/mod.rs`): the ECMA-48 control sequences the
    engine writes, the UTF-8 bytes of a written character, and a `Terminal`
    whose standard output is an append-only byte log.

    Every sequence with numeric parameters (CUP, SGR, ED) is paired with a
    decoder (`ParseControl`) that reads back the parameters and the final
    byte, and the round trip is proved. The private-mode sequences start
    their parameters with '?', which that decoder rejects; `ParsePrivateMode`
    reads back their mode number and final byte. */
module Escapes {
  import opened Ints
  import opened Options
  import opened Colors
  import opened Resize

  const ESC: char := 27 as char

  // ---------------------------------------------------------------------
  // Decimal numerals, as Rust's `{}` formats an unsigned integer.

  predicate IsDigit(c: char) { '0' <= c <= '9' }

  predicate IsDigits(s: string) { forall i :: 0 <= i < |s| ==> IsDigit(s[i]) }

  function DigitChar(d: int): (c: char)
    requires 0 <= d <= 9
    ensures IsDigit(c) && c as int - '0' as int == d
  {
    ('0' as int + d) as char
  }

  /** The shortest decimal numeral of `n`. */
  function Decimal(n: nat): (s: string)
    ensures |s| >= 1 && IsDigits(s)
    ensures s[0] == '0' ==> n == 0
    ensures n < 10 <==> |s| == 1
  {
    if n < 10 then [DigitChar(n)] else Decimal(n / 10) + [DigitChar(n % 10)]
  }

  /** The value of a numeral; the empty numeral reads as 0. */
  function DecimalValue(s: string): nat
    requires IsDigits(s)
  {
    if s == [] then 0 else DecimalValue(s[..|s| - 1]) * 10 + (s[|s| - 1] as int - '0' as int)
  }

  lemma {:induction false} DecimalRoundTrip(n: nat)
    ensures DecimalValue(Decimal(n)) == n
  {
    if n >= 10 {
      var s := Decimal(n / 10);
      var t := s + [DigitChar(n % 10)];
      assert t[..|t| - 1] == s;
      DecimalRoundTrip(n / 10);
    }
  }

  // ---------------------------------------------------------------------
  // Parameter lists: numerals separated by ';'.

  /** The ';'-separated fields of `s`. */
  function Split(s: string): (parts: seq<string>)
    ensures |parts| >= 1
    ensures forall i :: 0 <= i < |parts| ==> ';' !in parts[i]
  {
    if s == [] then [[]]
    else if s[0] == ';' then [[]] + Split(s[1..])
    else
      var t := Split(s[1..]);
      [[s[0]] + t[0]] + t[1..]
  }

  function Join(parts: seq<string>): string
    requires |parts| >= 1
  {
    if |parts| == 1 then parts[0] else parts[0] + ";" + Join(parts[1..])
  }

  lemma {:induction false} SplitField(p: string, rest: string)
    requires ';' !in p
    ensures Split(p + ";" + rest) == [p] + Split(rest)
    ensures Split(p) == [p]
  {
    if p != [] {
      assert (p + ";" + rest)[1..] == p[1..] + ";" + rest;
      SplitField(p[1..], rest);
      assert [p[0]] + p[1..] == p;
    }
  }

  /** Splitting undoes joining fields that contain no separator. */
  lemma {:induction false} SplitJoin(parts: seq<string>)
    requires |parts| >= 1
    requires forall i :: 0 <= i < |parts| ==> ';' !in parts[i]
    ensures Split(Join(parts)) == parts
  {
    if |parts| == 1 {
      SplitField(parts[0], "");
    } else {
      SplitField(parts[0], Join(parts[1..]));
      SplitJoin(parts[1..]);
    }
  }

  function Values(parts: seq<string>): (vs: Option<seq<nat>>)
    ensures vs.Some? ==> |vs.value| == |parts|
  {
    if parts == [] then Some([])
    else if !IsDigits(parts[0]) then None
    else match Values(parts[1..])
      case None => None
      case Some(rest) => Some([DecimalValue(parts[0])] + rest)
  }

  /** Decodes a control sequence ESC '[' params final: its numeric parameters
      (an empty parameter is 0, as ECMA-48 defaults it) and its final character. */
  function ParseControl(s: string): Option<(seq<nat>, char)>
  {
    if |s| >= 3 && s[0] == ESC && s[1] == '[' then
      match Values(Split(s[2..|s| - 1]))
      case Some(vs) => Some((vs, s[|s| - 1]))
      case None => None
    else
      None
  }

  function Numerals(ns: seq<nat>): (parts: seq<string>)
    ensures |parts| == |ns|
    ensures forall i :: 0 <= i < |parts| ==> parts[i] == Decimal(ns[i])
  {
    if ns == [] then [] else [Decimal(ns[0])] + Numerals(ns[1..])
  }

  /** A leading field of digits contributes its value. */
  lemma ValuesCons(p: string, rest: seq<string>)
    requires IsDigits(p)
    ensures Values([p] + rest) ==
      match Values(rest)
      case Some(vs) => Some([DecimalValue(p)] + vs)
      case None => None
  {
    assert ([p] + rest)[0] == p && ([p] + rest)[1..] == rest;
  }

  lemma {:induction false} NumeralsValues(ns: seq<nat>)
    ensures Values(Numerals(ns)) == Some(ns)
  {
    var parts := Numerals(ns);
    if ns == [] {
      assert parts == [];
    } else {
      assert parts == [Decimal(ns[0])] + Numerals(ns[1..]);
      ValuesCons(Decimal(ns[0]), Numerals(ns[1..]));
      NumeralsValues(ns[1..]);
      DecimalRoundTrip(ns[0]);
      assert [ns[0]] + ns[1..] == ns;
    }
  }

  /** The parameter string of numerals `ns` decodes back to `ns`. */
  lemma ControlRoundTrip(ns: seq<nat>, final: char)
    requires |ns| >= 1
    ensures ParseControl(CsiSeq(Join(Numerals(ns)) + [final])) == Some((ns, final))
  {
    var parts := Numerals(ns);
    var body := Join(parts);
    forall i | 0 <= i < |parts| ensures ';' !in parts[i] {
      NoSeparator(ns[i]);
    }
    SplitJoin(parts);
    NumeralsValues(ns);
    ControlBody(body, final);
  }

  lemma ControlBody(body: string, final: char)
    ensures ParseControl(CsiSeq(body + [final])) ==
      match Values(Split(body))
      case Some(vs) => Some((vs, final))
      case None => None
  {
    var s := CsiSeq(body + [final]);
    assert s[2..|s| - 1] == body;
    assert s[|s| - 1] == final;
  }

  lemma NoSeparator(n: nat)
    ensures ';' !in Decimal(n)
  {
  }

  lemma JoinCons(p: string, ps: seq<string>)
    requires |ps| >= 1
    ensures Join([p] + ps) == p + ";" + Join(ps)
  {
    assert ([p] + ps)[1..] == ps;
  }

  lemma NumeralsCons(n: nat, ns: seq<nat>)
    ensures Numerals([n] + ns) == [Decimal(n)] + Numerals(ns)
  {
    assert ([n] + ns)[1..] == ns;
  }

  /** The numerals of a two-parameter list, joined. */
  lemma Join2(a: nat, b: nat)
    ensures Join(Numerals([a, b])) == Decimal(a) + ";" + Decimal(b)
  {
    NumeralsCons(a, [b]);
    NumeralsCons(b, []);
    JoinCons(Decimal(a), [Decimal(b)]);
  }

  /** Decoding a parameter string one leading numeral at a time. */
  lemma ParamsCons(n: nat, rest: string)
    ensures Values(Split(Decimal(n) + ";" + rest)) ==
      match Values(Split(rest))
      case Some(vs) => Some([n] + vs)
      case None => None
  {
    NoSeparator(n);
    SplitField(Decimal(n), rest);
    DecimalRoundTrip(n);
    assert ([Decimal(n)] + Split(rest))[1..] == Split(rest);
  }

  lemma ParamsOne(n: nat)
    ensures Values(Split(Decimal(n))) == Some([n])
  {
    NoSeparator(n);
    SplitField(Decimal(n), "");
    DecimalRoundTrip(n);
    ValuesOne(Decimal(n));
  }

  lemma ValuesOne(p: string)
    requires IsDigits(p)
    ensures Values([p]) == Some([DecimalValue(p)])
  {
    var parts := [p];
    assert parts[0] == p && parts[1..] == [];
    assert Values(parts[1..]) == Some([]);
    assert [DecimalValue(p)] + [] == [DecimalValue(p)];
  }

  // ---------------------------------------------------------------------
  // The control sequences.

  /** Control Sequence Introducer followed by `s`. */
  function CsiSeq(s: string): (r: string)
    ensures |r| == |s| + 2 && r[0] == ESC && r[1] == '[' && r[2..] == s
  {
    [ESC, '['] + s
  }

  /** A control sequence: the introducer ESC '[' and, last, the final character. */
  predicate IsCsi(s: string, final: char)
  {
    |s| >= 3 && s[0] == ESC && s[1] == '[' && s[|s| - 1] == final
  }

  /** Cursor position (CUP, section 8.3.21 of ECMA-48): row first, both 1-based. */
  function MoveToSeq(x: u32, y: u32): (r: string)
    ensures IsCsi(r, 'H')
  {
    CsiSeq(Decimal(WrappingAdd(y, 1)) + ";" + Decimal(WrappingAdd(x, 1)) + "H")
  }

  lemma MoveToDecodes(x: u32, y: u32)
    ensures ParseControl(MoveToSeq(x, y)) == Some(([WrappingAdd(y, 1), WrappingAdd(x, 1)], 'H'))
    ensures x + 1 < U32_LIMIT && y + 1 < U32_LIMIT ==> ParseControl(MoveToSeq(x, y)) == Some(([y + 1, x + 1], 'H'))
  {
    var ns: seq<nat> := [WrappingAdd(y, 1), WrappingAdd(x, 1)];
    Join2(WrappingAdd(y, 1), WrappingAdd(x, 1));
    ControlRoundTrip(ns, 'H');
  }

  /** Select Graphic Rendition (SGR, section 8.3.117 of ECMA-48) with the
      direct-colour form 38;2;r;g;b of ITU-T T.416; alpha is not sent. */
  function FgColorSeq(c: Color): (r: string)
    ensures IsCsi(r, 'm')
  {
    CsiSeq("38;2;" + Decimal(c.r) + ";" + Decimal(c.g) + ";" + Decimal(c.b) + "m")
  }

  function BgColorSeq(c: Color): (r: string)
    ensures IsCsi(r, 'm')
  {
    CsiSeq("48;2;" + Decimal(c.r) + ";" + Decimal(c.g) + ";" + Decimal(c.b) + "m")
  }

  /** SGR with the indexed-colour form 38;5;n, n the 6x6x6 cube index. */
  function Fg8BitSeq(c: Color): (r: string)
    ensures IsCsi(r, 'm')
  {
    CsiSeq("38;5;" + Decimal(As8BitAnsi(c)) + "m")
  }

  function Bg8BitSeq(c: Color): (r: string)
    ensures IsCsi(r, 'm')
  {
    CsiSeq("48;5;" + Decimal(As8BitAnsi(c)) + "m")
  }

  /** The foreground and background colour sequences carry the colour's
      channels (or its cube index) back to a reader of ECMA-48 parameters. */
  lemma FgColorSeqDecodes(c: Color)
    ensures ParseControl(FgColorSeq(c)) == Some(([38, 2, c.r, c.g, c.b], 'm'))
  {
    assert Decimal(38) + ";2;" == "38;2;";
    DirectColorDecodes(38, c);
  }

  lemma BgColorSeqDecodes(c: Color)
    ensures ParseControl(BgColorSeq(c)) == Some(([48, 2, c.r, c.g, c.b], 'm'))
  {
    assert Decimal(48) + ";2;" == "48;2;";
    DirectColorDecodes(48, c);
  }

  lemma Fg8BitSeqDecodes(c: Color)
    ensures ParseControl(Fg8BitSeq(c)) == Some(([38, 5, As8BitAnsi(c)], 'm'))
  {
    assert Decimal(38) + ";5;" == "38;5;";
    IndexedColorDecodes(38, As8BitAnsi(c));
  }

  lemma Bg8BitSeqDecodes(c: Color)
    ensures ParseControl(Bg8BitSeq(c)) == Some(([48, 5, As8BitAnsi(c)], 'm'))
  {
    assert Decimal(48) + ";5;" == "48;5;";
    IndexedColorDecodes(48, As8BitAnsi(c));
  }

  /** A separator splits the fields of its two sides apart. */
  lemma {:induction false} SplitSep(a: string, b: string)
    ensures Split(a + ";" + b) == Split(a) + Split(b)
  {
    if a == [] {
      assert a + ";" + b == [';'] + b;
      assert ([';'] + b)[1..] == b;
    } else {
      assert (a + ";" + b)[0] == a[0];
      assert (a + ";" + b)[1..] == a[1..] + ";" + b;
      SplitSep(a[1..], b);
    }
  }

  lemma {:induction false} ValuesAppend(p: seq<string>, q: seq<string>, vp: seq<nat>, vq: seq<nat>)
    requires Values(p) == Some(vp) && Values(q) == Some(vq)
    ensures Values(p + q) == Some(vp + vq)
  {
    if p == [] {
      assert p + q == q && vp == [] && vp + vq == vq;
    } else {
      assert (p + q)[0] == p[0] && (p + q)[1..] == p[1..] + q;
      assert IsDigits(p[0]) && Values(p[1..]).Some?;
      var rest := Values(p[1..]).value;
      assert vp == [DecimalValue(p[0])] + rest;
      ValuesAppend(p[1..], q, rest, vq);
      assert [DecimalValue(p[0])] + rest + vq == [DecimalValue(p[0])] + (rest + vq);
    }
  }

  lemma LeadSplit(sel: string, r: string)
    ensures sel + ";2;" + r == sel + ";" + ("2" + ";" + r)
  {
    assert ";2;" == ";" + "2" + ";";
  }

  lemma LeadValues(selector: nat, r: nat)
    ensures Values(Split(Decimal(selector) + ";2;" + Decimal(r))) == Some([selector, 2, r])
  {
    LeadSplit(Decimal(selector), Decimal(r));
    assert Decimal(2) == "2";
    ParamsOne(r);
    ParamsCons(2, Decimal(r));
    assert Values(Split("2" + ";" + Decimal(r))) == Some([2] + [r]);
    ParamsCons(selector, "2" + ";" + Decimal(r));
    assert [selector] + ([2] + [r]) == [selector, 2, r];
  }

  /** Appending one more numeric parameter appends its value. */
  lemma ParamsSnoc(body: string, vs: seq<nat>, n: nat)
    requires Values(Split(body)) == Some(vs)
    ensures Values(Split(body + ";" + Decimal(n))) == Some(vs + [n])
  {
    SplitSep(body, Decimal(n));
    ParamsOne(n);
    ValuesAppend(Split(body), Split(Decimal(n)), vs, [n]);
  }

  lemma DirectColorDecodes(selector: nat, c: Color)
    requires selector == 38 || selector == 48
    ensures ParseControl(CsiSeq(Decimal(selector) + ";2;" + Decimal(c.r) + ";" + Decimal(c.g) + ";" + Decimal(c.b) + "m"))
         == Some(([selector, 2, c.r, c.g, c.b], 'm'))
  {
    var lr := Decimal(selector) + ";2;" + Decimal(c.r);
    var lrg := lr + ";" + Decimal(c.g);
    var body := lrg + ";" + Decimal(c.b);
    assert Values(Split(body)) == Some([selector, 2, c.r, c.g, c.b]) by {
      LeadValues(selector, c.r);
      ParamsSnoc(lr, [selector, 2, c.r], c.g);
      ParamsSnoc(lrg, [selector, 2, c.r] + [c.g], c.b);
      assert [selector, 2, c.r] + [c.g] + [c.b] == [selector, 2, c.r, c.g, c.b];
    }
    assert Decimal(selector) + ";2;" + Decimal(c.r) + ";" + Decimal(c.g) + ";" + Decimal(c.b) + "m" == body + ['m'];
    ControlBody(body, 'm');
  }

  lemma IndexedColorDecodes(selector: nat, code: nat)
    requires selector == 38 || selector == 48
    ensures ParseControl(CsiSeq(Decimal(selector) + ";5;" + Decimal(code) + "m")) == Some(([selector, 5, code], 'm'))
  {
    var tail := Decimal(5) + ";" + Decimal(code);
    var body := Decimal(selector) + ";" + tail;
    assert Decimal(5) == "5";
    assert Decimal(selector) + ";5;" + Decimal(code) + "m" == body + ['m'];
    ControlBody(body, 'm');
    assert Values(Split(tail)) == Some([5, code]) by {
      ParamsOne(code);
      ParamsCons(5, Decimal(code));
      assert [5] + [code] == [5, code];
    }
    ParamsCons(selector, tail);
    assert [selector] + [5, code] == [selector, 5, code];
  }

  /** SGR with no parameter: reset every attribute. */
  function ResetSeq(): (r: string)
    ensures IsCsi(r, 'm') && |r| == 3
  {
    CsiSeq("m")
  }

  /** Erase in page (ED, section 8.3.39 of ECMA-48), parameter 2: the whole screen. */
  function EraseSeq(): (r: string)
    ensures IsCsi(r, 'J')
  {
    CsiSeq("2J")
  }

  lemma ResetAndEraseDecode()
    ensures ParseControl(ResetSeq()) == Some(([0], 'm'))
    ensures ParseControl(EraseSeq()) == Some(([2], 'J'))
  {
    ControlBody("", 'm');
    assert "" + ['m'] == "m";
    assert Split("") == [""];
    ValuesOne("");
    ControlBody("2", 'J');
    assert "2" + ['J'] == "2J";
    assert Decimal(2) == "2";
    ParamsOne(2);
  }

  /** The xterm private modes: 1049 selects the alternate screen, 25 shows
      the cursor; 'h' sets the mode and 'l' resets it. */
  function AltScreenSeq(): (r: string)
    ensures IsCsi(r, 'h') && r[2] == '?'
  {
    CsiSeq("?1049h")
  }

  function MainScreenSeq(): (r: string)
    ensures IsCsi(r, 'l') && r[2] == '?'
  {
    CsiSeq("?1049l")
  }

  function ShowCursorSeq(): (r: string)
    ensures IsCsi(r, 'h') && r[2] == '?'
  {
    CsiSeq("?25h")
  }

  function HideCursorSeq(): (r: string)
    ensures IsCsi(r, 'l') && r[2] == '?'
  {
    CsiSeq("?25l")
  }

  /** Decodes a private-mode sequence ESC '[' '?' number final: the mode
      number and the final character. */
  function ParsePrivateMode(s: string): Option<(nat, char)>
  {
    if |s| >= 5 && s[0] == ESC && s[1] == '[' && s[2] == '?' && IsDigits(s[3..|s| - 1]) then
      Some((DecimalValue(s[3..|s| - 1]), s[|s| - 1]))
    else
      None
  }

  lemma PrivateModeRoundTrip(n: nat, final: char)
    ensures ParsePrivateMode(CsiSeq("?" + Decimal(n) + [final])) == Some((n, final))
  {
    var body := "?" + Decimal(n) + [final];
    var s := CsiSeq(body);
    assert body[1..|body| - 1] == Decimal(n);
    assert s[3..|s| - 1] == body[1..|body| - 1];
    DecimalRoundTrip(n);
  }

  /** The four private-mode sequences carry their mode and set/reset
      character back to a reader, and none of them reads as a sequence of
      numeric parameters. */
  lemma PrivateModesDecode()
    ensures ParsePrivateMode(AltScreenSeq()) == Some((1049, 'h'))
    ensures ParsePrivateMode(MainScreenSeq()) == Some((1049, 'l'))
    ensures ParsePrivateMode(ShowCursorSeq()) == Some((25, 'h'))
    ensures ParsePrivateMode(HideCursorSeq()) == Some((25, 'l'))
    ensures ParseControl(AltScreenSeq()) == None && ParseControl(MainScreenSeq()) == None
    ensures ParseControl(ShowCursorSeq()) == None && ParseControl(HideCursorSeq()) == None
  {
    assert Decimal(1049) == "1049" && Decimal(25) == "25";
    assert "?" + "1049" + ['h'] == "?1049h" && "?" + "1049" + ['l'] == "?1049l";
    assert "?" + "25" + ['h'] == "?25h" && "?" + "25" + ['l'] == "?25l";
    PrivateMode(1049, "1049", 'h');
    PrivateMode(1049, "1049", 'l');
    PrivateMode(25, "25", 'h');
    PrivateMode(25, "25", 'l');
  }

  lemma PrivateMode(n: nat, digits: string, final: char)
    requires Decimal(n) == digits
    ensures ParsePrivateMode(CsiSeq("?" + digits + [final])) == Some((n, final))
    ensures ParseControl(CsiSeq("?" + digits + [final])) == None
  {
    PrivateModeRoundTrip(n, final);
    NoDigitParams("?" + digits, final);
  }

  /** A parameter string starting with '?' is not a list of numbers. */
  lemma NoDigitParams(body: string, final: char)
    requires |body| >= 1 && body[0] == '?'
    ensures ParseControl(CsiSeq(body + [final])) == None
  {
    ControlBody(body, final);
    var parts := Split(body);
    assert parts[0][0] == '?' by {
      assert body == [body[0]] + body[1..];
    }
    assert !IsDigits(parts[0]);
  }

  // ---------------------------------------------------------------------
  // UTF-8 (RFC 3629).

  function Utf8(c: char): (bytes: seq<u8>)
    ensures 1 <= |bytes| <= 4
    ensures |bytes| == (if c as int < 0x80 then 1 else if c as int < 0x800 then 2
                        else if c as int < 0x1_0000 then 3 else 4)
    ensures forall i :: 1 <= i < |bytes| ==> 0x80 <= bytes[i] < 0xC0
    ensures |bytes| == 1 ==> bytes[0] < 0x80
    ensures |bytes| == 2 ==> 0xC0 <= bytes[0] < 0xE0
    ensures |bytes| == 3 ==> 0xE0 <= bytes[0] < 0xF0
    ensures |bytes| == 4 ==> 0xF0 <= bytes[0] < 0xF8
  {
    var n := c as int;
    if n < 0x80 then [n]
    else if n < 0x800 then [0xC0 + n / 0x40, 0x80 + n % 0x40]
    else if n < 0x1_0000 then [0xE0 + n / 0x1000, 0x80 + n / 0x40 % 0x40, 0x80 + n % 0x40]
    else [0xF0 + n / 0x4_0000, 0x80 + n / 0x1000 % 0x40, 0x80 + n / 0x40 % 0x40, 0x80 + n % 0x40]
  }

  /** Decodes the first scalar value of `bytes`: its code point and its length. */
  function DecodeUtf8(bytes: seq<u8>): Option<(int, nat)>
  {
    if |bytes| == 0 then None
    else
      var b0: int := bytes[0];
      if b0 < 0x80 then Some((b0, 1))
      else if 0xC0 <= b0 < 0xE0 && |bytes| >= 2 then
        Some(((b0 - 0xC0) * 0x40 + Payload(bytes[1]), 2))
      else if 0xE0 <= b0 < 0xF0 && |bytes| >= 3 then
        Some((((b0 - 0xE0) * 0x40 + Payload(bytes[1])) * 0x40 + Payload(bytes[2]), 3))
      else if 0xF0 <= b0 < 0xF8 && |bytes| >= 4 then
        Some(((((b0 - 0xF0) * 0x40 + Payload(bytes[1])) * 0x40 + Payload(bytes[2])) * 0x40 + Payload(bytes[3]), 4))
      else None
  }

  /** The six payload bits of a continuation byte. */
  function Payload(b: u8): int { b as int - 0x80 }

  lemma {:induction false} Utf8RoundTrip(c: char, tail: seq<u8>)
    ensures DecodeUtf8(Utf8(c) + tail) == Some((c as int, |Utf8(c)|))
  {
    var n := c as int;
    var b := Utf8(c) + tail;
    if n >= 0x80 {
      assert n == n / 0x40 * 0x40 + n % 0x40;
      if n >= 0x800 {
        assert n / 0x40 == n / 0x1000 * 0x40 + n / 0x40 % 0x40;
        if n >= 0x1_0000 {
          assert n / 0x1000 == n / 0x4_0000 * 0x40 + n / 0x1000 % 0x40;
        }
      }
    }
  }

  /** `write_char`: the character's UTF-8 bytes in a zeroed 4-byte buffer. */
  function CharBytes(c: char): (buf: seq<u8>)
    ensures |buf| == 4
    ensures buf[..|Utf8(c)|] == Utf8(c)
    ensures forall i :: |Utf8(c)| <= i < 4 ==> buf[i] == 0
  {
    Utf8(c) + seq(4 - |Utf8(c)|, _ => 0)
  }

  /** The buffer decodes to the character, followed only by NUL bytes. */
  lemma CharBytesDecode(c: char)
    ensures DecodeUtf8(CharBytes(c)) == Some((c as int, |Utf8(c)|))
  {
    Utf8RoundTrip(c, seq(4 - |Utf8(c)|, _ => 0));
  }

  /** `as_bytes` of a string: the concatenated UTF-8 of its characters. */
  function StrBytes(s: string): (bytes: seq<u8>)
    ensures |bytes| >= |s|
  {
    if s == [] then [] else Utf8(s[0]) + StrBytes(s[1..])
  }

  /** The bytes of a control sequence start with ESC '['. */
  lemma CsiBytes(s: string, final: char)
    requires IsCsi(s, final)
    ensures |StrBytes(s)| >= 3 && StrBytes(s)[0] == 0x1B && StrBytes(s)[1] == 0x5B
  {
    assert s[1..][0] == '[';
    assert StrBytes(s) == Utf8(ESC) + StrBytes(s[1..]);
    assert StrBytes(s[1..]) == Utf8('[') + StrBytes(s[1..][1..]);
  }

  // ---------------------------------------------------------------------
  // Abstract terminal commands and the bytes each one writes.

  datatype Command =
    | Reset
    | MoveTo(x: u32, y: u32)
    | Bg(bg: Color)
    | Fg(fg: Color)
    | Char(ch: char)
    | Flush

  function Encode(cmd: Command): (r: seq<u8>)
    // Only a flush writes nothing.
    ensures r == [] <==> cmd.Flush?
    // A character is its UTF-8 bytes in a 4-byte buffer, and reads back.
    ensures cmd.Char? ==> |r| == 4 && DecodeUtf8(r) == Some((cmd.ch as int, |Utf8(cmd.ch)|))
    // Every other command is a control sequence: ESC '[' first.
    ensures !cmd.Char? && !cmd.Flush? ==> |r| >= 3 && r[0] == 0x1B && r[1] == 0x5B
  {
    match cmd
    case Reset => CsiBytes(ResetSeq(), 'm'); StrBytes(ResetSeq())
    case MoveTo(x, y) => CsiBytes(MoveToSeq(x, y), 'H'); StrBytes(MoveToSeq(x, y))
    case Bg(c) => CsiBytes(BgColorSeq(c), 'm'); StrBytes(BgColorSeq(c))
    case Fg(c) => CsiBytes(FgColorSeq(c), 'm'); StrBytes(FgColorSeq(c))
    case Char(ch) => CharBytesDecode(ch); CharBytes(ch)
    case Flush => []
  }

  function EncodeAll(cmds: seq<Command>): seq<u8>
  {
    if cmds == [] then [] else Encode(cmds[0]) + EncodeAll(cmds[1..])
  }

  lemma {:induction false} EncodeAllAppend(a: seq<Command>, b: seq<Command>)
    ensures EncodeAll(a + b) == EncodeAll(a) + EncodeAll(b)
  {
    if a == [] {
      assert a + b == b;
    } else {
      assert (a + b)[0] == a[0] && (a + b)[1..] == a[1..] + b;
      EncodeAllAppend(a[1..], b);
    }
  }

  /** The terminal: standard output as a byte log, `flushed` bytes of which
      have been handed on; sizes come from the geometry cache. */
  class Terminal {
    const geometry: GeometryCache
    var out: seq<u8>
    var flushed: nat

    ghost predicate Valid()
      reads this
    {
      flushed <= |out|
    }

    constructor (geometry: GeometryCache)
      ensures Valid() && this.geometry == geometry && out == [] && flushed == 0
    {
      this.geometry := geometry;
      out := [];
      flushed := 0;
    }

    /** `size()`: the cached cell dimensions. */
    function Size(): (size: (u32, u32))
      reads geometry
      ensures size == (geometry.termWidth, geometry.termHeight)
    {
      (geometry.Width(), geometry.Height())
    }

    method Flush()
      modifies this
      ensures out == old(out) && flushed == |out|
    {
      flushed := |out|;
    }

    method Write(s: string) returns (n: nat)
      modifies this
      ensures out == old(out) + StrBytes(s) && flushed == old(flushed)
      ensures n == |StrBytes(s)|
    {
      var bytes := StrBytes(s);
      out := out + bytes;
      n := |bytes|;
    }

    method WriteChar(c: char) returns (n: nat)
      modifies this
      ensures out == old(out) + Encode(Command.Char(c)) && flushed == old(flushed)
      ensures n == 4
    {
      var bytes := CharBytes(c);
      out := out + bytes;
      n := |bytes|;
    }

    method Csi(s: string) returns (n: nat)
      modifies this
      ensures out == old(out) + StrBytes(CsiSeq(s)) && flushed == old(flushed)
      ensures n == |StrBytes(CsiSeq(s))|
    {
      n := Write(CsiSeq(s));
    }

    /** Resets the attributes, then erases the screen; reports the erase's count. */
    method Clear() returns (n: nat)
      modifies this
      ensures out == old(out) + StrBytes(ResetSeq()) + StrBytes(EraseSeq()) && flushed == old(flushed)
      ensures n == |StrBytes(EraseSeq())|
    {
      var _ := Reset();
      n := Csi("2J");
    }

    method AltScreen() returns (n: nat)
      modifies this
      ensures out == old(out) + StrBytes(AltScreenSeq()) && flushed == old(flushed)
      ensures n == |StrBytes(AltScreenSeq())|
    {
      n := Csi("?1049h");
    }

    method MainScreen() returns (n: nat)
      modifies this
      ensures out == old(out) + StrBytes(MainScreenSeq()) && flushed == old(flushed)
      ensures n == |StrBytes(MainScreenSeq())|
    {
      n := Csi("?1049l");
    }

    method MoveTo(x: u32, y: u32) returns (n: nat)
      modifies this
      ensures out == old(out) + Encode(Command.MoveTo(x, y)) && flushed == old(flushed)
      ensures n == |Encode(Command.MoveTo(x, y))|
    {
      n := Csi(Decimal(WrappingAdd(y, 1)) + ";" + Decimal(WrappingAdd(x, 1)) + "H");
    }

    method ShowCursor() returns (n: nat)
      modifies this
      ensures out == old(out) + StrBytes(ShowCursorSeq()) && flushed == old(flushed)
      ensures n == |StrBytes(ShowCursorSeq())|
    {
      n := Csi("?25h");
    }

    method HideCursor() returns (n: nat)
      modifies this
      ensures out == old(out) + StrBytes(HideCursorSeq()) && flushed == old(flushed)
      ensures n == |StrBytes(HideCursorSeq())|
    {
      n := Csi("?25l");
    }

    method FgColor(c: Color) returns (n: nat)
      modifies this
      ensures out == old(out) + Encode(Command.Fg(c)) && flushed == old(flushed)
      ensures n == |Encode(Command.Fg(c))|
    {
      var (r, g, b) := AsRgb(c);
      n := Csi("38;2;" + Decimal(r) + ";" + Decimal(g) + ";" + Decimal(b) + "m");
    }

    method BgColor(c: Color) returns (n: nat)
      modifies this
      ensures out == old(out) + Encode(Command.Bg(c)) && flushed == old(flushed)
      ensures n == |Encode(Command.Bg(c))|
    {
      var (r, g, b) := AsRgb(c);
      n := Csi("48;2;" + Decimal(r) + ";" + Decimal(g) + ";" + Decimal(b) + "m");
    }

    method Fg8BitColor(c: Color) returns (n: nat)
      modifies this
      ensures out == old(out) + StrBytes(Fg8BitSeq(c)) && flushed == old(flushed)
      ensures n == |StrBytes(Fg8BitSeq(c))|
    {
      var code := As8BitAnsi(c);
      n := Csi("38;5;" + Decimal(code) + "m");
    }

    method Bg8BitColor(c: Color) returns (n: nat)
      modifies this
      ensures out == old(out) + StrBytes(Bg8BitSeq(c)) && flushed == old(flushed)
      ensures n == |StrBytes(Bg8BitSeq(c))|
    {
      var code := As8BitAnsi(c);
      n := Csi("48;5;" + Decimal(code) + "m");
    }

    /** Foreground then background; the count is the sum of both writes. */
    method Color(fg: Color, bg: Color) returns (n: nat)
      modifies this
      ensures out == old(out) + Encode(Command.Fg(fg)) + Encode(Command.Bg(bg)) && flushed == old(flushed)
      ensures n == |Encode(Command.Fg(fg))| + |Encode(Command.Bg(bg))|
    {
      var f := FgColor(fg);
      var b := BgColor(bg);
      n := f + b;
    }

    method Reset() returns (n: nat)
      modifies this
      ensures out == old(out) + Encode(Command.Reset) && flushed == old(flushed)
      ensures n == |Encode(Command.Reset)|
    {
      n := Csi("m");
    }
  }
}
