/** Escape sequences: how vga_write reads a string, and the colours of ansi.c. */
module Ansi {
  import opened Words
  import opened Terminal
  import opened Numbers
  import StrSplit

  type Colour = x: int | 0 <= x < 16

  datatype Pen = Pen(fg: Colour, bg: Colour) {
    /** vga_pack. */
    function Attr(): Byte { 16 * bg + fg }
  }

  /** What vga_write sees in a string: characters, and colour codes. An escape that starts no sequence is dropped. */
  datatype Tok = Ch(c: Byte) | Sgr(code: Word)

  /** The look-ahead of vga_write after ESC [ : an 'm' two, three or four places on. */
  predicate Closes(s: seq<Byte>)
  {
    (|s| > 3 && s[3] == 109) || (|s| > 4 && s[4] == 109) || (|s| > 5 && s[5] == 109)
  }

  predicate Opens(s: seq<Byte>) { |s| > 1 && s[0] == 27 && s[1] == 91 }

  /** The characters between ESC [ and the first 'm'. */
  function Code(s: seq<Byte>): (code: seq<Byte>)
    requires Opens(s)
  {
    s[2..2 + StrSplit.Cut(s[2..], 109)]
  }

  lemma CodeFits(s: seq<Byte>)
    requires Opens(s) && Closes(s)
    ensures |Code(s)| <= 3 && 3 + |Code(s)| <= |s| && s[2 + |Code(s)|] == 109 && 109 !in Code(s)
  {
    var t := s[2..];
    var k := StrSplit.Cut(t, 109);
    var j := if |s| > 3 && s[3] == 109 then 1 else if |s| > 4 && s[4] == 109 then 2 else 3;
    assert t[j] == 109 && t[..k] == Code(s);
    forall i | 0 <= i < k ensures t[i] != 109 { assert t[..k][i] in t[..k]; }
  }

  function Lex(s: seq<Byte>): seq<Tok>
    decreases |s|
  {
    if s == [] then []
    else if Opens(s) && Closes(s) then CodeFits(s); [Sgr(AToL(Code(s)))] + Lex(s[3 + |Code(s)|..])
    else (if s[0] == 27 then [] else [Ch(s[0])]) + Lex(s[1..])
  }

  lemma LexStep(s: seq<Byte>)
    requires s != []
    ensures Opens(s) && Closes(s) ==> |Code(s)| <= 3 && 3 + |Code(s)| <= |s| && s[2 + |Code(s)|] == 109
    ensures Opens(s) && Closes(s) ==> Lex(s) == [Sgr(AToL(Code(s)))] + Lex(s[3 + |Code(s)|..])
    ensures !(Opens(s) && Closes(s)) ==> Lex(s) == (if s[0] == 27 then [] else [Ch(s[0])]) + Lex(s[1..])
  {
    if Opens(s) && Closes(s) { CodeFits(s); }
  }

  /** An escape that starts no sequence is dropped, and the bracket after it displayed. */
  lemma LoneEscape(rest: seq<Byte>)
    ensures rest == [] || rest[0] != 91 ==> Lex([27] + rest) == Lex(rest)
    ensures (forall k :: 1 < k < 5 && k < |rest| ==> rest[k] != 109) && rest != [] && rest[0] == 91 ==>
      Lex([27] + rest) == [Ch(91)] + Lex(rest[1..])
  {
    LexStep([27] + rest);
    assert ([27] + rest)[1..] == rest;
    if rest != [] { LexStep(rest); }
    hide Lex;
    assert [] + Lex(rest) == Lex(rest);
  }

  // ---------------------------------------------------------------- colours

  /** ansi_fg_to_vga. */
  function Foreground(code: Word, other: Colour): Colour
  {
    match code
    case 30 => 0 case 31 => 4 case 32 => 2 case 33 => 6 case 34 => 1 case 35 => 5 case 36 => 3 case 37 => 15
    case 90 => 7 case 91 => 12 case 92 => 10 case 93 => 14 case 94 => 9 case 95 => 13 case 96 => 11 case 97 => 15
    case _ => other
  }

  /** ansi_bg_to_vga. */
  function Background(code: Word, other: Colour): Colour
  {
    match code
    case 40 => 0 case 41 => 4 case 42 => 2 case 43 => 6 case 44 => 1 case 45 => 5 case 46 => 3 case 47 => 15
    case 100 => 7 case 101 => 12 case 102 => 10 case 103 => 14
    case 104 => 9 case 105 => 13 case 106 => 11 case 107 => 15
    case _ => other
  }

  /** The palette numbers colours with blue as the low bit, the codes with red; the bright half follows the dark one. The
      exceptions: 37 gives the bright white, and 90 the dark gray that 37 would have been. Backgrounds are ten above. */
  lemma Palette(k: nat, other: Colour)
    requires k < 8
    ensures var hue := 4 * (k % 2) + 2 * (k / 2 % 2) + k / 4;
      && Foreground(30 + k, other) == Background(40 + k, other) == (if k == 7 then 15 else hue)
      && Foreground(90 + k, other) == Background(100 + k, other) == (if k == 0 then 7 else 8 + hue)
  {
  }

  /** Each code changes the foreground, the background, both back to the entry colours, or nothing. */
  lemma RecolourTouches(p: Pen, base: Pen, code: Word)
    ensures var q := Recolour(p, base, code);
      if code == 0 then q == base
      else if 30 <= code < 38 || 90 <= code < 98 then q.bg == p.bg && q.fg == Foreground(code, 0)
      else if 40 <= code < 48 || 100 <= code < 108 then q.fg == p.fg && q.bg == Background(code, 0)
      else q == p
  {
  }

  function Recolour(p: Pen, base: Pen, code: Word): Pen
  {
    if code == 0 then base
    else if 30 <= code <= 37 || 90 <= code <= 97 then p.(fg := Foreground(code, base.fg))
    else if 40 <= code <= 47 || 100 <= code <= 107 then p.(bg := Background(code, base.bg))
    else p
  }

  // ---------------------------------------------------------------- meaning

  /** The transcript after a token list, started with pen `p` in a write that was entered with pen `base`. */
  function Apply(toks: seq<Tok>, t: Term, p: Pen, base: Pen): (r: Term)
    requires WF(t)
    ensures WF(r)
  {
    if toks == [] then t
    else match toks[0]
      case Ch(c) => Apply(toks[1..], PutChar(t, c, p.Attr()), p, base)
      case Sgr(code) => Apply(toks[1..], t, Recolour(p, base, code), base)
  }

  /** vga_write on the transcript. */
  function Written(s: seq<Byte>, t: Term, p: Pen): (r: Term)
    requires WF(t)
    ensures WF(r)
  {
    Apply(Lex(s), t, p, p)
  }

  /** The pen after a token list. */
  function PenAfter(toks: seq<Tok>, p: Pen, base: Pen): Pen
  {
    if toks == [] then p
    else PenAfter(toks[1..], match toks[0] case Ch(_) => p case Sgr(code) => Recolour(p, base, code), base)
  }

  /** The cells a token list displays, coloured by the sequences before each of them. */
  function Cells(toks: seq<Tok>, p: Pen, base: Pen): seq<Cell>
  {
    if toks == [] then []
    else Cells(toks[..|toks| - 1], p, base) + match toks[|toks| - 1]
      case Ch(c) => Glyphs(c, PenAfter(toks[..|toks| - 1], p, base).Attr())
      case Sgr(_) => []
  }

  lemma {:induction false} PenStep(a: seq<Tok>, k: Tok, p: Pen, base: Pen)
    ensures PenAfter(a + [k], p, base) ==
            match k case Ch(_) => PenAfter(a, p, base) case Sgr(code) => Recolour(PenAfter(a, p, base), base, code)
  {
    if a == [] {
      assert (a + [k])[1..] == [];
    } else {
      assert (a + [k])[1..] == a[1..] + [k];
      PenStep(a[1..], k, match a[0] case Ch(_) => p case Sgr(code) => Recolour(p, base, code), base);
    }
  }

  lemma {:induction false} ApplyStep(a: seq<Tok>, k: Tok, t: Term, p: Pen, base: Pen)
    requires WF(t)
    ensures Apply(a + [k], t, p, base) == match k
              case Ch(c) => PutChar(Apply(a, t, p, base), c, PenAfter(a, p, base).Attr())
              case Sgr(_) => Apply(a, t, p, base)
  {
    hide PutChar, Recolour;
    if a == [] {
      assert (a + [k])[1..] == [];
    } else {
      assert (a + [k])[1..] == a[1..] + [k];
      match a[0]
      case Ch(c) => ApplyStep(a[1..], k, PutChar(t, c, p.Attr()), p, base);
      case Sgr(code) => ApplyStep(a[1..], k, t, Recolour(p, base, code), base);
    }
  }

  /** A write adds to the transcript exactly the text outside its sequences, each cell in the colours of the sequences
      before it. */
  lemma {:induction false} WriteDisplays(toks: seq<Tok>, t: Term, p: Pen, base: Pen)
    requires WF(t)
    ensures Flat(Apply(toks, t, p, base).lines) == Flat(t.lines) + Cells(toks, p, base)
  {
    if toks != [] {
      var n := |toks| - 1;
      var a, k := toks[..n], toks[n];
      assert toks == a + [k];
      WriteDisplays(a, t, p, base);
      ApplyStep(a, k, t, p, base);
      if k.Ch? { FlatPutChar(Apply(a, t, p, base), k.c, PenAfter(a, p, base).Attr()); }
      hide Apply, PenAfter, PutChar, Flat, Glyphs;
    }
  }

  lemma GrowsTrans(t: Term, u: Term, v: Term)
    requires |t.lines| > 0 && |u.lines| > 0 && Grows(t, u) && Grows(u, v)
    ensures Grows(t, v)
  {
    var n := |t.lines| - 1;
    assert n < |u.lines| - 1 ==> v.lines[n] == u.lines[n];
  }

  /** No write moves or changes anything written before it. */
  lemma {:induction false} WriteGrows(toks: seq<Tok>, t: Term, p: Pen, base: Pen)
    requires WF(t)
    ensures Grows(t, Apply(toks, t, p, base))
  {
    if toks != [] {
      var n := |toks| - 1;
      var a, k := toks[..n], toks[n];
      assert toks == a + [k];
      WriteGrows(a, t, p, base);
      ApplyStep(a, k, t, p, base);
      hide Apply, PenAfter, PutChar;
      if k.Ch? {
        var u := Apply(a, t, p, base);
        PutCharGrows(u, k.c, PenAfter(a, p, base).Attr());
        GrowsTrans(t, u, Apply(toks, t, p, base));
      }
    }
  }

  // ---------------------------------------------------------------- strings of complete sequences

  /** A piece of such a string: a character, or a colour sequence with the digits between ESC [ and m. */
  datatype Piece = Plain(c: Byte) | Sequence(digits: seq<Byte>)

  /** A character other than escape and the terminator, or one to three decimal digits. */
  predicate Proper(p: Piece)
  {
    match p
    case Plain(c) => c != 27 && c != 0
    case Sequence(digits) => 0 < |digits| <= 3 && forall k :: 0 <= k < |digits| ==> IsDec(digits[k])
  }

  ghost predicate AllProper(ps: seq<Piece>) { forall k :: 0 <= k < |ps| ==> Proper(ps[k]) }

  function Encode1(p: Piece): seq<Byte>
  {
    match p case Plain(c) => [c] case Sequence(digits) => [27, 91] + digits + [109]
  }

  function Encode(ps: seq<Piece>): seq<Byte>
  {
    if ps == [] then [] else Encode1(ps[0]) + Encode(ps[1..])
  }

  lemma SmallCode(digits: seq<Byte>)
    requires Proper(Sequence(digits))
    ensures 0 <= Positional(digits, 10) < 1000 && AToL(digits) == Positional(digits, 10) && 109 !in digits
  {
    ThreeDigitsDenote(digits);
    DigitsRead(digits);
    assert forall k :: 0 <= k < |digits| ==> IsDec(digits[k]);
  }

  /** What a piece means: its character, or the number its digits denote. */
  ghost function Meaning(p: Piece): Tok
    requires Proper(p)
  {
    match p
    case Plain(c) => Ch(c)
    case Sequence(digits) => SmallCode(digits); Sgr(Positional(digits, 10))
  }

  ghost function Meanings(ps: seq<Piece>): seq<Tok>
    requires AllProper(ps)
  {
    if ps == [] then [] else [Meaning(ps[0])] + Meanings(ps[1..])
  }

  lemma SequenceReads(d: seq<Byte>, rest: seq<Byte>)
    requires 0 < |d| <= 3 && 109 !in d
    ensures var s := [27, 91] + d + [109] + rest;
            Opens(s) && Closes(s) && Code(s) == d && s[3 + |d|..] == rest
  {
    var s := [27, 91] + d + [109] + rest;
    assert s[2..] == d + [109] + rest;
    StrSplit.CutIs(d, rest, 109);
    assert s[2 + |d|] == 109;
  }

  /** Reading back a string of characters and complete colour sequences gives those characters and codes. */
  lemma {:induction false} LexEncode(ps: seq<Piece>)
    requires AllProper(ps)
    ensures Lex(Encode(ps)) == Meanings(ps)
  {
    if ps != [] {
      LexEncode(ps[1..]);
      LexEncode1(ps[0], Encode(ps[1..]));
      hide Lex, Encode1, Meaning;
    }
  }

  /** The look-ahead after every ESC [ stays inside the string, its terminator included. */
  predicate LookAhead(s: seq<Byte>)
  {
    forall k :: 0 <= k < |s| && Opens(s[k..]) ==> k + 5 <= |s| || Closes(s[k..])
  }

  lemma LooksAhead(e: seq<Byte>, rest: seq<Byte>)
    requires LookAhead(rest) && forall k :: 0 <= k < |e| && Opens((e + rest)[k..]) ==> Closes((e + rest)[k..])
    ensures LookAhead(e + rest)
  {
    var s := e + rest;
    hide Opens, Closes;
    forall k | 0 <= k < |s| && Opens(s[k..]) ensures k + 5 <= |s| || Closes(s[k..]) {
      if k >= |e| { assert s[k..] == rest[k - |e|..]; }
    }
  }

  lemma EncodeLooks1(p: Piece, rest: seq<Byte>)
    requires Proper(p) && LookAhead(rest)
    ensures LookAhead(Encode1(p) + rest)
  {
    match p
    case Plain(c) =>
      LooksAhead([c], rest);
    case Sequence(d) =>
      SmallCode(d);
      SequenceReads(d, rest);
      var e := [27, 91] + d + [109];
      assert (e + rest)[0..] == e + rest;
      forall j | 0 < j < |e| ensures (e + rest)[j] != 27 {
        assert 2 <= j < 2 + |d| ==> e[j] == d[j - 2];
      }
      LooksAhead(e, rest);
  }

  /** Strings of complete sequences are strings vga_write can read without leaving them. */
  lemma {:induction false} EncodeLooks(ps: seq<Piece>)
    requires AllProper(ps)
    ensures LookAhead(Encode(ps))
  {
    if ps != [] {
      EncodeLooks(ps[1..]);
      EncodeLooks1(ps[0], Encode(ps[1..]));
      hide LookAhead, Encode1;
    }
  }

  lemma LexEncode1(p: Piece, rest: seq<Byte>)
    requires Proper(p)
    ensures Lex(Encode1(p) + rest) == [Meaning(p)] + Lex(rest)
  {
    var s := Encode1(p) + rest;
    LexStep(s);
    match p
    case Plain(c) =>
      assert s[1..] == rest;
    case Sequence(d) =>
      SmallCode(d);
      SequenceReads(d, rest);
      assert s == [27, 91] + d + [109] + rest;
  }

  /** A reset brings back the colours the write was entered with. */
  lemma ResetRestores(toks: seq<Tok>, p: Pen, base: Pen)
    ensures PenAfter(toks + [Sgr(0)], p, base) == base
  {
    PenStep(toks, Sgr(0), p, base);
  }

  function Chars(cells: seq<Cell>): seq<Byte>
  {
    seq(|cells|, k requires 0 <= k < |cells| => cells[k].ch)
  }

  /** The characters of a text that are displayed: tabs as four blanks, the other controls not at all. */
  function Displayed(text: seq<Byte>): seq<Byte>
  {
    if text == [] then [] else Displayed(text[..|text| - 1]) + Visible(text[|text| - 1])
  }

  function Visible(c: Byte): seq<Byte>
  {
    if c == 9 then [32, 32, 32, 32] else if c == 8 || c == 10 || c == 13 then [] else [c]
  }

  predicate Control(c: Byte) { c == 8 || c == 9 || c == 10 || c == 13 }

  /** A text without those four controls is displayed as it is. */
  lemma {:induction false} DisplayedAsIs(text: seq<Byte>)
    requires forall k :: 0 <= k < |text| ==> !Control(text[k])
    ensures Displayed(text) == text
    decreases |text|
  {
    if text != [] {
      var n := |text| - 1;
      DisplayedAsIs(text[..n]);
      assert text == text[..n] + [text[n]] && !Control(text[n]);
    }
  }

  /** The text outside the sequences. */
  function Text(toks: seq<Tok>): seq<Byte>
  {
    if toks == [] then [] else Text(toks[..|toks| - 1]) + Shown(toks[|toks| - 1])
  }

  lemma CellsStep(front: seq<Tok>, k: Tok, p: Pen, base: Pen)
    ensures Cells(front + [k], p, base)
            == Cells(front, p, base)
               + match k case Ch(c) => Glyphs(c, PenAfter(front, p, base).Attr()) case Sgr(_) => []
    ensures Cells([], p, base) == []
  {
    assert (front + [k])[..|front|] == front;
  }

  lemma CharsOfGlyphs(cells: seq<Cell>, c: Byte, attr: Byte)
    ensures Chars(cells + Glyphs(c, attr)) == Chars(cells) + Visible(c)
  {
    assert Chars(Glyphs(c, attr)) == Visible(c);
  }

  lemma DisplayedStep(text: seq<Byte>, c: Byte)
    ensures Displayed(text + [c]) == Displayed(text) + Visible(c) && Displayed([]) == []
  {
    assert (text + [c])[..|text|] == text;
  }

  lemma {:induction false} CellsText(toks: seq<Tok>, p: Pen, base: Pen)
    ensures Chars(Cells(toks, p, base)) == Displayed(Text(toks))
  {
    if toks != [] {
      var n := |toks| - 1;
      var front, k := toks[..n], toks[n];
      CellsText(front, p, base);
      CellsStep(front, k, p, base);
      TextStep(front, k);
      assert toks == front + [k];
      hide Cells, Text, Displayed, Chars, Glyphs;
      match k
      case Sgr(_) =>
        assert Text(front) + [] == Text(front) && Cells(front, p, base) + [] == Cells(front, p, base);
      case Ch(c) =>
        CharsOfGlyphs(Cells(front, p, base), c, PenAfter(front, p, base).Attr());
        DisplayedStep(Text(front), c);
    }
  }

  /** Writing a string of complete sequences displays its text and nothing of the sequences, each character in the
      colours of the sequences before it. */
  lemma EncodedDisplays(ps: seq<Piece>, t: Term, p: Pen)
    requires WF(t) && AllProper(ps)
    ensures Flat(Written(Encode(ps), t, p).lines) == Flat(t.lines) + Cells(Meanings(ps), p, p)
    ensures Chars(Cells(Meanings(ps), p, p)) == Displayed(PlainText(ps))
    ensures (forall k :: 0 <= k < |PlainText(ps)| ==> !Control(PlainText(ps)[k])) ==>
      Chars(Cells(Meanings(ps), p, p)) == PlainText(ps)
  {
    if forall k :: 0 <= k < |PlainText(ps)| ==> !Control(PlainText(ps)[k]) { DisplayedAsIs(PlainText(ps)); }
    hide Displayed;
    LexEncode(ps);
    WriteDisplays(Meanings(ps), t, p, p);
    CellsText(Meanings(ps), p, p);
    TextOfMeanings(ps);
  }

  /** The characters of a string outside its sequences. */
  function PlainText(ps: seq<Piece>): seq<Byte>
  {
    if ps == [] then [] else (match ps[0] case Plain(c) => [c] case Sequence(_) => []) + PlainText(ps[1..])
  }

  function Shown(k: Tok): seq<Byte> { match k case Ch(c) => [c] case Sgr(_) => [] }

  lemma TextStep(front: seq<Tok>, k: Tok)
    ensures Text(front + [k]) == Text(front) + Shown(k) && Text([]) == []
  {
    assert (front + [k])[..|front|] == front;
  }

  lemma {:induction false} TextFront(k: Tok, rest: seq<Tok>)
    ensures Text([k] + rest) == Shown(k) + Text(rest)
    decreases |rest|
  {
    hide Text, Shown;
    if rest == [] {
      TextStep([], k);
      assert [] + [k] == [k] && [k] + rest == [k];
    } else {
      var n := |rest| - 1;
      TextFront(k, rest[..n]);
      TextStep([k] + rest[..n], rest[n]);
      TextStep(rest[..n], rest[n]);
      assert rest == rest[..n] + [rest[n]] && [k] + rest == [k] + rest[..n] + [rest[n]];
    }
  }

  lemma {:induction false} TextOfMeanings(ps: seq<Piece>)
    requires AllProper(ps)
    ensures Text(Meanings(ps)) == PlainText(ps)
  {
    if ps != [] {
      TextOfMeanings(ps[1..]);
      TextFront(Meaning(ps[0]), Meanings(ps[1..]));
    }
  }
}
