/** The VGA text console of vga.c. */
module Console {
  import opened Words
  import opened CStrings
  import opened Terminal
  import opened Ansi
  import opened Numbers
  import MemOps
  import NumberLoops

  /** The 16-bit cell that vga_clear and vga_scroll fill with. */
  function BlankCell(attr: Byte): (c: int)
    ensures 0 <= c < 0x1_0000
  {
    attr * 0x100 + 32
  }

  lemma SameParity(k: int, dest: int)
    requires dest % 4 == 0
    ensures (k - dest) % 2 == k % 2
  {
  }

  lemma BlankFill(attr: Byte, size: nat, k: nat)
    requires size % 4 == 0 && k < size
    ensures MemOps.FillByte(MemOps.Twice(BlankCell(attr)), size, k) == if k % 2 == 0 then 32 else attr
  {
    assert BlankCell(attr) % 0x100 == 32 && BlankCell(attr) / 0x100 == attr && size / 4 * 4 == size;
    hide MemOps.FillByte, MemOps.Twice, BlankCell;
    MemOps.TwiceAt(BlankCell(attr), size, k);
  }

  lemma FillBlanks(fb: seq<Byte>, dest: nat, size: nat, attr: Byte)
    requires dest + size == |fb| && dest % 4 == 0 && size % 4 == 0
    ensures var r := MemOps.Filled(fb, dest, MemOps.Twice(BlankCell(attr)), size);
            (forall k :: 0 <= k < dest ==> r[k] == fb[k])
            && forall k :: dest <= k < |fb| ==> r[k] == if k % 2 == 0 then 32 else attr
  {
    hide MemOps.Filled, MemOps.Twice, MemOps.FillByte, BlankCell;
    var r := MemOps.Filled(fb, dest, MemOps.Twice(BlankCell(attr)), size);
    forall k | dest <= k < |fb| ensures r[k] == if k % 2 == 0 then 32 else attr {
      BlankFill(attr, size, k - dest);
      SameParity(k, dest);
    }
  }

  lemma ScrollCopies(fb: seq<Byte>, attr: Byte)
    requires |fb| == Off(0, H)
    ensures var up := MemOps.Copied(fb, 0, Off(0, 1), Off(0, H - 1));
            && |up| == |fb|
            && Scrolled(fb, MemOps.Filled(up, Off(0, H - 1), MemOps.Twice(BlankCell(attr)), Off(0, 1)), attr)
  {
    MemOps.ToleratedCopies(fb, 0, Off(0, 1), Off(0, H - 1));
    var up := MemOps.Move(fb, 0, Off(0, 1), Off(0, H - 1));
    FillBlanks(up, Off(0, H - 1), Off(0, 1), attr);
  }

  /** What the look-ahead at an escape reads, and that it decides what Closes says. */
  lemma LooksAt(buf: seq<Byte>, s: seq<Byte>, k: nat)
    requires 0 in buf && s == CStr(buf) && LookAhead(s) && k < |s| && s[k] == 27
    ensures |s| < |buf| && k + 1 < |buf| && (buf[k + 1] == 91 <==> Opens(s[k..]))
    ensures Opens(s[k..]) ==>
      && k + 3 < |buf| && (buf[k + 3] != 109 ==> k + 4 < |buf|)
      && (buf[k + 3] != 109 && buf[k + 4] != 109 ==> k + 5 < |buf|)
      && ((buf[k + 3] == 109 || buf[k + 4] == 109 || buf[k + 5] == 109) <==> Closes(s[k..]))
  {
    FirstZero(buf);
  }

  lemma LexAt(s: seq<Byte>, i: nat, t: Term, p: Pen, base: Pen)
    requires i < |s| && WF(t)
    ensures var u := s[i..];
            if Opens(u) && Closes(u) then
              i + 3 + |Code(u)| <= |s|
              && Apply(Lex(u), t, p, base)
                 == Apply(Lex(s[i + 3 + |Code(u)|..]), t, Recolour(p, base, AToL(Code(u))), base)
            else if s[i] == 27 then Apply(Lex(u), t, p, base) == Apply(Lex(s[i + 1..]), t, p, base)
            else Apply(Lex(u), t, p, base) == Apply(Lex(s[i + 1..]), PutChar(t, s[i], p.Attr()), p, base)
  {
    var u := s[i..];
    LexStep(u);
    hide Lex, PutChar;
    assert u[1..] == s[i + 1..];
    if Opens(u) && Closes(u) {
      var rest := s[i + 3 + |Code(u)|..];
      assert u[3 + |Code(u)|..] == rest;
      assert ([Sgr(AToL(Code(u)))] + Lex(rest))[1..] == Lex(rest);
    } else if s[i] == 27 {
      assert [] + Lex(s[i + 1..]) == Lex(s[i + 1..]);
    } else {
      assert ([Ch(s[i])] + Lex(s[i + 1..]))[1..] == Lex(s[i + 1..]);
    }
  }

  lemma NothingApplies(s: seq<Byte>, i: nat, t: Term, p: Pen)
    requires i == |s| && WF(t)
    ensures forall q: Pen :: Apply(Lex(s[i..]), t, q, p) == t
  {
    assert Lex(s[i..]) == [];
  }

  /** The branches of vga_putc on the transcript; a tab is what writing four blanks does. */
  lemma PutCharCases(t: Term, c: Byte, p: Pen)
    requires WF(t)
    ensures c == 13 || c == 8 ==> PutChar(t, c, p.Attr()) == t
    ensures c == 10 ==> PutChar(t, c, p.Attr()) == Terminal.NewLine(t, p.Attr())
    ensures c == 9 ==> CStr([32, 32, 32, 32, 0]) == [32, 32, 32, 32] && LookAhead([32, 32, 32, 32])
                       && PutChar(t, c, p.Attr()) == Written([32, 32, 32, 32], t, p)
    ensures Printing(c) ==> PutChar(t, c, p.Attr()) == Put(t, Cell(c, p.Attr()))
  {
    if c == 9 {
      FourBlanks([32, 32, 32, 32], t, p);
      Terminated([32, 32, 32, 32], []);
      assert [32, 32, 32, 32] + [0] + [] == [32, 32, 32, 32, 0];
    } else if Printing(c) {
      OnePut(t, Cell(c, p.Attr()));
    }
  }

  lemma OnePut(t: Term, cell: Cell)
    requires WF(t)
    ensures PutAll(t, [cell]) == Put(t, cell)
  {
    assert [cell][..0] == [];
  }

  lemma PutMore(t: Term, cells: seq<Cell>, cell: Cell)
    requires WF(t)
    ensures PutAll(t, cells + [cell]) == Put(PutAll(t, cells), cell)
  {
    assert (cells + [cell])[..|cells|] == cells;
  }

  lemma BlankAt(s: seq<Byte>, i: nat, t: Term, p: Pen)
    requires i < |s| && s[i] == 32 && WF(t)
    ensures Apply(Lex(s[i..]), t, p, p) == Apply(Lex(s[i + 1..]), Put(t, Cell(32, p.Attr())), p, p)
  {
    LexAt(s, i, t, p, p);
    OnePut(t, Cell(32, p.Attr()));
    hide Lex, Apply, PutAll, Put;
  }

  lemma FourBlanks(s: seq<Byte>, t: Term, p: Pen)
    requires WF(t) && s == [32, 32, 32, 32]
    ensures Written(s, t, p) == PutAll(t, Glyphs(9, p.Attr()))
  {
    hide PutAll, Put, Lex, Apply;
    var b := Cell(32, p.Attr());
    FourPuts(t, b);
    assert s[0..] == s && s[0] == s[1] == s[2] == s[3] == 32;
    BlankAt(s, 0, t, p);
    BlankAt(s, 1, Put(t, b), p);
    BlankAt(s, 2, Put(Put(t, b), b), p);
    BlankAt(s, 3, Put(Put(Put(t, b), b), b), p);
    NothingApplies(s, 4, Put(Put(Put(Put(t, b), b), b), b), p);
  }

  lemma FourPuts(t: Term, b: Cell)
    requires WF(t)
    ensures PutAll(t, [b, b, b, b]) == Put(Put(Put(Put(t, b), b), b), b)
  {
    hide PutAll, Put;
    OnePut(t, b);
    PutMore(t, [b], b);
    PutMore(t, [b, b], b);
    PutMore(t, [b, b, b], b);
    assert [b] + [b] == [b, b] && [b, b] + [b] == [b, b, b] && [b, b, b] + [b] == [b, b, b, b];
  }

  /** What is left to write at position `i` leads to `final`. */
  ghost predicate Pending(s: seq<Byte>, i: nat, t: Term, p: Pen, base: Pen, final: Term)
  {
    i <= |s| && WF(t) && Apply(Lex(s[i..]), t, p, base) == final
  }

  lemma PendingStart(s: seq<Byte>, t: Term, p: Pen)
    requires WF(t)
    ensures Pending(s, 0, t, p, p, Written(s, t, p))
  {
    assert s[0..] == s;
  }

  lemma PendingEnd(s: seq<Byte>, t: Term, p: Pen, base: Pen, final: Term)
    requires Pending(s, |s|, t, p, base, final)
    ensures t == final
  {
    NothingApplies(s, |s|, t, base);
  }

  lemma PendingChar(s: seq<Byte>, i: nat, t: Term, p: Pen, base: Pen, final: Term)
    requires Pending(s, i, t, p, base, final) && i < |s| && s[i] != 27
    ensures Pending(s, i + 1, PutChar(t, s[i], p.Attr()), p, base, final)
  {
    LexAt(s, i, t, p, base);
    hide Lex, Apply, PutChar;
  }

  /** Where the writer goes on after an escape, and with which colours. */
  function AfterEscape(s: seq<Byte>, i: nat, p: Pen, base: Pen): (int, Pen)
    requires i < |s|
  {
    var u := s[i..];
    if Opens(u) && Closes(u) then (i + 3 + |Code(u)|, Recolour(p, base, AToL(Code(u)))) else (i + 1, p)
  }

  lemma PendingEscape(s: seq<Byte>, i: nat, t: Term, p: Pen, base: Pen, final: Term)
    requires Pending(s, i, t, p, base, final) && i < |s| && s[i] == 27
    ensures var (j, q) := AfterEscape(s, i, p, base); i < j <= |s| && Pending(s, j, t, q, base, final)
  {
    hide Lex, Apply, Recolour, AToL, Closes, Code;
    LexAt(s, i, t, p, base);
  }

  class Vga {
    const fb: array<Byte>
    var running: bool
    var cx: int
    var cy: int
    var fg: Colour
    var bg: Colour
    /** Everything written since the screen was last cleared. */
    ghost var term: Term

    /** The screen shows the transcript, and the cursor is on its last line. */
    ghost predicate Showing()
      reads this, fb
    {
      && fb.Length == Off(0, H)
      && (running ==> |term.lines| > 0 && Fits(term) && cy == Row(term) && Shows(fb[..], term))
    }

    ghost predicate Valid()
      reads this, fb
    {
      Showing() && (running ==> WF(term) && cx == Column(term))
    }

    function Now(): Pen
      reads this
    {
      Pen(fg, bg)
    }

    /** vga_init, up to the clearing that starting the device does. */
    constructor (mem: array<Byte>)
      requires mem.Length == Off(0, H)
      modifies mem
      ensures fb == mem && running && Valid() && term == Blank(15) && Now() == Pen(15, 0)
    {
      fb := mem;
      running := true;
      cx, cy := 0, 0;
      fg, bg := 15, 0;
      term := Blank(15);
      new;
      Clear(0);
    }

    /** vga_setpos, into 16-bit fields. */
    method SetPos(x: int, y: int)
      modifies this`cx, this`cy
      ensures cx == (if running then U16(x) else old(cx)) && cy == if running then U16(y) else old(cy)
    {
      if !running { return; }
      cx := U16(x);
      cy := U16(y);
    }

    /** vga_clear starts a new transcript. */
    method Clear(colour: Colour)
      requires fb.Length == Off(0, H)
      modifies this`bg, this`cx, this`cy, this`term, fb
      ensures Valid()
      ensures running ==> term == Blank(Pen(fg, colour).Attr()) && bg == colour && cx == cy == 0
      ensures running ==> forall k :: 0 <= k < 4000 ==> fb[k] == if k % 2 == 0 then 32 else 16 * colour + fg
      ensures !running ==> bg == old(bg) && fb[..] == old(fb[..]) && term == old(term) && cx == old(cx) && cy == old(cy)
    {
      if !running { return; }
      bg := colour;
      ghost var was := fb[..];
      MemOps.MemSet(fb, 0, MemOps.Twice(BlankCell(Now().Attr())), Off(0, H));
      FillBlanks(was, 0, Off(0, H), Now().Attr());
      BlankShows(fb[..], Now().Attr());
      term := Blank(Now().Attr());
      SetPos(0, 0);
    }

    /** vga_drawchar: off the screen, nothing is drawn. */
    method DrawChar(x: int, y: int, c: Byte, pen: Pen)
      requires fb.Length == Off(0, H)
      modifies fb
      ensures fb[..] == if running && 0 <= x < W && 0 <= y < H then Drawn(old(fb[..]), x, y, Cell(c, pen.Attr()))
                        else old(fb[..])
      ensures running && 0 <= x < 80 && 0 <= y < 25 ==>
        fb[160 * y + 2 * x] == c && fb[160 * y + 2 * x + 1] == 16 * pen.bg + pen.fg
    {
      if !running { return; }
      if x < 0 || x >= W || y < 0 || y >= H { return; }
      var offset := (y * W + x) * 2;
      fb[offset] := c;
      fb[offset + 1] := pen.Attr();
    }

    /** vga_scroll. */
    method Scroll()
      requires fb.Length == Off(0, H)
      modifies this`cx, this`cy, fb
      ensures running ==> Scrolled(old(fb[..]), fb[..], Now().Attr()) && cx == 0 && cy == H - 1
      ensures running ==> forall k :: 0 <= k < 3840 ==> fb[k] == old(fb[..])[k + 160]
      ensures running ==> forall k :: 3840 <= k < 4000 ==> fb[k] == if k % 2 == 0 then 32 else 16 * bg + fg
      ensures !running ==> fb[..] == old(fb[..]) && cx == old(cx) && cy == old(cy)
    {
      if !running { return; }
      var line, size := W * 2, W * H * 2;
      ScrollCopies(fb[..], Now().Attr());
      MemOps.MemCpy(fb, 0, line, size - line);
      MemOps.MemSet16(fb, size - line, BlankCell(Now().Attr()), line);
      SetPos(0, H - 1);
    }

    /** vga_newline, which vga_putc also calls with the cursor just past a full line. */
    method NewLine()
      requires Showing()
      modifies this`cx, this`cy, this`term, fb
      ensures Valid()
      ensures term == if running then Terminal.NewLine(old(term), Now().Attr()) else old(term)
      ensures !running ==> fb[..] == old(fb[..]) && cx == old(cx) && cy == old(cy)
    {
      if !running { return; }
      hide Shows, Scrolled;
      ghost var attr := Now().Attr();
      SetPos(0, cy + 1);
      if cy >= H {
        ghost var was := fb[..];
        Scroll();
        ScrollShows(was, fb[..], term, attr);
      } else {
        NewLineShows(fb[..], term, attr);
      }
      term := Terminal.NewLine(term, attr);
    }

    /** vga_delete: one step back in reading order and a blank there; nothing at the top left. */
    method Delete()
      requires Valid()
      modifies this`cx, this`cy, fb
      ensures !running || (old(cx) == 0 && old(cy) == 0) ==> fb[..] == old(fb[..]) && cx == old(cx) && cy == old(cy)
      ensures running && (old(cx) > 0 || old(cy) > 0) ==>
        && (cx, cy) == Back(old(cx), old(cy)) && 0 <= cx < W && 0 <= cy < H
        && fb[..] == Drawn(old(fb[..]), cx, cy, Cell(32, Now().Attr()))
    {
      if !running { return; }
      if cx > 0 {
        SetPos(cx - 1, cy);
        DrawChar(cx, cy, 32, Now());
      } else if cy > 0 {
        SetPos(W - 1, cy - 1);
        DrawChar(cx, cy, 32, Now());
      }
    }

    /** The last branch of vga_putc. */
    method PutPrinting(c: Byte)
      requires Valid() && running
      modifies this`cx, this`cy, this`term, fb
      ensures Valid() && WF(old(term)) && term == Put(old(term), Cell(c, Now().Attr()))
    {
      ghost var cell := Cell(c, Now().Attr());
      DrawShows(fb[..], term, cell);
      hide Shows, Drawn;
      DrawChar(cx, cy, c, Now());
      SetPos(cx + 1, cy);
      term := Extend(term, cell);
      if cx >= W { NewLine(); }
    }

    /** vga_putc. */
    method PutC(c: Byte)
      requires Valid()
      modifies this`cx, this`cy, this`fg, this`bg, this`term, fb
      ensures Valid() && Now() == old(Now())
      ensures running ==> WF(old(term)) && term == PutChar(old(term), c, Now().Attr())
      ensures !running ==> term == old(term) && fb[..] == old(fb[..]) && cx == old(cx) && cy == old(cy)
      decreases if c == 9 then 3 else 1
    {
      if !running { return; }
      PutCharCases(term, c, Now());
      if c == 13 || c == 8 { return; }
      if c == 10 {
        NewLine();
      } else if c == 9 {
        Write([32, 32, 32, 32, 0]);
      } else {
        PutPrinting(c);
      }
    }

    /** vga_write: the colours on exit are those on entry. */
    method Write(buf: seq<Byte>)
      requires Valid()
      requires 0 in buf && LookAhead(CStr(buf))
      modifies this`cx, this`cy, this`fg, this`bg, this`term, fb
      ensures Valid() && Now() == old(Now())
      ensures running ==> WF(old(term)) && term == Written(CStr(buf), old(term), Now())
      ensures !running ==> term == old(term) && fb[..] == old(fb[..]) && cx == old(cx) && cy == old(cy)
      decreases if 9 in buf then 4 else 2
    {
      var len := StrLen(buf);
      ghost var s := CStr(buf);
      if !running || len == 0 { return; }
      FirstZero(buf);
      hide Pending, PutChar, AfterEscape, Written;
      ghost var final := Written(s, term, Now());
      var base := Now();
      var i := 0;
      PendingStart(s, term, base);
      while buf[i] != 0
        invariant i <= |s| && Valid() && running && Pending(s, i, term, Now(), base, final)
        decreases |s| - i
      {
        if buf[i] == 27 {
          PendingEscape(s, i, term, Now(), base, final);
          i := Escape(buf, s, i, base);
        } else {
          PendingChar(s, i, term, Now(), base, final);
          PutC(buf[i]);
          i := i + 1;
        }
      }
      PendingEnd(s, term, Now(), base, final);
      fg, bg := base.fg, base.bg;
    }

    /** The escape branch of vga_write. */
    method Escape(buf: seq<Byte>, ghost s: seq<Byte>, at: nat, base: Pen) returns (i: nat)
      requires 0 in buf && s == CStr(buf) && LookAhead(s) && at < |s| && s[at] == 27
      modifies this`fg, this`bg
      ensures (i, Now()) == AfterEscape(s, at, old(Now()), base)
    {
      LooksAt(buf, s, at);
      hide AToL, Closes, CStr, LookAhead;
      i := at + 1;
      if buf[i] == 91 && (buf[i + 2] == 109 || buf[i + 3] == 109 || buf[i + 4] == 109) {
        var c: Word;
        c, i := ReadCode(buf, s, i + 1);
        if c == 0 {
          fg, bg := base.fg, base.bg;
        } else if 30 <= c <= 37 || 90 <= c <= 97 {
          fg := Foreground(c, base.fg);
        } else if 40 <= c <= 47 || 100 <= c <= 107 {
          bg := Background(c, base.bg);
        }
      }
    }
  }

  /** The code of an escape sequence, read into a zeroed buffer of four bytes that it never overruns. */
  method ReadCode(buf: seq<Byte>, ghost s: seq<Byte>, at: nat) returns (c: Word, i: nat)
    requires 0 in buf && s == CStr(buf) && 2 <= at <= |s| && Opens(s[at - 2..]) && Closes(s[at - 2..])
    ensures c == AToL(Code(s[at - 2..])) && i == at + |Code(s[at - 2..])| + 1
  {
    ghost var code := Code(s[at - 2..]);
    CodeAt(buf, s, at);
    PaddedCode(code);
    hide Code, CStr, AToL, Closes;
    var text := new Byte[4](_ => 0);
    var j := 0;
    i := at;
    while buf[i] != 109
      invariant i == at + j && j <= |code|
      invariant forall k :: 0 <= k < 4 ==> text[k] == if k < j then code[k] else 0
      decreases |code| - j
    {
      text[j] := buf[i];
      j := j + 1;
      i := i + 1;
    }
    i := i + 1;
    assert text[..] == Padded(code);
    c := NumberLoops.AToLRead(text[..]);
  }

  /** A code in a zeroed buffer of four bytes. */
  function Padded(code: seq<Byte>): (r: seq<Byte>)
    ensures |r| == 4 && forall k :: 0 <= k < 4 ==> r[k] == if k < |code| then code[k] else 0
  {
    seq<Byte>(4, k requires 0 <= k < 4 => if k < |code| then code[k] else 0)
  }

  lemma PaddedCode(code: seq<Byte>)
    requires |code| <= 3 && NoNul(code)
    ensures 0 in Padded(code) && CStr(Padded(code)) == code
  {
    var tail := Padded(code)[|code| + 1..];
    Terminated(code, tail);
    assert code + [0] + tail == Padded(code);
    assert Padded(code)[|code|] == 0;
  }

  lemma CodeAt(buf: seq<Byte>, s: seq<Byte>, at: nat)
    requires 0 in buf && s == CStr(buf) && 2 <= at <= |s| && Opens(s[at - 2..]) && Closes(s[at - 2..])
    ensures var code := Code(s[at - 2..]);
            |code| <= 3 && at + |code| < |buf| && buf[at + |code|] == 109 && NoNul(code)
            && (forall j :: 0 <= j < |code| ==> buf[at + j] == code[j])
            && (forall q :: at <= q < at + |code| ==> buf[q] != 109)
  {
    FirstZero(buf);
    CodeFits(s[at - 2..]);
    var code := Code(s[at - 2..]);
    forall q | at <= q < at + |code| ensures s[q] == code[q - at] != 109 { assert code[q - at] in code; }
  }
}
