/** The transcript a text console shows the end of: lines that are only ever added to. */
module Terminal {
  import opened Words

  const W: int := 80
  const H: int := 25

  datatype Cell = Cell(ch: Byte, attr: Byte)

  /** The cells written on a line, and the attribute of the blanks after them. */
  datatype Line = Line(cells: seq<Cell>, fill: Byte)

  /** The last line is being written; `cleared` is the attribute of the screen below it. */
  datatype Term = Term(lines: seq<Line>, cleared: Byte)

  predicate Fits(t: Term) { forall i :: 0 <= i < |t.lines| ==> |t.lines[i].cells| <= W }

  predicate WF(t: Term)
  {
    |t.lines| > 0 && Fits(t) && |t.lines[|t.lines| - 1].cells| < W
  }

  function Last(t: Term): Line
    requires |t.lines| > 0
  {
    t.lines[|t.lines| - 1]
  }

  function Column(t: Term): nat
    requires |t.lines| > 0
  {
    |Last(t).cells|
  }

  /** How many lines have scrolled away. */
  function Top(t: Term): nat { if |t.lines| > H then |t.lines| - H else 0 }

  function Row(t: Term): nat
    requires |t.lines| > 0
  {
    |t.lines| - 1 - Top(t)
  }

  function Blank(attr: Byte): (t: Term)
    ensures WF(t)
  {
    Term([Line([], attr)], attr)
  }

  /** A new line takes over a row of the cleared screen while there is one, and a scrolled row after that. */
  function NewLine(t: Term, attr: Byte): Term
  {
    t.(lines := t.lines + [Line([], if |t.lines| < H then t.cleared else attr)])
  }

  function Extend(t: Term, cell: Cell): Term
    requires |t.lines| > 0
  {
    t.(lines := t.lines[..|t.lines| - 1] + [Last(t).(cells := Last(t).cells + [cell])])
  }

  /** A character is stored at the end of the last line, and a full line is left. */
  function Put(t: Term, cell: Cell): (r: Term)
    requires WF(t)
    ensures WF(r)
  {
    var u := Extend(t, cell);
    if Column(u) >= W then NewLine(u, cell.attr) else u
  }

  function PutAll(t: Term, cells: seq<Cell>): (r: Term)
    requires WF(t)
    ensures WF(r)
  {
    if cells == [] then t else Put(PutAll(t, cells[..|cells| - 1]), cells[|cells| - 1])
  }

  predicate Printing(c: Byte) { c != 13 && c != 8 && c != 10 && c != 9 }

  /** The cells a character leaves: none for carriage return, backspace and newline, four blanks for a tab. */
  function Glyphs(c: Byte, attr: Byte): seq<Cell>
  {
    if Printing(c) then [Cell(c, attr)]
    else if c == 9 then [Cell(32, attr), Cell(32, attr), Cell(32, attr), Cell(32, attr)]
    else []
  }

  /** vga_putc on the transcript. */
  function PutChar(t: Term, c: Byte, attr: Byte): (r: Term)
    requires WF(t)
    ensures WF(r)
  {
    if c == 10 then NewLine(t, attr) else PutAll(t, Glyphs(c, attr))
  }

  // ---------------------------------------------------------------- what a transcript keeps

  /** Every cell ever written, in order. */
  function Flat(lines: seq<Line>): seq<Cell>
  {
    if lines == [] then [] else Flat(lines[..|lines| - 1]) + lines[|lines| - 1].cells
  }

  lemma FlatNewLine(t: Term, attr: Byte)
    ensures Flat(NewLine(t, attr).lines) == Flat(t.lines)
  {
    var u := NewLine(t, attr);
    assert u.lines[..|u.lines| - 1] == t.lines;
  }

  lemma FlatPut(t: Term, cell: Cell)
    requires WF(t)
    ensures Flat(Put(t, cell).lines) == Flat(t.lines) + [cell]
  {
    var u := Extend(t, cell);
    assert u.lines[..|u.lines| - 1] == t.lines[..|t.lines| - 1];
    FlatNewLine(u, cell.attr);
    hide NewLine;
    assert Flat(u.lines) == Flat(t.lines) + [cell];
  }

  lemma {:induction false} FlatPutAll(t: Term, cells: seq<Cell>)
    requires WF(t)
    ensures Flat(PutAll(t, cells).lines) == Flat(t.lines) + cells
  {
    if cells != [] {
      var n := |cells| - 1;
      FlatPutAll(t, cells[..n]);
      FlatPut(PutAll(t, cells[..n]), cells[n]);
      assert cells == cells[..n] + [cells[n]];
    }
  }

  /** A character adds exactly its glyphs to what was ever written. */
  lemma FlatPutChar(t: Term, c: Byte, attr: Byte)
    requires WF(t)
    ensures Flat(PutChar(t, c, attr).lines) == Flat(t.lines) + Glyphs(c, attr)
  {
    if c == 10 { FlatNewLine(t, attr); } else { FlatPutAll(t, Glyphs(c, attr)); }
  }

  /** Every character but backspace, tab, newline and carriage return is written as itself; a tab writes four blanks, a
      newline starts a line and writes nothing, and the other two do nothing at all. */
  lemma CharacterWritten(t: Term, c: Byte, attr: Byte)
    requires WF(t)
    ensures var u := PutChar(t, c, attr);
      && (c != 8 && c != 9 && c != 10 && c != 13 ==> Flat(u.lines) == Flat(t.lines) + [Cell(c, attr)])
      && (c == 9 ==>
            Flat(u.lines) == Flat(t.lines) + [Cell(32, attr), Cell(32, attr), Cell(32, attr), Cell(32, attr)])
      && (c == 10 ==> Flat(u.lines) == Flat(t.lines) && |u.lines| == |t.lines| + 1 && Column(u) == 0)
      && (c == 8 || c == 13 ==> u == t)
  {
    FlatPutChar(t, c, attr);
    hide Flat;
  }

  /** Nothing written before moves: earlier lines stay, and the last one is only added to. */
  ghost predicate Grows(t: Term, u: Term)
    requires |t.lines| > 0
  {
    && |t.lines| <= |u.lines| && t.cleared == u.cleared
    && (forall i :: 0 <= i < |t.lines| - 1 ==> u.lines[i] == t.lines[i])
    && Last(t).cells <= u.lines[|t.lines| - 1].cells && Last(t).fill == u.lines[|t.lines| - 1].fill
  }

  lemma {:induction false} PutAllGrows(t: Term, cells: seq<Cell>)
    requires WF(t)
    ensures Grows(t, PutAll(t, cells))
  {
    if cells != [] {
      PutAllGrows(t, cells[..|cells| - 1]);
      PlaceStep(PutAll(t, cells[..|cells| - 1]), cells[|cells| - 1]);
      hide Put;
    }
  }

  lemma PutCharGrows(t: Term, c: Byte, attr: Byte)
    requires WF(t)
    ensures Grows(t, PutChar(t, c, attr))
  {
    PutAllGrows(t, Glyphs(c, attr));
  }

  /** Position `p`, counted in characters from the start of line `first`, holds `cell`. */
  ghost predicate Placed(t: Term, first: nat, p: nat, cell: Cell)
  {
    && first + p / W < |t.lines|
    && p % W < |t.lines[first + p / W].cells| && t.lines[first + p / W].cells[p % W] == cell
  }

  /** The cursor stands at position `p`. */
  predicate CursorAt(t: Term, first: nat, p: nat)
    requires |t.lines| > 0
  {
    |t.lines| - 1 == first + p / W && Column(t) == p % W
  }

  lemma PlacedStep(v: Term, first: nat, q: nat, cell: Cell)
    requires WF(v) && CursorAt(v, first, q)
    ensures CursorAt(Put(v, cell), first, q + 1) && Placed(Put(v, cell), first, q, cell)
    ensures forall p: nat, c :: Placed(v, first, p, c) ==> Placed(Put(v, cell), first, p, c)
  {
    PlaceStep(v, cell);
    hide Put;
  }

  /** Where each character of a run lands: W to a line, counted on from the cursor. */
  lemma {:induction false} WrapPlaces(t: Term, cells: seq<Cell>)
    requires WF(t)
    ensures CursorAt(PutAll(t, cells), |t.lines| - 1, Column(t) + |cells|)
    ensures forall k :: 0 <= k < |cells| ==> Placed(PutAll(t, cells), |t.lines| - 1, Column(t) + k, cells[k])
  {
    hide Placed;
    if cells != [] {
      var n := |cells| - 1;
      WrapPlaces(t, cells[..n]);
      PlacedStep(PutAll(t, cells[..n]), |t.lines| - 1, Column(t) + n, cells[n]);
      assert PutAll(t, cells) == Put(PutAll(t, cells[..n]), cells[n]);
      hide PutAll, Put;
      assert forall k :: 0 <= k < n ==> cells[..n][k] == cells[k];
    }
  }

  lemma PlaceStep(v: Term, cell: Cell)
    requires WF(v)
    ensures var u := Put(v, cell);
            && (if Column(v) + 1 == 80 then |u.lines| == |v.lines| + 1 && Column(u) == 0
                else |u.lines| == |v.lines| && Column(u) == Column(v) + 1)
            && u.lines[|v.lines| - 1].cells == Last(v).cells + [cell]
            && forall i :: 0 <= i < |v.lines| - 1 ==> u.lines[i] == v.lines[i]
  {
  }

  // ---------------------------------------------------------------- the picture

  function LineCell(l: Line, x: nat): Cell { if x < |l.cells| then l.cells[x] else Cell(32, l.fill) }

  /** The cell that belongs at column `x` of screen row `y`. */
  function CellAt(t: Term, x: nat, y: nat): Cell
  {
    if Top(t) + y < |t.lines| then LineCell(t.lines[Top(t) + y], x) else Cell(32, t.cleared)
  }

  function Off(x: int, y: int): int { (y * W + x) * 2 }

  /** The framebuffer holds the last H lines of the transcript, characters and colours. */
  ghost predicate Shows(fb: seq<Byte>, t: Term)
  {
    && |fb| == Off(0, H)
    && forall x: nat, y: nat :: x < W && y < H ==>
         fb[Off(x, y)] == CellAt(t, x, y).ch && fb[Off(x, y) + 1] == CellAt(t, x, y).attr
  }

  function Drawn(fb: seq<Byte>, x: int, y: int, cell: Cell): (r: seq<Byte>)
    requires |fb| == Off(0, H) && 0 <= x < W && 0 <= y < H
    ensures |r| == |fb|
  {
    fb[Off(x, y) := cell.ch][Off(x, y) + 1 := cell.attr]
  }

  lemma OffApart(x: nat, y: nat, x2: nat, y2: nat)
    requires x < W && x2 < W && (x != x2 || y != y2)
    ensures Off(x, y) != Off(x2, y2) && Off(x, y) + 1 != Off(x2, y2) && Off(x, y) != Off(x2, y2) + 1
  {
  }

  lemma ExtendCell(t: Term, cell: Cell, x: nat, y: nat)
    requires WF(t) && x < W && y < H
    ensures CellAt(Extend(t, cell), x, y) == if x == Column(t) && y == Row(t) then cell else CellAt(t, x, y)
  {
  }

  lemma DrawShows(fb: seq<Byte>, t: Term, cell: Cell)
    requires WF(t) && Shows(fb, t)
    ensures Shows(Drawn(fb, Column(t), Row(t), cell), Extend(t, cell))
  {
    var u, cx, cy := Extend(t, cell), Column(t), Row(t);
    var fb2 := Drawn(fb, cx, cy, cell);
    hide Extend, CellAt, Row, Column;
    forall x: nat, y: nat | x < W && y < H
      ensures fb2[Off(x, y)] == CellAt(u, x, y).ch && fb2[Off(x, y) + 1] == CellAt(u, x, y).attr
    {
      ExtendCell(t, cell, x, y);
      if x != cx || y != cy { OffApart(x, y, cx, cy); }
    }
  }

  lemma NewLineCell(t: Term, attr: Byte, x: nat, y: nat)
    requires |t.lines| > 0 && x < W && y < H
    ensures |t.lines| < H ==> CellAt(NewLine(t, attr), x, y) == CellAt(t, x, y)
    ensures |t.lines| >= H ==>
      CellAt(NewLine(t, attr), x, y) == if y == H - 1 then Cell(32, attr) else CellAt(t, x, y + 1)
  {
  }

  lemma NewLineShows(fb: seq<Byte>, t: Term, attr: Byte)
    requires Shows(fb, t) && 0 < |t.lines| < H
    ensures Shows(fb, NewLine(t, attr))
  {
    hide NewLine, CellAt;
    forall x: nat, y: nat | x < W && y < H
      ensures fb[Off(x, y)] == CellAt(NewLine(t, attr), x, y).ch
      ensures fb[Off(x, y) + 1] == CellAt(NewLine(t, attr), x, y).attr
    {
      NewLineCell(t, attr, x, y);
    }
  }

  /** The framebuffer after a scroll: every row moved up, and blanks in the last one. */
  ghost predicate Scrolled(fb: seq<Byte>, up: seq<Byte>, attr: Byte)
  {
    && |fb| == |up| == Off(0, H)
    && (forall k :: 0 <= k < Off(0, H - 1) ==> up[k] == fb[k + Off(0, 1)])
    && (forall k :: Off(0, H - 1) <= k < Off(0, H) ==> up[k] == if k % 2 == 0 then 32 else attr)
  }

  lemma ScrollShows(fb: seq<Byte>, up: seq<Byte>, t: Term, attr: Byte)
    requires Shows(fb, t) && |t.lines| >= H && Scrolled(fb, up, attr)
    ensures Shows(up, NewLine(t, attr))
  {
    hide NewLine, CellAt;
    forall x: nat, y: nat | x < W && y < H
      ensures up[Off(x, y)] == CellAt(NewLine(t, attr), x, y).ch
      ensures up[Off(x, y) + 1] == CellAt(NewLine(t, attr), x, y).attr
    {
      NewLineCell(t, attr, x, y);
      if y < H - 1 { assert Off(x, y) + Off(0, 1) == Off(x, y + 1); }
    }
  }

  /** The cell vga_delete moves back to, in reading order. */
  function Back(x: int, y: int): (int, int)
  {
    if x > 0 then (x - 1, y) else if y > 0 then (W - 1, y - 1) else (x, y)
  }

  lemma NoScrollPut(t: Term, cell: Cell, x: nat, y: nat)
    requires WF(t) && !(Column(t) == W - 1 && Row(t) == H - 1) && x < W && y < H
    ensures CellAt(Put(t, cell), x, y) == if x == Column(t) && y == Row(t) then cell else CellAt(t, x, y)
    ensures Back(Column(Put(t, cell)), Row(Put(t, cell))) == (Column(t), Row(t))
  {
    ExtendCell(t, cell, x, y);
    NewLineCell(Extend(t, cell), cell.attr, x, y);
    hide CellAt;
  }

  /** Deleting right after a character takes it back, screen and cursor, if and only if the blank it had covered was in
      the current colours and writing it did not scroll. */
  lemma DeleteUndoesIff(fb: seq<Byte>, t: Term, cell: Cell)
    requires WF(t) && Shows(fb, Put(t, cell))
    ensures var u := Put(t, cell);
            var (x, y) := Back(Column(u), Row(u));
            0 <= x < W && 0 <= y < H
            && (Shows(Drawn(fb, x, y, Cell(32, cell.attr)), t) && (x, y) == (Column(t), Row(t))
                <==> Last(t).fill == cell.attr && !(Column(t) == W - 1 && Row(t) == H - 1))
  {
    var cx, cy := Column(t), Row(t);
    if !(cx == W - 1 && cy == H - 1) {
      var fb2 := Drawn(fb, cx, cy, Cell(32, cell.attr));
      NoScrollPut(t, cell, cx, cy);
      assert CellAt(t, cx, cy) == Cell(32, Last(t).fill);
      if Last(t).fill == cell.attr {
        hide CellAt, Put, Row, Column, Back;
        forall x: nat, y: nat | x < W && y < H
          ensures fb2[Off(x, y)] == CellAt(t, x, y).ch && fb2[Off(x, y) + 1] == CellAt(t, x, y).attr
        {
          NoScrollPut(t, cell, x, y);
          if x != cx || y != cy { OffApart(x, y, cx, cy); }
        }
      } else {
        assert fb2[Off(cx, cy) + 1] == cell.attr;
      }
    }
  }

  lemma BlankShows(fb: seq<Byte>, attr: Byte)
    requires |fb| == Off(0, H) && forall k :: 0 <= k < |fb| ==> fb[k] == if k % 2 == 0 then 32 else attr
    ensures Shows(fb, Blank(attr))
  {
  }
}
