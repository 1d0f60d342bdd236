/** drivers/vga.c: the 25 by 80 text screen, seen as the last 25 rows of a typewriter whose
    paper never ends and never scrolls. */
module Vga {
  import opened Machine
  import CString

  const COLS: nat := 80
  const ROWS: nat := 25

  /** A framebuffer cell: the character in the low byte, the attribute in the high one. */
  type Cell = x: int | 0 <= x < 0x1_0000

  /** cell(c, attr). `char` is signed, so widening a byte from 0x80 up sets every high bit. */
  function MakeCell(c: Byte, attr: Byte): Cell {
    if c < 0x80 then c + 0x100 * attr else c + 0xFF00
  }

  /** The character always survives; the colour does exactly below 0x80 (or when it is 0xFF). */
  lemma CellKeeps(c: Byte, attr: Byte)
    ensures MakeCell(c, attr) % 0x100 == c && (0x80 <= c ==> MakeCell(c, attr) / 0x100 == 0xFF)
    ensures MakeCell(c, attr) / 0x100 == attr <==> c < 0x80 || attr == 0xFF
  {
  }

  // ---- The typewriter ------------------------------------------------------------------

  /** Everything typed since the screen was cleared, and where the next character goes. */
  datatype Paper = Paper(rows: seq<seq<Cell>>, row: nat, col: nat, color: Byte)

  ghost predicate PaperOK(p: Paper) {
    && ROWS <= |p.rows|
    && |p.rows| - ROWS <= p.row < |p.rows|
    && p.col < COLS
    && forall r :: 0 <= r < |p.rows| ==> |p.rows[r]| == COLS
  }

  function BlankRow(color: Byte): (row: seq<Cell>)
    ensures |row| == COLS
  {
    seq(COLS, _ => MakeCell(32, color))
  }

  /** The paper under a cleared screen. */
  function Cleared(color: Byte): Paper {
    Paper(seq(ROWS, _ => BlankRow(color)), 0, 0, color)
  }

  /** Put one cell under the type head. */
  function Ink(p: Paper, r: nat, c: nat, x: Cell): Paper
    requires r < |p.rows| && c < |p.rows[r]|
  {
    var line: seq<Cell> := p.rows[r][c := x];
    p.(rows := p.rows[r := line])
  }

  /** The head moves on by one column, onto the next row at the margin. */
  function Right(p: Paper, n: nat): Paper {
    if p.col + n >= COLS then p.(col := 0, row := p.row + 1) else p.(col := p.col + n)
  }

  /** What one character does to the paper, before more paper is fed in. */
  function Strike(p: Paper, c: Byte): Paper
    requires p.row < |p.rows| && p.col < |p.rows[p.row]|
  {
    if c == 10 then p.(col := 0, row := p.row + 1)
    else if c == 13 then p.(col := 0)
    else if c == 8 then (if p.col > 0 then Ink(p, p.row, p.col - 1, MakeCell(32, p.color)).(col := p.col - 1) else p)
    else if c == 9 then Right(p, 8 - p.col % 8)
    else Right(Ink(p, p.row, p.col, MakeCell(c, p.color)), 1)
  }

  /** Feed a blank row when the head has left the paper. */
  function Feed(p: Paper): Paper {
    if p.row < |p.rows| then p else p.(rows := p.rows + [BlankRow(p.color)])
  }

  function Type(p: Paper, c: Byte): Paper
    requires p.row < |p.rows| && p.col < |p.rows[p.row]|
  {
    Feed(Strike(p, c))
  }

  lemma TypeOK(p: Paper, c: Byte)
    requires PaperOK(p)
    ensures PaperOK(Type(p, c)) && p.row <= Type(p, c).row && |p.rows| <= |Type(p, c).rows|
  {
  }

  /** Characters and colour changes, in the order they come. */
  datatype Key = Char(c: Byte) | Color(c: Byte)

  function Press(p: Paper, k: Key): Paper
    requires p.row < |p.rows| && p.col < |p.rows[p.row]|
  {
    match k
    case Char(c) => Type(p, c)
    case Color(c) => p.(color := c)
  }

  lemma PressOK(p: Paper, k: Key)
    requires PaperOK(p)
    ensures PaperOK(Press(p, k)) && p.row <= Press(p, k).row && |p.rows| <= |Press(p, k).rows|
  {
    if k.Char? {
      TypeOK(p, k.c);
    }
  }

  function Session(p: Paper, ks: seq<Key>): Paper
    requires PaperOK(p)
    decreases |ks|
  {
    if ks == [] then p
    else
      PressOK(p, ks[0]);
      Session(Press(p, ks[0]), ks[1..])
  }

  /** Rows above the head are finished: nothing typed later changes them. */
  lemma {:induction false} RowsFinished(p: Paper, ks: seq<Key>)
    requires PaperOK(p)
    ensures PaperOK(Session(p, ks)) && p.row <= Session(p, ks).row && |p.rows| <= |Session(p, ks).rows|
    ensures Session(p, ks).rows[..p.row] == p.rows[..p.row]
    decreases |ks|
  {
    if ks != [] {
      var p' := Press(p, ks[0]);
      PressOK(p, ks[0]);
      RowsFinished(p', ks[1..]);
      var q := Session(p', ks[1..]);
      forall r | 0 <= r < p.row ensures q.rows[r] == p.rows[r] {
        assert q.rows[..p'.row][r] == p'.rows[..p'.row][r];
      }
    }
  }

  /** The cell at a position counted along the paper, 80 to the row. */
  function At(p: Paper, k: nat): Cell
    requires k / COLS < |p.rows| && forall r :: 0 <= r < |p.rows| ==> |p.rows[r]| == COLS
  {
    p.rows[k / COLS][k % COLS]
  }

  function Head(p: Paper): nat {
    p.row * COLS + p.col
  }

  /** The head and the cells of `p` and `q`, but for the one at `x`. */
  ghost predicate SameBut(p: Paper, q: Paper, x: int) {
    && PaperOK(p) && PaperOK(q) && |p.rows| <= |q.rows| && q.color == p.color
    && (forall k: nat {:trigger At(q, k)} :: k / 80 < |p.rows| && k != x ==> At(q, k) == At(p, k))
    && (forall k: nat {:trigger At(q, k)} :: |p.rows| <= k / 80 < |q.rows| ==> At(q, k) == 32 + 0x100 * p.color)
  }

  /** What a byte changes: at most the cell under the head, or the one before it for a backspace.
      A row is fed in, and is blank, only when the head has moved below the last one. */
  lemma TypeChanges(p: Paper, c: Byte)
    requires PaperOK(p)
    ensures SameBut(p, Type(p, c),
                    if c == 9 || c == 10 || c == 13 then -1 else if c == 8 then Head(p) - 1 else Head(p))
    ensures var q := Type(p, c);
      |q.rows| == if Head(q) / 80 < |p.rows| then |p.rows| else Head(q) / 80 + 1
  {
    TypeOK(p, c);
    assert Head(p) / 80 == p.row && Head(p) % 80 == p.col;
    if c == 8 && p.col != 0 {
      assert (Head(p) - 1) / 80 == p.row && (Head(p) - 1) % 80 == p.col - 1;
    }
  }

  /** Line feed goes to the start of the next row, carriage return to that of its own, tab to the
      next multiple of 8, at the margin the next row's start. */
  lemma HeadMoves(p: Paper)
    requires PaperOK(p)
    ensures Head(Type(p, 10)) == (Head(p) / 80 + 1) * 80
    ensures Head(Type(p, 13)) == Head(p) / 80 * 80
    ensures Head(Type(p, 9)) == (Head(p) / 8 + 1) * 8
  {
    assert Head(p) / 80 == p.row && Head(p) % 80 == p.col;
    assert Head(p) / 8 == 10 * p.row + p.col / 8;
  }

  /** Backspace blanks the cell before the head and goes there; at the left margin it does nothing. */
  lemma BackspaceMeaning(p: Paper)
    requires PaperOK(p)
    ensures PaperOK(Type(p, 8))
    ensures Head(p) % 80 == 0 ==> Type(p, 8) == p
    ensures Head(p) % 80 != 0 ==>
      && Head(Type(p, 8)) == Head(p) - 1 && (Head(p) - 1) / 80 < |Type(p, 8).rows|
      && At(Type(p, 8), Head(p) - 1) == 32 + 0x100 * p.color
  {
    assert Head(p) / 80 == p.row && Head(p) % 80 == p.col;
    if p.col != 0 {
      assert (Head(p) - 1) / 80 == p.row && (Head(p) - 1) % 80 == p.col - 1;
    }
  }

  /** A change of colour moves nothing and changes no cell; the next character has the new one. */
  lemma ColorMeaning(p: Paper, color: Byte, c: Byte)
    requires PaperOK(p) && Printable(c)
    ensures var q := Press(p, Color(color));
      && q.rows == p.rows && Head(q) == Head(p) && PaperOK(q)
      && PaperOK(Type(q, c)) && At(Type(q, c), Head(p)) == MakeCell(c, color)
  {
    StrikePlain(Press(p, Color(color)), c);
  }

  /** A cleared screen is blank in its colour, with the head in the top left corner. */
  lemma ClearedBlank(color: Byte)
    ensures var p := Cleared(color);
      && PaperOK(p) && p.color == color && Head(p) == 0 && |p.rows| == 25
      && forall k: nat :: k < 2000 ==> At(p, k) == 32 + 0x100 * color
  {
  }

  predicate Printable(c: Byte) {
    c != 8 && c != 9 && c != 10 && c != 13
  }

  /** One ordinary character lands under the head, which moves on by one. */
  lemma StrikePlain(p: Paper, c: Byte)
    requires PaperOK(p) && Printable(c)
    ensures PaperOK(Type(p, c)) && Head(Type(p, c)) == Head(p) + 1 && Type(p, c).color == p.color
    ensures At(Type(p, c), Head(p)) == MakeCell(c, p.color)
    ensures forall k | 0 <= k / COLS < |p.rows| && k != Head(p) :: At(Type(p, c), k) == At(p, k)
  {
    TypeOK(p, c);
    var q := Type(p, c);
    assert Head(p) / COLS == p.row && Head(p) % COLS == p.col;
    forall k | 0 <= k / COLS < |p.rows| && k != Head(p) ensures At(q, k) == At(p, k) {
      if k / COLS == p.row && k % COLS == p.col {
        assert false;
      }
    }
  }

  /** Paper `q` is `p` with the text typed in order from the head on, and nothing before it
      changed. */
  ghost predicate Reads(p: Paper, q: Paper, s: seq<Byte>) {
    && PaperOK(q) && Head(q) == Head(p) + |s| && |p.rows| <= |q.rows|
    && (forall k | 0 <= k < |s| :: (Head(p) + k) / COLS < |q.rows| && At(q, Head(p) + k) == MakeCell(s[k], p.color))
    && (forall r | 0 <= r < |p.rows| :: |p.rows[r]| == COLS)
    && (forall k | 0 <= k < Head(p) && k / COLS < |p.rows| :: At(q, k) == At(p, k))
  }

  lemma ReadsMore(p: Paper, q: Paper, s: seq<Byte>)
    requires PaperOK(p) && s != [] && Printable(s[0]) && Reads(Type(p, s[0]), q, s[1..])
    ensures Reads(p, q, s)
  {
    var p' := Type(p, s[0]);
    StrikePlain(p, s[0]);
    TypeOK(p, s[0]);
    forall k | 0 <= k < |s|
      ensures (Head(p) + k) / COLS < |q.rows| && At(q, Head(p) + k) == MakeCell(s[k], p.color)
    {
      if k != 0 {
        assert Head(p) + k == Head(p') + (k - 1) && s[1..][k - 1] == s[k];
      }
    }
  }

  /** Ordinary text of any length appears in order from the head on, wrapping at the margin and
      feeding paper as needed, and nothing before it changes. */
  lemma {:induction false} PlainText(p: Paper, s: seq<Byte>)
    requires PaperOK(p) && forall c :: c in s ==> Printable(c)
    ensures Reads(p, Session(p, Chars(s)), s)
    decreases |s|
  {
    if s != [] {
      TypeOK(p, s[0]);
      PlainText(Type(p, s[0]), s[1..]);
      assert Chars(s)[1..] == Chars(s[1..]);
      ReadsMore(p, Session(p, Chars(s)), s);
    }
  }

  function Chars(s: seq<Byte>): seq<Key> {
    seq(|s|, k requires 0 <= k < |s| => Char(s[k]))
  }

  // ---- The screen --------------------------------------------------------------------------

  /** The framebuffer shows the last 25 rows. */
  ghost predicate Shows(fb: seq<Cell>, p: Paper)
    requires ROWS <= |p.rows| && forall r :: 0 <= r < |p.rows| ==> |p.rows[r]| == COLS
  {
    && |fb| == ROWS * COLS
    && forall k :: 0 <= k < ROWS * COLS ==> fb[k] == p.rows[|p.rows| - ROWS + k / COLS][k % COLS]
  }

  /** That is 25 rows of 80 cells, and the head stands on one of them. */
  lemma ShowsRows(fb: seq<Cell>, p: Paper, r: nat, c: nat)
    requires PaperOK(p) && Shows(fb, p) && r < 25 && c < 80
    ensures |fb| == 2000 && 80 * r + c < 2000 && (|p.rows| - 25 + r) < |p.rows| && |p.rows[|p.rows| - 25 + r]| == 80
    ensures fb[80 * r + c] == p.rows[|p.rows| - 25 + r][c]
    ensures |p.rows| - 25 <= Head(p) / 80 < |p.rows|
  {
    assert (80 * r + c) / 80 == r && (80 * r + c) % 80 == c;
  }

  /** Moving every row up by one and blanking the last is feeding one row of paper. */
  lemma ScrollShows(was: seq<Cell>, now: seq<Cell>, p: Paper)
    requires ROWS <= |p.rows| == p.row && forall r :: 0 <= r < |p.rows| ==> |p.rows[r]| == COLS
    requires Shows(was, p) && |now| == ROWS * COLS
    requires forall k :: 0 <= k < (ROWS - 1) * COLS ==> now[k] == was[k + COLS]
    requires forall k :: (ROWS - 1) * COLS <= k < ROWS * COLS ==> now[k] == MakeCell(32, p.color)
    ensures Shows(now, Feed(p))
  {
    var q := Feed(p);
    forall k | 0 <= k < ROWS * COLS ensures now[k] == q.rows[|q.rows| - ROWS + k / COLS][k % COLS] {
      if k < (ROWS - 1) * COLS {
        assert (k + COLS) / COLS == k / COLS + 1 && (k + COLS) % COLS == k % COLS;
      } else {
        assert k / COLS == ROWS - 1;
      }
    }
  }

  class Screen {
    const fb: array<Cell>
    var row: nat
    var col: nat
    var color: Byte
    ghost var paper: Paper

    ghost predicate Valid()
      reads this, fb
    {
      && PaperOK(paper)
      && Shows(fb[..], paper)
      && row == paper.row - (|paper.rows| - ROWS)
      && col == paper.col
      && color == paper.color
    }

    /** Between a character and the scrolling, the cursor may be one row below the screen. */
    ghost predicate Struck()
      reads this, fb
    {
      && ROWS <= |paper.rows| && (forall r :: 0 <= r < |paper.rows| ==> |paper.rows[r]| == COLS)
      && Shows(fb[..], paper) && |paper.rows| - ROWS <= paper.row <= |paper.rows|
      && row == paper.row - (|paper.rows| - ROWS) && color == paper.color
      && col == paper.col < COLS
    }

    /** vga_init on whatever the boot loader left on the screen. */
    constructor ()
      ensures Valid() && fresh(fb) && paper == Cleared(7)
    {
      fb := new Cell[ROWS * COLS];
      color, row, col, paper := 7, 0, 0, Cleared(7);
      new;
      Clear();
    }

    method Clear()
      requires fb.Length == ROWS * COLS
      modifies this`row, this`col, this`paper, fb
      ensures Valid() && paper == Cleared(color)
    {
      for i := 0 to COLS * ROWS
        invariant forall k :: 0 <= k < i ==> fb[k] == MakeCell(32, color)
      {
        fb[i] := MakeCell(32, color);
      }
      row, col := 0, 0;
      paper := Cleared(color);
    }

    method SetColor(c: Byte)
      requires Valid()
      modifies this`color, this`paper
      ensures Valid() && paper == Press(old(paper), Color(c))
    {
      color := c;
      paper := paper.(color := c);
    }

    method BlankLastRow()
      requires fb.Length == ROWS * COLS
      modifies fb
      ensures forall k :: 0 <= k < (ROWS - 1) * COLS ==> fb[k] == old(fb[k])
      ensures forall k :: (ROWS - 1) * COLS <= k < ROWS * COLS ==> fb[k] == MakeCell(32, color)
    {
      for c := 0 to COLS
        invariant forall k :: 0 <= k < (ROWS - 1) * COLS ==> fb[k] == old(fb[k])
        invariant forall k :: (ROWS - 1) * COLS <= k < (ROWS - 1) * COLS + c ==> fb[k] == MakeCell(32, color)
      {
        fb[(ROWS - 1) * COLS + c] := MakeCell(32, color);
      }
    }

    /** scroll_if_needed, called with the cursor at most one row below the screen. */
    method ScrollIfNeeded()
      requires Struck()
      modifies this`row, this`paper, fb
      ensures Valid() && paper == Feed(old(paper))
    {
      if row < ROWS {
        return;
      }
      ghost var was := fb[..];
      CString.Memmove(fb, 0, COLS, (ROWS - 1) * COLS);
      assert forall k :: 0 <= k < (ROWS - 1) * COLS ==> fb[k] == was[k + COLS];
      BlankLastRow();
      ScrollShows(was, fb[..], paper);
      paper := Feed(paper);
      row := ROWS - 1;
    }

    /** Write the cell under the cursor's row at column `c`. */
    method Paint(c: nat, x: Cell)
      requires Valid() && c < COLS
      modifies this`paper, fb
      ensures Valid() && paper == Ink(old(paper), old(paper).row, c, x)
    {
      fb[row * COLS + c] := x;
      paper := Ink(paper, paper.row, c, x);
    }

    /** Line feed and carriage return. */
    method Break(c: Byte)
      requires Valid() && (c == 10 || c == 13)
      modifies this`row, this`col, this`paper
      ensures Struck() && paper == Strike(old(paper), c)
    {
      col, row := 0, if c == 10 then row + 1 else row;
      paper := paper.(col := 0, row := if c == 10 then paper.row + 1 else paper.row);
    }

    /** Backspace, which stops at the left margin. */
    method Erase()
      requires Valid()
      modifies this`col, this`paper, fb
      ensures Struck() && paper == Strike(old(paper), 8)
    {
      if col > 0 {
        Paint(col - 1, MakeCell(32, color));
        col := col - 1;
        paper := paper.(col := col);
      }
    }

    method Tab()
      requires Valid()
      modifies this`row, this`col, this`paper
      ensures Struck() && paper == Strike(old(paper), 9)
    {
      col := (col + 8) / 8 * 8;
      paper := Right(paper, 8 - paper.col % 8);
      if col >= COLS {
        col, row := 0, row + 1;
      }
    }

    /** Any other character takes a cell. */
    method Place(c: Byte)
      requires Valid() && c !in {8, 9, 10, 13}
      modifies this`row, this`col, this`paper, fb
      ensures Struck() && paper == Strike(old(paper), c)
    {
      Paint(col, MakeCell(c, color));
      paper := Right(paper, 1);
      col := col + 1;
      if col >= COLS {
        col, row := 0, row + 1;
      }
    }

    /** vga_putc: whatever was typed, the screen still shows the end of the paper. */
    method Putc(c: Byte)
      requires Valid()
      modifies this`row, this`col, this`paper, fb
      ensures Valid() && paper == Press(old(paper), Char(c))
    {
      if c == 10 || c == 13 {
        Break(c);
      } else if c == 8 {
        Erase();
      } else if c == 9 {
        Tab();
      } else {
        Place(c);
      }
      ScrollIfNeeded();
    }

    /** From clearing on, whatever is typed and in whatever colours, the screen shows the end of the
        whole session's paper. */
    method Play(ks: seq<Key>)
      requires Valid()
      modifies this, fb
      ensures Valid() && paper == Session(Cleared(old(color)), ks)
    {
      Clear();
      ghost var clean := paper;
      for i := 0 to |ks|
        invariant Valid() && Session(paper, ks[i..]) == Session(clean, ks)
      {
        assert ks[i..][0] == ks[i] && ks[i..][1..] == ks[i + 1..];
        match ks[i]
        case Char(c) => Putc(c);
        case Color(c) => SetColor(c);
      }
    }
  }
}
