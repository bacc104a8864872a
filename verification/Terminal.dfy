/**
 The terminal of the debugger console: a screen of 25 rows of 80 cells that scrolls, and the
 unbounded page of wrapped rows whose last 25 it shows.
 */
module Terminals {
  const ROWS: nat := 25
  const COLS: nat := 80

  const NEWLINE: char := '\n'
  const TAB: char := '\t'
  const BACKSPACE: char := 8 as char

  datatype Cell = Cell(ch: char, color: int)

  /**
   prompt: whether a prompt is set; promptCol, promptLine: where it stands; color: the output
   colour; cells: the screen, row by row.
   */
  datatype Term = Term(column: nat, line: nat, prompt: bool, promptCol: nat, promptLine: nat, color: int, cells: seq<Cell>)

  predicate Sized(t: Term) {
    |t.cells| == ROWS * COLS
  }

  /** A write in the screen buffer; behind its end nothing can be said. */
  function Write(t: Term, ch: char): Term {
    var i := t.column + t.line * COLS;
    if i < |t.cells| then t.(cells := t.cells[i := Cell(ch, t.color)]) else t
  }

  /** The cursor after a backspace. */
  function Back(t: Term): Term {
    if t.column > 0 then
      (if !t.prompt || t.line > t.promptLine || t.column > t.promptCol then t.(column := t.column - 1) else t)
    else if t.line > 0 && (!t.prompt || t.line > t.promptLine) then t.(line := t.line - 1, column := COLS - 1)
    else t
  }

  function BlankRow(color: int): seq<Cell> {
    seq(COLS, _ => Cell('\0', color))
  }

  /** When the cursor has left the last row everything moves up by one row, the prompt included. */
  function Scroll(t: Term): Term {
    if t.line != ROWS then t
    else
      t.(line := ROWS - 1,
         cells := if Sized(t) then t.cells[COLS..] + BlankRow(t.color) else t.cells,
         promptLine := if t.prompt && t.promptLine > 0 then t.promptLine - 1 else t.promptLine)
  }

  /** The cursor behind a character that has been written. */
  function Forward(t: Term): Term {
    if t.column + 1 == COLS then t.(line := t.line + 1, column := 0) else t.(column := t.column + 1)
  }

  /** The next tabulator stop; only a column beyond 80 is wrapped. */
  function Tab(t: Term): Term {
    var c := t.column + 4 - (t.column + 4) % 4;
    if c > COLS then t.(line := t.line + 1, column := 0) else t.(column := c)
  }

  /** dbg_internal_putc. */
  function Put(t: Term, c: char): Term {
    Scroll(if c == NEWLINE then t.(column := 0, line := t.line + 1)
           else if c == BACKSPACE then Write(Back(t), ' ')
           else if c == TAB then Tab(t)
           else Forward(Write(t, c)))
  }

  // ---------------------------------------------------------------- the cursor

  predicate InRange(t: Term) {
    t.column < COLS && t.line < ROWS
  }

  /** The cursor leaves the screen exactly on a tabulator in the last four columns. */
  lemma CursorInRangeIff(t: Term, c: char)
    requires InRange(t)
    ensures InRange(Put(t, c)) <==> c != TAB || t.column < COLS - 4
    ensures !InRange(Put(t, c)) ==> Put(t, c).column == COLS
  {
  }

  /** The cursor does not stand in front of the prompt. */
  predicate BehindPrompt(t: Term) {
    t.prompt ==> t.promptCol < COLS && (t.line > t.promptLine || (t.line == t.promptLine && t.column >= t.promptCol))
  }

  /** No character takes the cursor in front of the prompt, which scrolls with the screen. */
  lemma PromptHolds(t: Term, c: char)
    requires InRange(t) && BehindPrompt(t)
    ensures BehindPrompt(Put(t, c))
  {
  }

  function PutAll(t: Term, s: seq<char>): Term
    decreases |s|
  {
    if s == [] then t else PutAll(Put(t, s[0]), s[1..])
  }

  /** Text without tabulators keeps the cursor on the screen and behind the prompt. */
  lemma {:induction false} CursorTheorem(t: Term, s: seq<char>)
    requires Sized(t) && InRange(t) && BehindPrompt(t) && TAB !in s
    ensures Sized(PutAll(t, s)) && InRange(PutAll(t, s)) && BehindPrompt(PutAll(t, s))
    decreases |s|
  {
    if s != [] {
      CursorInRangeIff(t, s[0]);
      PromptHolds(t, s[0]);
      CursorTheorem(Put(t, s[0]), s[1..]);
    }
  }

  /** In the last row such a tabulator leaves the cursor behind the screen buffer, and no character wraps it any more. */
  lemma TabOverruns(t: Term, c: char)
    requires Sized(t) && InRange(t) && t.line == ROWS - 1 && t.column >= COLS - 4
    requires c != NEWLINE && c != TAB && c != BACKSPACE
    ensures var u := Put(t, TAB);
            u.column + u.line * COLS == |u.cells| && Put(u, c).column == COLS + 1 && Put(u, c).line == ROWS - 1
  {
  }

  /** A backspace takes back a character that has not made the screen scroll, and leaves a blank. */
  lemma BackspaceErases(t: Term, c: char)
    requires Sized(t) && InRange(t) && BehindPrompt(t) && c != NEWLINE && c != TAB && c != BACKSPACE
    requires t.line < ROWS - 1 || t.column < COLS - 1
    ensures Put(Put(t, c), BACKSPACE) == t.(cells := t.cells[t.column + t.line * COLS := Cell(' ', t.color)])
  {
    var i := t.column + t.line * COLS;
    assert t.cells[i := Cell(c, t.color)][i := Cell(' ', t.color)] == t.cells[i := Cell(' ', t.color)];
  }

  /** The cursor as an index in the screen buffer. */
  function Cursor(t: Term): nat {
    t.column + t.line * COLS
  }

  /** A backspace goes back by one cell, across the rows, but not in front of the prompt or of the screen; there is a blank then. */
  lemma BackspaceMoves(t: Term)
    requires Sized(t) && InRange(t) && BehindPrompt(t)
    ensures var (u, from) := (Put(t, BACKSPACE), if t.prompt then t.promptCol + t.promptLine * COLS else 0);
            && Cursor(u) == (if Cursor(t) > from then Cursor(t) - 1 else Cursor(t)) && InRange(u)
            && u.cells == t.cells[Cursor(u) := Cell(' ', t.color)]
            && u.promptCol == t.promptCol && u.promptLine == t.promptLine
  {
  }

  /** A tabulator goes to the next of the columns 4, 8, ..., 80 in the row; from behind them it goes to the next row. */
  lemma TabStops(t: Term)
    requires t.line < ROWS
    ensures var u := Put(t, TAB);
            if t.column < COLS then
              t.column < u.column <= t.column + 4 && u.column % 4 == 0 && u == t.(column := u.column)
            else u == Put(t, NEWLINE)
  {
  }

  /** A character makes the screen scroll. */
  predicate Scrolls(t: Term, c: char) {
    t.line == ROWS - 1 && (c == NEWLINE || (c != TAB && c != BACKSPACE && t.column == COLS - 1))
  }

  /**
   Every cell after a character or a newline: the character stands where the cursor was, in the
   output colour, and where the screen scrolls all cells and the prompt go up by one row.
   */
  lemma PutCell(t: Term, c: char, l: nat, j: nat)
    requires Sized(t) && InRange(t) && c != TAB && c != BACKSPACE && l < ROWS && j < COLS
    ensures var (u, up) := (Put(t, c), if Scrolls(t, c) then 1 else 0);
            && Sized(u) && u.cells[l * COLS + j] == (if l + up == ROWS then Cell('\0', t.color)
                                                     else if c != NEWLINE && l + up == t.line && j == t.column then Cell(c, t.color)
                                                     else t.cells[(l + up) * COLS + j])
            && u.promptCol == t.promptCol && u.prompt == t.prompt && u.color == t.color
            && u.promptLine == (if t.prompt && t.promptLine > 0 then t.promptLine - up else t.promptLine)
            && Cursor(u) == (if c == NEWLINE then (t.line + 1 - up) * COLS else Cursor(t) + 1 - up * COLS)
  {
    var u := Unscrolled(t, c);
    assert Put(t, c) == Scroll(u);
    assert l * COLS + j == Cursor(t) <==> l == t.line && j == t.column;
    if Scrolls(t, c) {
      if l + 1 < ROWS {
        assert Scroll(u).cells[l * COLS + j] == u.cells[(l + 1) * COLS + j];
        assert (l + 1) * COLS + j == Cursor(t) <==> l + 1 == t.line && j == t.column;
      } else {
        assert Scroll(u).cells[l * COLS + j] == Cell('\0', t.color);
      }
    }
  }

  // ---------------------------------------------------------------- the unbounded page

  /** The rows of a text: a row ends with a newline or when it has 80 characters. */
  function Page(s: seq<char>): (rows: seq<seq<char>>)
    ensures rows != [] && |rows[|rows| - 1]| < COLS
  {
    if s == [] then [[]] else Extended(Page(s[..|s| - 1]), s[|s| - 1])
  }

  function Extended(rows: seq<seq<char>>, c: char): (r: seq<seq<char>>)
    requires rows != [] && |rows[|rows| - 1]| < COLS
    ensures r != [] && |r[|r| - 1]| < COLS
  {
    var n := |rows| - 1;
    var row := rows[n] + [c];
    if c == NEWLINE then rows + [[]]
    else if |row| == COLS then rows[..n] + [row, []]
    else rows[..n] + [row]
  }

  /** The first row of the page that is on the screen. */
  function Top(rows: seq<seq<char>>): nat {
    if |rows| > ROWS then |rows| - ROWS else 0
  }

  /** The character of the page at row l and column j of the screen, zero where there is none. */
  function CharAt(rows: seq<seq<char>>, l: nat, j: nat): char {
    var i := Top(rows) + l;
    if i < |rows| && j < |rows[i]| then rows[i][j] else '\0'
  }

  ghost predicate CellShows(t: Term, rows: seq<seq<char>>, l: nat, j: nat)
    requires Sized(t)
  {
    l < ROWS && j < COLS ==> t.cells[l * COLS + j].ch == CharAt(rows, l, j)
  }

  /** The screen shows the last 25 rows of the page, with the cursor at its end. */
  ghost predicate Shows(t: Term, rows: seq<seq<char>>) {
    && Sized(t) && rows != [] && |rows[|rows| - 1]| < COLS
    && t.line == |rows| - 1 - Top(rows) && t.column == |rows[|rows| - 1]|
    && forall l: nat, j: nat {:trigger CellShows(t, rows, l, j)} :: CellShows(t, rows, l, j)
  }

  /** One character keeps the screen in step with the page. */
  lemma PutExtends(t: Term, rows: seq<seq<char>>, c: char)
    requires Shows(t, rows) && c != TAB && c != BACKSPACE
    ensures Shows(Put(t, c), Extended(rows, c))
  {
    var u, rows' := Unscrolled(t, c), Extended(rows, c);
    forall l: nat, j: nat | l < ROWS && j < COLS ensures Put(t, c).cells[l * COLS + j].ch == CharAt(rows', l, j) {
      CellAfter(t, rows, c, l, j);
    }
    forall l: nat, j: nat ensures CellShows(Put(t, c), rows', l, j) {
    }
  }

  /** The terminal after a character and before it scrolls. */
  function Unscrolled(t: Term, c: char): Term {
    if c == NEWLINE then t.(column := 0, line := t.line + 1) else Forward(Write(t, c))
  }

  lemma CellAfter(t: Term, rows: seq<seq<char>>, c: char, l: nat, j: nat)
    requires Shows(t, rows) && c != TAB && c != BACKSPACE && l < ROWS && j < COLS
    ensures Sized(Put(t, c)) && Put(t, c).cells[l * COLS + j].ch == CharAt(Extended(rows, c), l, j)
  {
    var u := Unscrolled(t, c);
    assert Put(t, c) == Scroll(u);
    if u.line == ROWS {
      if l + 1 < ROWS {
        assert Scroll(u).cells[l * COLS + j] == u.cells[(l + 1) * COLS + j];
        CellWritten(t, rows, c, l + 1, j);
      } else {
        assert Scroll(u).cells[l * COLS + j] == Cell('\0', t.color);
      }
    } else {
      CellWritten(t, rows, c, l, j);
    }
  }

  /** The cells before scrolling, against the rows that were on the screen. */
  lemma CellWritten(t: Term, rows: seq<seq<char>>, c: char, l: nat, j: nat)
    requires Shows(t, rows) && c != TAB && c != BACKSPACE && l < ROWS && j < COLS
    ensures var (u, rows') := (Unscrolled(t, c), Extended(rows, c));
            Sized(u) && u.cells[l * COLS + j].ch
                        == if Top(rows) + l < |rows'| && j < |rows'[Top(rows) + l]| then rows'[Top(rows) + l][j] else '\0'
  {
    assert CellShows(t, rows, l, j);
    assert t.column + t.line * COLS == l * COLS + j <==> l == t.line && j == t.column;
  }

  /** The screen after a cleared terminal has been given a text without tabulators and backspaces. */
  lemma {:induction false} ScreenShowsPage(t: Term, s: seq<char>)
    requires Shows(t, [[]]) && TAB !in s && BACKSPACE !in s
    ensures Shows(PutAll(t, s), Page(s))
  {
    if s != [] {
      var n := |s| - 1;
      ScreenShowsPage(t, s[..n]);
      PutExtends(PutAll(t, s[..n]), Page(s[..n]), s[n]);
      PutLast(t, s);
    }
  }

  lemma {:induction false} PutLast(t: Term, s: seq<char>)
    requires s != []
    ensures PutAll(t, s) == Put(PutAll(t, s[..|s| - 1]), s[|s| - 1])
    decreases |s|
  {
    if |s| > 1 {
      PutLast(Put(t, s[0]), s[1..]);
      assert s[1..][..|s| - 2] == s[..|s| - 1][1..];
    } else {
      assert s[..0] == [] && s[1..] == [];
    }
  }

  /** A cleared screen shows the empty page. */
  lemma ClearShows(t: Term)
    requires Sized(t) && t.line == 0 && t.column == 0 && forall i :: 0 <= i < |t.cells| ==> t.cells[i].ch == '\0'
    ensures Shows(t, [[]])
  {
    forall l: nat, j: nat ensures CellShows(t, [[]], l, j) {
    }
  }

  // ---------------------------------------------------------------- the terminal in place

  class Terminal {
    var column: nat
    var line: nat
    var prompt: bool
    var promptCol: nat
    var promptLine: nat
    var color: int
    const buf: array<Cell>

    ghost function Value(): Term
      reads this, buf
    {
      Term(column, line, prompt, promptCol, promptLine, color, buf[..])
    }

    constructor (outputColor: int)
      ensures fresh(buf) && Shows(Value(), [[]]) && !prompt && color == outputColor
    {
      column, line, prompt, promptCol, promptLine, color := 0, 0, false, 0, 0, outputColor;
      buf := new Cell[ROWS * COLS](_ => Cell('\0', 7));
      new;
      ClearShows(Value());
    }

    /** dbg_internal_putc; what it writes must lie in the screen buffer. */
    method Putc(c: char)
      requires buf.Length == ROWS * COLS && column + line * COLS < buf.Length && line < ROWS
      modifies this, buf
      ensures Value() == Put(old(Value()), c)
    {
      if c == NEWLINE {
        column, line := 0, line + 1;
      } else if c == BACKSPACE {
        if prompt {
          if column > 0 {
            if line > promptLine || column > promptCol { column := column - 1; }
          } else if line > 0 && line > promptLine {
            line := line - 1;
            column := COLS - 1;
          }
        } else {
          if column > 0 {
            column := column - 1;
          } else if line > 0 {
            line := line - 1;
            column := COLS - 1;
          }
        }
        buf[column + line * COLS] := Cell(' ', color);
      } else if c == TAB {
        column := column + 4;
        column := column - column % 4;
        if column > COLS {
          line := line + 1;
          column := 0;
        }
      } else {
        buf[column + line * COLS] := Cell(c, color);
        column := column + 1;
        if column == COLS {
          line := line + 1;
          column := 0;
        }
      }
      if line == ROWS { ScrollUp(); }
    }

    /** Everything moves up by one row. */
    method ScrollUp()
      requires buf.Length == ROWS * COLS && line == ROWS
      modifies this`line, this`promptLine, buf
      ensures Value() == Scroll(old(Value()))
    {
      line := line - 1;
      var i := 0;
      while i < COLS * (ROWS - 1)
        invariant 0 <= i <= COLS * (ROWS - 1) && line == ROWS - 1 && promptLine == old(promptLine)
        invariant buf[..i] == old(buf[..])[COLS..COLS + i] && buf[i..] == old(buf[i..])
      {
        buf[i] := buf[i + COLS];
        i := i + 1;
      }
      var left := COLS;
      while left != 0
        invariant 0 <= left <= COLS && line == ROWS - 1 && promptLine == old(promptLine)
        invariant buf[..COLS * (ROWS - 1)] == old(buf[..])[COLS..]
        invariant forall k :: COLS * (ROWS - 1) + left <= k < buf.Length ==> buf[k] == Cell('\0', color)
      {
        left := left - 1;
        buf[COLS * (ROWS - 1) + left] := Cell('\0', color);
      }
      assert buf[..] == buf[..COLS * (ROWS - 1)] + BlankRow(color);
      if prompt && promptLine > 0 { promptLine := promptLine - 1; }
    }
  }
}
