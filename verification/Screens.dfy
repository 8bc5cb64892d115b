// print.c, seen from above: a 25 x 80 grid of cells, a cursor, and what each character does to them.
module Screens {
  import opened Bytes

  const COLS: nat := 80
  const ROWS: nat := 25
  const CELLS: nat := 2000

  const BACKSPACE: byte := 8
  const NEWLINE: byte := 10
  const RETURN: byte := 13
  const SPACE: byte := 32

  datatype Cell = Cell(ch: byte, color: byte)

  /** `col` may be 80: the wrap is put off until the next printed character. */
  datatype Screen = Screen(cells: seq<Cell>, row: nat, col: nat, color: byte)

  ghost predicate Ok(s: Screen) {
    |s.cells| == CELLS && s.row < ROWS && s.col <= COLS
  }

  /** The cursor as an index into the cells, row by row. */
  function Cursor(s: Screen): nat { COLS * s.row + s.col }

  /** print_clear: the cursor's column is kept. */
  function Clear(s: Screen): Screen {
    s.(cells := seq(CELLS, _ => Cell(SPACE, s.color)), row := 0)
  }

  function BlankRow(color: byte): seq<Cell> { seq(COLS, _ => Cell(SPACE, color)) }

  function Newline(s: Screen): Screen
    requires Ok(s)
  {
    if s.row < ROWS - 1 then s.(row := s.row + 1, col := 0)
    else s.(cells := s.cells[COLS..] + BlankRow(s.color), col := 0)
  }

  function Backspace(s: Screen): Screen
    requires Ok(s)
  {
    var t := if s.col == 0 && s.row > 0 then s.(row := s.row - 1, col := COLS - 1)
             else if s.col > 0 then s.(col := s.col - 1)
             else s;
    t.(cells := t.cells[Cursor(t) := Cell(SPACE, s.color)])
  }

  /** print_char. */
  function Put(s: Screen, c: byte): (t: Screen)
    requires Ok(s)
    ensures Ok(t) && t.color == s.color
  {
    if c == NEWLINE then Newline(s)
    else if c == BACKSPACE then Backspace(s)
    else
      var t := if s.col >= COLS then Newline(s) else s;
      t.(cells := t.cells[Cursor(t) := Cell(c, s.color)], col := t.col + 1)
  }

  // ----- what they mean, cell by cell -----

  /** A newline keeps every cell above the last row, and scrolls by one row of 80 when there is no row left. */
  lemma NewlineMeans(s: Screen)
    requires Ok(s)
    ensures var t := Put(s, 10);
            && |t.cells| == |s.cells| == 2000 && t.col == 0
            && (s.row < 24 ==> t.row == s.row + 1 && t.cells == s.cells)
            && (s.row == 24 ==> t.row == 24)
            && (s.row == 24 ==> forall k :: 0 <= k < 2000 ==>
                  t.cells[k] == if k < 1920 then s.cells[k + 80] else Cell(32, s.color))
  {
  }

  /** A backspace goes back by one cell, across rows too, and leaves a space in the current colour there. */
  lemma BackspaceMeans(s: Screen)
    requires Ok(s)
    ensures var t, k := Put(s, 8), 80 * s.row + s.col;
            && t.col < 80 && 80 * t.row + t.col == (if k == 0 then 0 else k - 1)
            && t.cells == s.cells[80 * t.row + t.col := Cell(32, s.color)]
  {
  }

  /** Any other character is written at the cursor in the current colour; after column 80 a newline comes first. */
  lemma CharacterMeans(s: Screen, c: byte)
    requires Ok(s) && c != 8 && c != 10
    ensures s.col < 80 ==>
              Put(s, c) == Screen(s.cells[80 * s.row + s.col := Cell(c, s.color)], s.row, s.col + 1, s.color)
    ensures s.col == 80 ==> Put(s, c) == Put(Put(s, 10), c) && Put(s, c).col == 1
  {
  }

  /** print_clear: 2000 spaces in the current colour, the cursor in row 0 of its column. */
  lemma ClearMeans(s: Screen)
    requires Ok(s)
    ensures var t := Clear(s);
            && t.row == 0 && t.col == s.col && t.color == s.color && |t.cells| == 2000
            && forall k :: 0 <= k < 2000 ==> t.cells[k] == Cell(32, s.color)
  {
  }

  /** print_str. */
  function PutAll(s: Screen, text: seq<byte>): (t: Screen)
    requires Ok(s)
    ensures Ok(t) && t.color == s.color
  {
    if text == [] then s else Put(PutAll(s, text[..|text| - 1]), text[|text| - 1])
  }

  lemma PutAllSnoc(s: Screen, text: seq<byte>, c: byte)
    requires Ok(s)
    ensures PutAll(s, []) == s && PutAll(s, text + [c]) == Put(PutAll(s, text), c)
  {
    assert (text + [c])[..|text + [c]| - 1] == text;
  }

  lemma {:induction false} PutAllConcat(s: Screen, a: seq<byte>, b: seq<byte>)
    requires Ok(s)
    ensures PutAll(s, a + b) == PutAll(PutAll(s, a), b)
  {
    if b == [] {
      assert a + b == a;
    } else {
      var b0 := b[..|b| - 1];
      assert (a + b)[..|a + b| - 1] == a + b0;
      PutAllConcat(s, a, b0);
    }
  }

  /** Plain characters that fit the rest of the row stand there, in order, and nothing else changes. */
  lemma {:induction false} PlainText(s: Screen, text: seq<byte>)
    requires Ok(s) && s.col + |text| <= 80 && 8 !in text && 10 !in text
    ensures var t, start := PutAll(s, text), 80 * s.row + s.col;
            && t.row == s.row && t.col == s.col + |text| && |t.cells| == 2000
            && forall k :: 0 <= k < 2000 ==>
                 t.cells[k] == if start <= k < start + |text| then Cell(text[k - start], s.color) else s.cells[k]
  {
    if text != [] {
      var before := text[..|text| - 1];
      PlainText(s, before);
      CharacterMeans(PutAll(s, before), text[|text| - 1]);
    }
  }

  /** After print_clear at column c, a text that fits stands from column c of the top row on,
      and nothing else is shown. */
  lemma ClearedText(s: Screen, text: seq<byte>)
    requires Ok(s) && s.col + |text| <= 80 && 8 !in text && 10 !in text
    ensures var t := PutAll(Clear(s), text);
            && t.row == 0 && t.col == s.col + |text| && |t.cells| == 2000
            && forall k :: 0 <= k < 2000 ==>
                 t.cells[k] == Cell(if s.col <= k < s.col + |text| then text[k - s.col] else 32, s.color)
  {
    ClearMeans(s);
    PlainText(Clear(s), text);
  }

  /** Every cell at or after the cursor shows a space. */
  ghost predicate BlankAhead(s: Screen)
    requires Ok(s)
  {
    forall k :: Cursor(s) <= k < CELLS ==> s.cells[k].ch == SPACE
  }
}
