// The unbounded page behind the screen: everything printed since the last print_clear laid out
// in one row-major tape, of which the screen shows 25 rows.
module Tapes {
  import opened Bytes
  import opened Screens

  /** A position of the page: a printed character with its colour, or a place nothing was printed on. */
  datatype Glyph = Typed(cell: Cell) | Gap

  /** `top` is the page row the window starts at; `wrapped` says that the wrap after a full row is still due. */
  datatype Tape = Tape(text: seq<Glyph>, wrapped: bool, top: nat, color: byte)

  datatype Event = Print(ch: byte) | SetColor(color: byte)

  function At(text: seq<Glyph>, i: nat): Glyph { if i < |text| then text[i] else Gap }

  predicate Matches(c: Cell, g: Glyph) {
    match g
    case Typed(cell) => c == cell
    case Gap => c.ch == SPACE
  }

  /** The window follows the cursor down, never up. */
  function Slide(top: nat, position: nat): nat {
    if position / COLS - (ROWS - 1) > top then position / COLS - (ROWS - 1) else top
  }

  /** One printed character on the page: nothing is ever scrolled or cleared, only appended or taken back. */
  function Type(t: Tape, c: byte): Tape {
    if c == NEWLINE then
      var text := if t.wrapped then t.text else t.text + seq(COLS - |t.text| % COLS, _ => Gap);
      t.(text := text, wrapped := false, top := Slide(t.top, |text|))
    else if c == BACKSPACE then
      if |t.text| > COLS * t.top then t.(text := t.text[..|t.text| - 1], wrapped := false) else t
    else
      var text := t.text + [Typed(Cell(c, t.color))];
      t.(text := text, wrapped := |text| % COLS == 0, top := Slide(t.top, |t.text|))
  }

  function Draw(s: Screen, e: Event): (t: Screen)
    requires Ok(s)
    ensures Ok(t)
  {
    match e
    case Print(c) => Put(s, c)
    case SetColor(color) => s.(color := color)
  }

  function DrawAll(s: Screen, es: seq<Event>): (t: Screen)
    requires Ok(s)
    ensures Ok(t)
  {
    if es == [] then s else Draw(DrawAll(s, es[..|es| - 1]), es[|es| - 1])
  }

  function Step(t: Tape, e: Event): Tape {
    match e
    case Print(c) => Type(t, c)
    case SetColor(color) => t.(color := color)
  }

  function StepAll(t: Tape, es: seq<Event>): Tape {
    if es == [] then t else Step(StepAll(t, es[..|es| - 1]), es[|es| - 1])
  }

  /** The screen is the 25-row window of the page from row `t.top` on, and its cursor stands at the page's end. */
  ghost predicate Shows(s: Screen, t: Tape) {
    && Ok(s) && s.color == t.color
    && |t.text| == COLS * t.top + Cursor(s)
    && (t.wrapped <==> s.col == COLS)
    && forall k :: 0 <= k < CELLS ==> Matches(s.cells[k], At(t.text, COLS * t.top + k))
  }

  /** The tape a screen with nothing ahead of its cursor shows. */
  function TapeOf(s: Screen): Tape
    requires Ok(s)
  {
    Tape(seq(Cursor(s), k requires 0 <= k < Cursor(s) => Typed(s.cells[k])), s.col == COLS, 0, s.color)
  }

  lemma BlankAheadIffTape(s: Screen)
    requires Ok(s)
    ensures BlankAhead(s) <==> Shows(s, TapeOf(s))
    ensures forall t :: Shows(s, t) ==> BlankAhead(s)
  {
    if Shows(s, TapeOf(s)) {
      assert forall k :: Cursor(s) <= k < CELLS ==> Matches(s.cells[k], At(TapeOf(s).text, k));
    }
    forall t, k | Shows(s, t) && Cursor(s) <= k < CELLS ensures s.cells[k].ch == SPACE {
      assert Matches(s.cells[k], At(t.text, COLS * t.top + k));
    }
  }

  lemma NewlineShows(s: Screen, t: Tape)
    requires Shows(s, t)
    ensures Shows(Newline(s), Type(t, NEWLINE))
  {
    var s', t' := Newline(s), Type(t, NEWLINE);
    forall k | 0 <= k < CELLS ensures Matches(s'.cells[k], At(t'.text, COLS * t'.top + k)) {
      if s.row < ROWS - 1 {
        assert Matches(s.cells[k], At(t.text, COLS * t.top + k));
      } else if k < CELLS - COLS {
        assert Matches(s.cells[k + COLS], At(t.text, COLS * t.top + (k + COLS)));
      }
    }
  }

  lemma BackspaceShows(s: Screen, t: Tape)
    requires Shows(s, t)
    ensures Shows(Backspace(s), Type(t, BACKSPACE))
  {
    var s', t' := Backspace(s), Type(t, BACKSPACE);
    forall k | 0 <= k < CELLS ensures Matches(s'.cells[k], At(t'.text, COLS * t'.top + k)) {
      assert Matches(s.cells[k], At(t.text, COLS * t.top + k));
    }
  }

  lemma CharShows(s: Screen, t: Tape, c: byte)
    requires Shows(s, t) && s.col < COLS && c != NEWLINE && c != BACKSPACE
    ensures Shows(Put(s, c), Type(t, c))
  {
    var s', t' := Put(s, c), Type(t, c);
    forall k | 0 <= k < CELLS ensures Matches(s'.cells[k], At(t'.text, COLS * t'.top + k)) {
      assert Matches(s.cells[k], At(t.text, COLS * t.top + k));
    }
  }

  lemma PutShows(s: Screen, t: Tape, c: byte)
    requires Shows(s, t)
    ensures Shows(Put(s, c), Type(t, c))
  {
    if c == NEWLINE {
      NewlineShows(s, t);
    } else if c == BACKSPACE {
      BackspaceShows(s, t);
    } else if s.col < COLS {
      CharShows(s, t, c);
    } else {
      NewlineShows(s, t);
      var s1, t1 := Newline(s), Type(t, NEWLINE);
      CharShows(s1, t1, c);
      assert Put(s, c) == Put(s1, c);
      assert Type(t, c) == Type(t1, c);
    }
  }

  // ----- whole streams -----

  lemma RecolorShows(s: Screen, t: Tape, color: byte)
    requires Shows(s, t)
    ensures Shows(s.(color := color), t.(color := color))
  {
    forall k | 0 <= k < CELLS ensures Matches(s.cells[k], At(t.text, COLS * t.top + k)) {
    }
  }

  /** For every stream of characters and colours, the 25 x 80 buffer is the window of the page given the same stream. */
  lemma {:induction false} ScreenRefinesTape(s: Screen, t: Tape, es: seq<Event>)
    requires Shows(s, t)
    ensures Shows(DrawAll(s, es), StepAll(t, es))
  {
    if es != [] {
      var before, e := es[..|es| - 1], es[|es| - 1];
      ScreenRefinesTape(s, t, before);
      match e
      case Print(c) => PutShows(DrawAll(s, before), StepAll(t, before), c);
      case SetColor(color) => RecolorShows(DrawAll(s, before), StepAll(t, before), color);
    }
  }

  /** From a print_clear on, whatever is printed: nothing is ever shown at or after the cursor. */
  lemma BlankAheadAlways(s: Screen, es: seq<Event>)
    requires Ok(s)
    ensures BlankAhead(Clear(s))
    ensures Shows(DrawAll(Clear(s), es), StepAll(TapeOf(Clear(s)), es))
    ensures BlankAhead(DrawAll(Clear(s), es))
  {
    BlankAheadIffTape(Clear(s));
    ScreenRefinesTape(Clear(s), TapeOf(Clear(s)), es);
    BlankAheadIffTape(DrawAll(Clear(s), es));
  }

  /** Why print_newline need not clear the row it steps onto: that row is blank already. */
  lemma NewlineRowIsBlank(s: Screen)
    requires Ok(s) && BlankAhead(s)
    ensures var t := Newline(s);
            forall k :: COLS * t.row <= k < COLS * t.row + COLS ==> t.cells[k].ch == SPACE
  {
    BlankAheadIffTape(s);
    NewlineShows(s, TapeOf(s));
    BlankAheadIffTape(Newline(s));
  }

  /** The window moves down by one row exactly when a newline or a due wrap happens on the last row. */
  lemma WindowMoves(s: Screen, t: Tape, c: byte)
    requires Shows(s, t)
    ensures Type(t, c).top
         == t.top + if s.row == ROWS - 1 && (c == NEWLINE || (c != BACKSPACE && s.col == COLS)) then 1 else 0
  {
  }

  /** Rows above the window never change again. */
  lemma {:induction false} HistoryFrozen(t: Tape, es: seq<Event>)
    requires COLS * t.top <= |t.text|
    ensures var u := StepAll(t, es);
            t.top <= u.top && COLS * u.top <= |u.text| && u.text[..COLS * t.top] == t.text[..COLS * t.top]
  {
    if es != [] {
      HistoryFrozen(t, es[..|es| - 1]);
      var u, v := StepAll(t, es[..|es| - 1]), StepAll(t, es);
      assert v.text[..COLS * t.top] == u.text[..COLS * t.top];
    }
  }

  function Prints(text: seq<byte>): seq<Event> {
    seq(|text|, i requires 0 <= i < |text| => Print(text[i]))
  }

  lemma {:induction false} PutAllDraws(s: Screen, text: seq<byte>)
    requires Ok(s)
    ensures DrawAll(s, Prints(text)) == PutAll(s, text)
  {
    if text != [] {
      PutAllDraws(s, text[..|text| - 1]);
      assert Prints(text)[..|text| - 1] == Prints(text[..|text| - 1]);
    }
  }
}
