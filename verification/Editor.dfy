// read_input, seen from above: what a stream of keys leaves in the buffer and on the screen.
module Editor {
  import opened Bytes
  import opened Screens
  import opened Tapes

  /** The text in the buffer, the characters echoed so far, and whether Enter ended the line. */
  datatype Edit = Edit(text: seq<byte>, out: seq<byte>, done: bool)

  /** One key, for a buffer of `n` bytes; a full buffer ends the loop as well. */
  function Press(e: Edit, key: byte, n: nat): Edit {
    if e.done || |e.text| + 1 >= n then e
    else if key == NEWLINE || key == RETURN then e.(done := true)
    else if key == BACKSPACE then
      if e.text == [] then e else e.(text := e.text[..|e.text| - 1], out := e.out + [BACKSPACE])
    else e.(text := e.text + [key], out := e.out + [key])
  }

  function PressAll(keys: seq<byte>, n: nat): Edit {
    if keys == [] then Edit([], [], false) else Press(PressAll(keys[..|keys| - 1], n), keys[|keys| - 1], n)
  }

  function Glyphs(text: seq<byte>, color: byte): seq<Glyph> {
    seq(|text|, i requires 0 <= i < |text| => Typed(Cell(text[i], color)))
  }

  /** The start of the line can never scroll off: checked from the cursor's column and the buffer size alone. */
  predicate LineFits(start: nat, n: nat) { 0 < n && start % COLS + n <= CELLS + 1 }

  lemma StartStays(start: nat, n: nat, top: nat)
    requires LineFits(start, n) && COLS * (top + ROWS - 1) <= start + n - 2
    ensures COLS * top <= start
  {
  }

  /** Keys after the end of the line are not read. */
  lemma {:induction false} PressAfterEnd(keys: seq<byte>, k: nat, n: nat)
    requires k <= |keys|
    requires var e := PressAll(keys[..k], n); e.done || |e.text| + 1 >= n
    ensures PressAll(keys, n) == PressAll(keys[..k], n)
    decreases |keys|
  {
    if k == |keys| {
      assert keys[..k] == keys;
    } else {
      assert keys[..|keys| - 1][..k] == keys[..k];
      PressAfterEnd(keys[..|keys| - 1], k, n);
    }
  }

  lemma PressNext(keys: seq<byte>, k: nat, n: nat)
    requires k < |keys|
    ensures PressAll(keys[..k + 1], n) == Press(PressAll(keys[..k], n), keys[k], n)
  {
    assert keys[..k + 1][..k] == keys[..k];
  }

  lemma PressEnds(keys: seq<byte>, k: nat, n: nat)
    requires k <= |keys|
    requires var e := PressAll(keys[..k], n); k == |keys| || e.done || |e.text| + 1 >= n
    ensures PressAll(keys, n) == PressAll(keys[..k], n)
  {
    if k == |keys| {
      assert keys[..k] == keys;
    } else {
      PressAfterEnd(keys, k, n);
    }
  }

  lemma PressEnter(e: Edit, key: byte, n: nat)
    requires !e.done && |e.text| + 1 < n && (key == NEWLINE || key == RETURN)
    ensures Press(e, key, n) == e.(done := true)
  {
  }

  lemma PressNothing(n: nat)
    ensures PressAll([], n) == Edit([], [], false)
  {
  }

  lemma PressSnoc(keys: seq<byte>, key: byte, n: nat)
    ensures PressAll(keys + [key], n) == Press(PressAll(keys, n), key, n)
  {
    assert (keys + [key])[..|keys + [key]| - 1] == keys;
  }

  // ----- what keys mean for the text -----

  ghost predicate SameLine(e: Edit, f: Edit) { e.text == f.text && e.done == f.done }

  lemma {:induction false} SameLineOn(a: seq<byte>, a': seq<byte>, b: seq<byte>, n: nat)
    requires SameLine(PressAll(a, n), PressAll(a', n))
    ensures SameLine(PressAll(a + b, n), PressAll(a' + b, n))
  {
    if b == [] {
      assert a + b == a && a' + b == a';
    } else {
      var c := b[..|b| - 1];
      SameLineOn(a, a', c, n);
      assert (a + b)[..|a + b| - 1] == a + c && (a' + b)[..|a' + b| - 1] == a' + c;
    }
  }

  /** A backspace takes back the last character typed, and does nothing on an empty line, whatever follows. */
  lemma BackspaceUndoes(a: seq<byte>, c: byte, b: seq<byte>, n: nat)
    requires c != 8 && c != 10 && c != 13 && |PressAll(a, n).text| + 2 < n
    ensures PressAll(a + [c, 8] + b, n).text == PressAll(a + b, n).text
    ensures PressAll(a, n).text == [] ==> PressAll(a + [8] + b, n).text == PressAll(a + b, n).text
  {
    assert a + [c, 8] == a + [c] + [8];
    PressSnoc(a, c, n);
    PressSnoc(a + [c], 8, n);
    PressSnoc(a, 8, n);
    SameLineOn(a + [c, 8], a, b, n);
    if PressAll(a, n).text == [] {
      SameLineOn(a + [8], a, b, n);
    }
  }

  /** Either Enter ends the line: what was typed before is the text, and what follows is not read. */
  lemma EnterEnds(a: seq<byte>, key: byte, b: seq<byte>, n: nat)
    requires key == 10 || key == 13
    ensures PressAll(a + [key] + b, n).text == PressAll(a, n).text
  {
    PressSnoc(a, key, n);
    assert (a + [key] + b)[..|a| + 1] == a + [key];
    PressAfterEnd(a + [key] + b, |a| + 1, n);
  }

  /** A full buffer ends the line too, with one byte left for the NUL. */
  lemma FullLineEnds(a: seq<byte>, b: seq<byte>, n: nat)
    requires |PressAll(a, n).text| + 1 >= n
    ensures PressAll(a + b, n).text == PressAll(a, n).text
  {
    assert (a + b)[..|a|] == a;
    PressAfterEnd(a + b, |a|, n);
  }

  /** What the buffer of `n` bytes holds for a text: the text, then zeros. */
  function Padded(text: seq<byte>, n: nat): seq<byte>
    requires |text| <= n
  {
    text + seq(n - |text|, _ => 0)
  }

  lemma PaddedPut(text: seq<byte>, n: nat, c: byte)
    requires |text| < n
    ensures Padded(text, n)[|text| := c] == Padded(text + [c], n)
  {
  }

  lemma PaddedCut(text: seq<byte>, n: nat)
    requires 0 < |text| <= n
    ensures Padded(text, n)[|text| - 1 := 0] == Padded(text[..|text| - 1], n)
  {
  }

  lemma PressTypes(e: Edit, key: byte, n: nat)
    requires !e.done && |e.text| + 1 < n && key != NEWLINE && key != RETURN && key != BACKSPACE
    ensures Press(e, key, n) == Edit(e.text + [key], e.out + [key], false)
  {
  }

  lemma PressErases(e: Edit, n: nat)
    requires !e.done && |e.text| + 1 < n
    ensures Press(e, BACKSPACE, n)
         == if e.text == [] then e else Edit(e.text[..|e.text| - 1], e.out + [BACKSPACE], false)
  {
  }

  /** The tape `u` is the tape `t` followed by the typed text, and its window has not left the line's start. */
  ghost predicate Extends(t: Tape, u: Tape, text: seq<byte>, n: nat) {
    && u.color == t.color && u.text == t.text + Glyphs(text, t.color)
    && t.top <= u.top && COLS * u.top <= |t.text|
    && (u.top == t.top || COLS * (u.top + ROWS - 1) <= |t.text| + n - 2)
  }

  lemma TypeExtends(t: Tape, u: Tape, text: seq<byte>, key: byte, n: nat)
    requires LineFits(|t.text|, n) && |text| + 2 <= n && key != NEWLINE && key != BACKSPACE
    requires Extends(t, u, text, n)
    ensures Extends(t, Type(u, key), text + [key], n)
  {
    assert Glyphs(text + [key], t.color) == Glyphs(text, t.color) + [Typed(Cell(key, t.color))];
    var v := Type(u, key);
    assert v.text == t.text + Glyphs(text + [key], t.color);
    if v.top != u.top {
      assert COLS * (v.top + ROWS - 1) <= |u.text|;
      StartStays(|t.text|, n, v.top);
    }
  }

  lemma UntypeExtends(t: Tape, u: Tape, text: seq<byte>, n: nat)
    requires text != [] && Extends(t, u, text, n)
    ensures Extends(t, Type(u, BACKSPACE), text[..|text| - 1], n)
  {
    var v := Type(u, BACKSPACE);
    assert v.text == t.text + Glyphs(text[..|text| - 1], t.color);
  }

  lemma PressExtends(t: Tape, e0: Edit, key: byte, n: nat)
    requires LineFits(|t.text|, n) && Extends(t, StepAll(t, Prints(e0.out)), e0.text, n)
    ensures var e := Press(e0, key, n); Extends(t, StepAll(t, Prints(e.out)), e.text, n)
  {
    hide Extends, Type;
    var e, u0 := Press(e0, key, n), StepAll(t, Prints(e0.out));
    if e.out != e0.out {
      assert Prints(e.out)[..|e.out| - 1] == Prints(e0.out);
      if key == BACKSPACE {
        UntypeExtends(t, u0, e0.text, n);
      } else {
        TypeExtends(t, u0, e0.text, key, n);
      }
    }
  }

  /** Taking back keys takes back tape, and nothing else. */
  lemma {:induction false} EditTape(t: Tape, keys: seq<byte>, n: nat)
    requires COLS * t.top <= |t.text| && LineFits(|t.text|, n)
    ensures var e := PressAll(keys, n); Extends(t, StepAll(t, Prints(e.out)), e.text, n)
  {
    if keys == [] {
      assert t.text + Glyphs([], t.color) == t.text;
    } else {
      var e0 := PressAll(keys[..|keys| - 1], n);
      EditTape(t, keys[..|keys| - 1], n);
      PressExtends(t, e0, keys[|keys| - 1], n);
    }
  }

  /** The line on the screen: `down` rows have scrolled away, what was before the line is shifted up by them,
      the cells from the line's start to the cursor are the typed text, and nothing follows. */
  ghost predicate OnScreen(s0: Screen, s: Screen, text: seq<byte>, down: nat)
    requires Ok(s0) && Ok(s)
  {
    && COLS * down <= Cursor(s0)
    && Cursor(s) + COLS * down == Cursor(s0) + |text|
    && (forall k :: 0 <= k < Cursor(s0) - COLS * down ==> s.cells[k] == s0.cells[k + COLS * down])
    && (forall k :: Cursor(s0) - COLS * down <= k < Cursor(s)
          ==> s.cells[k] == Cell(text[k - (Cursor(s0) - COLS * down)], s0.color))
    && BlankAhead(s)
  }

  lemma ExtendedOnScreen(s0: Screen, s: Screen, u: Tape, text: seq<byte>, n: nat)
    requires Ok(s0) && Shows(s, u) && Extends(TapeOf(s0), u, text, n)
    ensures OnScreen(s0, s, text, u.top)
  {
    BlankAheadIffTape(s);
    var start := Cursor(s0) - COLS * u.top;
    forall k | 0 <= k < start ensures s.cells[k] == s0.cells[k + COLS * u.top] {
      assert Matches(s.cells[k], At(u.text, COLS * u.top + k));
    }
    forall k | start <= k < Cursor(s) ensures s.cells[k] == Cell(text[k - start], s0.color) {
      assert Matches(s.cells[k], At(u.text, COLS * u.top + k));
    }
  }

  /** The line editor and the screen agree after any keys, across wraps, scrolls and row-crossing backspaces. */
  lemma EditorAndScreenAgree(s0: Screen, keys: seq<byte>, n: nat) returns (down: nat)
    requires Ok(s0) && BlankAhead(s0) && LineFits(Cursor(s0), n)
    ensures var e := PressAll(keys, n);
            OnScreen(s0, PutAll(s0, e.out), e.text, down)
  {
    var t0, e := TapeOf(s0), PressAll(keys, n);
    BlankAheadIffTape(s0);
    EditTape(t0, keys, n);
    ScreenRefinesTape(s0, t0, Prints(e.out));
    PutAllDraws(s0, e.out);
    down := StepAll(t0, Prints(e.out)).top;
    ExtendedOnScreen(s0, PutAll(s0, e.out), StepAll(t0, Prints(e.out)), e.text, n);
  }

  /** What a caller of read_input can see: nothing ahead of the cursor, and a line that fits. */
  ghost predicate Agrees(s0: Screen, s: Screen, text: seq<byte>, n: nat)
    requires Ok(s0) && Ok(s)
  {
    BlankAhead(s0) && LineFits(Cursor(s0), n) ==> exists down: nat :: OnScreen(s0, s, text, down)
  }

  lemma EditorAgrees(s0: Screen, keys: seq<byte>, n: nat)
    requires Ok(s0)
    ensures var e := PressAll(keys, n); Agrees(s0, PutAll(s0, e.out), e.text, n)
  {
    if BlankAhead(s0) && LineFits(Cursor(s0), n) {
      var down := EditorAndScreenAgree(s0, keys, n);
    }
  }

  // ----- and only then -----

  function Xs(m: nat): seq<byte> { seq(m, _ => 120) }

  lemma XsLength(s0: Screen, n: nat)
    requires 0 < n && Ok(s0) && !LineFits(Cursor(s0), n)
    ensures |Xs(n - 1)| == n - 1 > 0
  {
  }

  lemma {:induction false} FillLine(m: nat, n: nat)
    requires m < n
    ensures PressAll(Xs(m), n) == Edit(Xs(m), Xs(m), false)
  {
    if m > 0 {
      FillLine(m - 1, n);
      assert Xs(m)[..m - 1] == Xs(m - 1) && Xs(m) == Xs(m - 1) + [120];
    }
  }

  lemma {:induction false} FillTape(t: Tape, m: nat)
    ensures var u := StepAll(t, Prints(Xs(m)));
            |u.text| == |t.text| + m && (m > 0 ==> COLS * (u.top + ROWS) > |t.text| + m - 1)
  {
    if m > 0 {
      FillTape(t, m - 1);
      assert Prints(Xs(m))[..m - 1] == Prints(Xs(m - 1));
    }
  }

  lemma FilledTop(start: nat, n: nat, top: nat)
    requires 0 < n && !LineFits(start, n) && COLS * (top + ROWS) > start + n - 2
    ensures n > 1 && COLS * top > start
  {
  }

  lemma FilledCursor(s0: Screen, s: Screen, u: Tape, n: nat)
    requires Ok(s0) && 0 < n && !LineFits(Cursor(s0), n) && Shows(s, u)
    requires |u.text| == |TapeOf(s0).text| + n - 1 && COLS * (u.top + ROWS) > |TapeOf(s0).text| + n - 2
    ensures Cursor(s) < n - 1
  {
    FilledTop(Cursor(s0), n, u.top);
  }

  /** One byte more, and a full line of 'x' pushes its own first character off the screen. */
  lemma LongLineScrollsOff(s0: Screen, n: nat)
    requires Ok(s0) && BlankAhead(s0) && 0 < n && !LineFits(Cursor(s0), n)
    ensures var e := PressAll(Xs(n - 1), n);
            |e.text| == n - 1 && Cursor(PutAll(s0, e.out)) < |e.text|
  {
    hide *;
    var t0 := TapeOf(s0);
    BlankAheadIffTape(s0);
    FillLine(n - 1, n);
    XsLength(s0, n);
    FillTape(t0, n - 1);
    ScreenRefinesTape(s0, t0, Prints(Xs(n - 1)));
    PutAllDraws(s0, Xs(n - 1));
    FilledCursor(s0, PutAll(s0, Xs(n - 1)), StepAll(t0, Prints(Xs(n - 1))), n);
  }

  /** The whole line stays on the screen for every key stream exactly when it fits. */
  lemma LineStaysIffFits(s0: Screen, n: nat)
    requires Ok(s0) && BlankAhead(s0) && 0 < n
    ensures (forall keys :: |PressAll(keys, n).text| <= Cursor(PutAll(s0, PressAll(keys, n).out)))
       <==> LineFits(Cursor(s0), n)
  {
    if LineFits(Cursor(s0), n) {
      forall keys ensures |PressAll(keys, n).text| <= Cursor(PutAll(s0, PressAll(keys, n).out)) {
        var down := EditorAndScreenAgree(s0, keys, n);
      }
    } else {
      LongLineScrollsOff(s0, n);
    }
  }
}
