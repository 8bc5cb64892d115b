// print.c: the VGA text buffer as bytes in memory, rewritten in place through memory_copy and memory_move.
module Console {
  import opened Bytes
  import Memory
  import opened Screens
  import opened Editor
  import opened Numbers
  import opened CStrings

  /** The cells stored from `vga` on: two bytes each, character then colour. */
  function CellsOf(m: seq<byte>, vga: nat): (cells: seq<Cell>)
    requires vga + 2 * CELLS <= |m|
    ensures |cells| == CELLS
  {
    seq(CELLS, k requires 0 <= k < CELLS => Cell(m[vga + 2 * k], m[vga + 2 * k + 1]))
  }

  /** Only the window and the two-byte temporary on the stack have been written. */
  ghost predicate OnlyWindow(m: seq<byte>, m': seq<byte>, vga: nat, tmp: nat) {
    |m| == |m'|
    && forall x :: 0 <= x < |m| && !(vga <= x < vga + 2 * CELLS) && !(tmp <= x < tmp + 2) ==> m[x] == m'[x]
  }

  lemma WrittenCells(m: seq<byte>, m': seq<byte>, vga: nat, tmp: nat, k: nat, c: Cell)
    requires vga + 2 * CELLS <= |m| == |m'| && k < CELLS
    requires tmp + 2 <= vga || vga + 2 * CELLS <= tmp
    requires m'[vga + 2 * k] == c.ch && m'[vga + 2 * k + 1] == c.color
    requires forall x :: 0 <= x < |m| && !(vga + 2 * k <= x < vga + 2 * k + 2) && !(tmp <= x < tmp + 2) ==> m[x] == m'[x]
    ensures CellsOf(m', vga) == CellsOf(m, vga)[k := c]
    ensures OnlyWindow(m, m', vga, tmp)
  {
  }

  lemma ScrolledCells(m: seq<byte>, vga: nat, tmp: nat)
    requires vga + 2 * CELLS <= |m|
    ensures var m' := Memory.Moved(m, vga, vga + 2 * COLS, 2 * (CELLS - COLS));
            CellsOf(m', vga) == CellsOf(m, vga)[COLS..] + CellsOf(m, vga)[CELLS - COLS..]
            && OnlyWindow(m, m', vga, tmp)
  {
  }

  lemma OnlyWindowSelf(m: seq<byte>, vga: nat, tmp: nat)
    ensures OnlyWindow(m, m, vga, tmp)
  {
  }

  lemma OnlyWindowTwice(a: seq<byte>, b: seq<byte>, c: seq<byte>, vga: nat, tmp: nat)
    requires OnlyWindow(a, b, vga, tmp) && OnlyWindow(b, c, vga, tmp)
    ensures OnlyWindow(a, c, vga, tmp)
  {
  }

  /** The first loop of print_dec: the digits in reverse, at most ten of them. */
  method Collect(number: uint32, buffer: array<byte>) returns (i: nat)
    requires buffer.Length == 11
    modifies buffer
    ensures i == |Body(number, 10)| <= 10
    ensures forall j :: 0 <= j < i ==> buffer[j] == Body(number, 10)[i - 1 - j]
  {
    i := 0;
    var n := number;
    ghost var full := Body(number, 10);
    TenDigits(number);
    while n > 0
      invariant 0 <= i && i + |Body(n, 10)| == |full| <= 10 && Body(n, 10) == full[..|full| - i]
      invariant forall j :: 0 <= j < i ==> buffer[j] == full[|full| - 1 - j]
    {
      buffer[i] := DigitChar(n % 10);
      i := i + 1;
      n := n / 10;
    }
  }

  /** The loop of print_int: the digits in order, ending just before the last byte. */
  method FillBack(number: uint32, buffer: array<byte>) returns (i: nat)
    requires buffer.Length == 11 && buffer[10] == 0 && number > 0
    modifies buffer
    ensures i <= 10 && Text(buffer[i..]) == Body(number, 10) && 0 in buffer[i..]
  {
    i := 10;
    var n := number;
    ghost var full := Body(number, 10);
    TenDigits(number);
    BodyDigits(number, 10);
    while n > 0 && i > 0
      invariant 0 <= i <= 10 && |Body(n, 10)| == |full| - (10 - i) && Body(n, 10) == full[..|full| - (10 - i)]
      invariant forall j :: i <= j < 10 ==> buffer[j] == full[|full| - 10 + j]
      invariant buffer[10] == 0
    {
      i := i - 1;
      buffer[i] := DigitChar(n % 10);
      n := n / 10;
    }
    assert buffer[i..] == full + [0];
    assert 0 !in full;
    TextBody(full);
  }

  /** The cells with [lo, hi) blanked. */
  function PartCleared(cells: seq<Cell>, lo: nat, hi: nat, color: byte): (r: seq<Cell>)
    ensures |r| == |cells|
  {
    seq(|cells|, k requires 0 <= k < |cells| => if lo <= k < hi then Cell(SPACE, color) else cells[k])
  }

  function RowCleared(cells: seq<Cell>, r: nat, color: byte): (cs: seq<Cell>)
    ensures |cs| == |cells|
  {
    PartCleared(cells, COLS * r, COLS * r + COLS, color)
  }

  lemma ScrolledAndCleared(cells: seq<Cell>, color: byte)
    requires |cells| == CELLS
    ensures RowCleared(cells[COLS..] + cells[CELLS - COLS..], ROWS - 1, color)
         == cells[COLS..] + BlankRow(color)
  {
  }

  /** What is left of the number without its last `i` hexadecimal digits. */
  function Nibbles(number: nat, i: nat): nat {
    if i == 0 then number else Nibbles(number, i - 1) / 16
  }

  lemma EightNibbles(number: uint32)
    ensures Nibbles(number, 8) == 0
  {
    assert Nibbles(number, 1) == number / 16;
    assert Nibbles(number, 2) == number / 256;
    assert Nibbles(number, 3) == number / 4096;
    assert Nibbles(number, 4) == number / 65536;
    assert Nibbles(number, 5) == number / 1048576;
    assert Nibbles(number, 6) == number / 16777216;
    assert Nibbles(number, 8) == Nibbles(number, 6) / 16 / 16;
  }

  class Console {
    const mem: array<byte>
    const vga: nat     // where `buffer` points: 0xb8000 on the machine
    const tmp: nat     // where the compiler keeps the two-byte struct Char temporaries
    var row: nat
    var col: nat
    var color: byte

    ghost predicate Valid()
      reads this
    {
      && vga + 2 * CELLS <= mem.Length && tmp + 2 <= mem.Length
      && (tmp + 2 <= vga || vga + 2 * CELLS <= tmp)
      && row < ROWS && col <= COLS
    }

    ghost function Abs(): (s: Screen)
      requires Valid()
      reads this, mem
      ensures Ok(s)
    {
      Screen(CellsOf(mem[..], vga), row, col, color)
    }

    /** Power-on: any bytes in the window, the cursor at the top left. */
    constructor (mem: array<byte>, vga: nat, tmp: nat)
      requires vga + 2 * CELLS <= mem.Length && tmp + 2 <= mem.Length
      requires tmp + 2 <= vga || vga + 2 * CELLS <= tmp
      ensures Valid() && this.mem == mem && this.vga == vga && this.tmp == tmp
      ensures row == 0 && col == 0 && color == 15
    {
      this.mem, this.vga, this.tmp := mem, vga, tmp;
      row, col, color := 0, 0, 15;
    }

    /** One cell in the current colour, by way of a temporary on the stack and memory_copy. */
    method WriteCell(k: nat, ch: byte)
      requires Valid() && k < CELLS
      modifies mem
      ensures Valid() && Abs() == old(Abs()).(cells := old(Abs()).cells[k := Cell(ch, color)])
      ensures OnlyWindow(old(mem[..]), mem[..], vga, tmp)
    {
      ghost var m := mem[..];
      mem[tmp] := ch;
      mem[tmp + 1] := color;
      Memory.Copy(mem, vga + 2 * k, tmp, 2);
      WrittenCells(m, mem[..], vga, tmp, k, Cell(ch, color));
    }

    /** print_set_color: eight bits of colour. */
    method SetColor(foreground: byte, background: byte)
      requires Valid()
      modifies this`color
      ensures Valid() && Abs() == old(Abs()).(color := (foreground + 16 * background) % 256)
    {
      color := (foreground + 16 * background) % 256;
    }

    /** clear_row. */
    method ClearRow(r: nat)
      requires Valid() && r < ROWS
      modifies mem
      ensures Valid()
      ensures Abs() == old(Abs()).(cells := RowCleared(old(Abs()).cells, r, color))
      ensures forall k :: 0 <= k < 2000 ==>
                Abs().cells[k] == if 80 * r <= k < 80 * r + 80 then Cell(32, color) else old(Abs()).cells[k]
      ensures OnlyWindow(old(mem[..]), mem[..], vga, tmp)
    {
      var c := 0;
      while c < COLS
        invariant c <= COLS && Valid() && Abs().color == color
        invariant Abs() == old(Abs()).(cells := PartCleared(old(Abs()).cells, COLS * r, COLS * r + c, color))
        invariant OnlyWindow(old(mem[..]), mem[..], vga, tmp)
      {
        ghost var m, cells := mem[..], old(Abs()).cells;
        WriteCell(c + COLS * r, SPACE);
        OnlyWindowTwice(old(mem[..]), m, mem[..], vga, tmp);
        assert PartCleared(cells, COLS * r, COLS * r + c, color)[COLS * r + c := Cell(SPACE, color)]
            == PartCleared(cells, COLS * r, COLS * r + c + 1, color);
        c := c + 1;
      }
    }

    /** Every cell is two bytes of memory, the character and then the colour. */
    lemma AbsBytes(k: nat)
      requires Valid() && k < 2000
      ensures |Abs().cells| == 2000 && Abs().cells[k] == Cell(mem[vga + 2 * k], mem[vga + 2 * k + 1])
      ensures Abs().row == row && Abs().col == col && Abs().color == color
    {
    }

    /** print_clear: every row, but not the column. */
    method PrintClear()
      requires Valid()
      modifies this`row, mem
      ensures Valid() && Abs() == Clear(old(Abs()))
      ensures row == 0 && col == old(col)
      ensures forall k :: 0 <= k < 2000 ==> mem[vga + 2 * k] == 32 && mem[vga + 2 * k + 1] == color
      ensures OnlyWindow(old(mem[..]), mem[..], vga, tmp)
    {
      row := 0;
      var i := 0;
      while i < ROWS
        invariant i <= ROWS && Valid() && row == 0
        invariant Abs() == old(Abs()).(row := 0, cells := PartCleared(old(Abs()).cells, 0, COLS * i, color))
        invariant OnlyWindow(old(mem[..]), mem[..], vga, tmp)
      {
        ghost var m, cells := mem[..], old(Abs()).cells;
        ClearRow(i);
        OnlyWindowTwice(old(mem[..]), m, mem[..], vga, tmp);
        assert RowCleared(PartCleared(cells, 0, COLS * i, color), i, color) == PartCleared(cells, 0, COLS * (i + 1), color);
        i := i + 1;
      }
      assert PartCleared(old(Abs()).cells, 0, CELLS, color) == Clear(old(Abs())).cells;
      forall k | 0 <= k < 2000 ensures mem[vga + 2 * k] == 32 && mem[vga + 2 * k + 1] == color {
        AbsBytes(k);
        ClearMeans(old(Abs()));
      }
    }

    /** memory_move every row up by one row of bytes. */
    method MoveUp()
      requires Valid()
      modifies mem
      ensures Valid()
      ensures Abs() == old(Abs()).(cells := old(Abs()).cells[COLS..] + old(Abs()).cells[CELLS - COLS..])
      ensures OnlyWindow(old(mem[..]), mem[..], vga, tmp)
    {
      hide CellsOf, OnlyWindow, Memory.Moved;
      ghost var m := mem[..];
      Memory.Move(mem, vga, vga + 2 * COLS, (ROWS - 1) * COLS * 2);
      ScrolledCells(m, vga, tmp);
    }

    /** The scrolling half of print_newline. */
    method Scroll()
      requires Valid()
      modifies mem
      ensures Valid()
      ensures Abs() == old(Abs()).(cells := old(Abs()).cells[COLS..] + BlankRow(color))
      ensures OnlyWindow(old(mem[..]), mem[..], vga, tmp)
    {
      ghost var m := mem[..];
      MoveUp();
      ghost var m1 := mem[..];
      ClearRow(ROWS - 1);
      OnlyWindowTwice(m, m1, mem[..], vga, tmp);
      ScrolledAndCleared(old(Abs()).cells, color);
    }

    /** print_newline: step down without clearing, or scroll with memory_move and clear the last row. */
    method PrintNewline()
      requires Valid()
      modifies this`row, this`col, mem
      ensures Valid() && Abs() == Newline(old(Abs()))
      ensures OnlyWindow(old(mem[..]), mem[..], vga, tmp)
    {
      col := 0;
      if row < ROWS - 1 {
        row := row + 1;
      } else {
        Scroll();
      }
    }

    /** print_char. */
    method PrintChar(character: byte)
      requires Valid()
      modifies this`row, this`col, mem
      ensures Valid() && Abs() == Put(old(Abs()), character)
      ensures OnlyWindow(old(mem[..]), mem[..], vga, tmp)
    {
      if character == NEWLINE {
        PrintNewline();
        return;
      }
      if character == BACKSPACE {
        if col == 0 && row > 0 {
          row := row - 1;
          col := COLS - 1;
        } else if col > 0 {
          col := col - 1;
        }
        WriteCell(col + COLS * row, SPACE);
        return;
      }
      ghost var m := mem[..];
      if col >= COLS {
        PrintNewline();
      }
      ghost var m1 := mem[..];
      WriteCell(col + COLS * row, character);
      OnlyWindowTwice(m, m1, mem[..], vga, tmp);
      col := col + 1;
    }

    /** print_str, up to the string's NUL. */
    method PrintStr(str: seq<byte>)
      requires Valid() && 0 in str
      modifies this`row, this`col, mem
      ensures Valid() && Abs() == PutAll(old(Abs()), Text(str))
      ensures OnlyWindow(old(mem[..]), mem[..], vga, tmp)
    {
      var i := 0;
      while str[i] != 0
        invariant i <= |Text(str)| && i < |str| && Valid()
        invariant Abs() == PutAll(old(Abs()), Text(str)[..i])
        invariant OnlyWindow(old(mem[..]), mem[..], vga, tmp)
        decreases |str| - i
      {
        ghost var m := mem[..];
        TextEnds(str);
        assert i < |Text(str)| && str[i] == Text(str)[i];
        PrintChar(str[i]);
        OnlyWindowTwice(old(mem[..]), m, mem[..], vga, tmp);
        assert Text(str)[..i + 1][..i] == Text(str)[..i];
        i := i + 1;
      }
      InText(str, i);
      assert Text(str)[..i] == Text(str);
    }

    /** Inside read_input's loop: the buffer holds the text, the screen its echo. */
    ghost predicate Editing(s0: Screen, e: Edit, buf: array<byte>, size: nat)
      reads this, mem, buf
    {
      && Valid() && Ok(s0) && size <= buf.Length && |e.text| < size
      && buf[..size] == Padded(e.text, size)
      && Abs() == PutAll(s0, e.out)
    }

    lemma EditingStarts(buf: array<byte>, size: nat)
      requires Valid() && 0 < size <= buf.Length && forall j :: 0 <= j < size ==> buf[j] == 0
      ensures Editing(Abs(), Edit([], [], false), buf, size)
    {
      assert buf[..size] == Padded([], size);
    }

    lemma EditingDone(s0: Screen, e: Edit, buf: array<byte>, size: nat)
      requires Editing(s0, e, buf, size)
      ensures Editing(s0, e.(done := true), buf, size)
    {
    }

    lemma EditingOut(s0: Screen, e: Edit, buf: array<byte>, size: nat)
      requires Editing(s0, e, buf, size)
      ensures Valid() && Ok(s0) && |e.text| < size <= buf.Length
      ensures buf[..size] == Padded(e.text, size) && Abs() == PutAll(s0, e.out)
    {
    }

    lemma EditingIn(s0: Screen, e: Edit, buf: array<byte>, size: nat)
      requires Valid() && Ok(s0) && |e.text| < size <= buf.Length
      requires buf[..size] == Padded(e.text, size) && Abs() == PutAll(s0, e.out)
      ensures Editing(s0, e, buf, size)
    {
    }

    /** A key other than Enter in read_input's loop. */
    method OneKey(buf: array<byte>, size: nat, c: byte, i: nat, ghost s0: Screen, ghost e: Edit)
      returns (next: nat)
      requires Editing(s0, e, buf, size) && buf != mem
      requires !e.done && |e.text| == i && i < size - 1 && size <= buf.Length
      requires c != NEWLINE && c != RETURN
      modifies this`row, this`col, mem, buf
      ensures var e' := Press(e, c, size);
              Editing(s0, e', buf, size) && !e'.done && next == |e'.text|
      ensures buf[size..] == old(buf[size..])
      ensures OnlyWindow(old(mem[..]), mem[..], vga, tmp)
    {
      hide *;
      next := i;
      EditingOut(s0, e, buf, size);
      OnlyWindowSelf(mem[..], vga, tmp);
      if c == BACKSPACE {
        PressErases(e, size);
        if next > 0 {
          next := next - 1;
          PrintChar(BACKSPACE);
          buf[next] := 0;
          PutAllSnoc(s0, e.out, BACKSPACE);
          PaddedCut(e.text, size);
          assert buf[..size] == old(buf[..size])[next := 0];
        }
      } else {
        PressTypes(e, c, size);
        buf[next] := c;
        next := next + 1;
        PrintChar(c);
        PutAllSnoc(s0, e.out, c);
        PaddedPut(e.text, size, c);
        assert buf[..size] == old(buf[..size])[i := c];
      }
      EditingIn(s0, Press(e, c, size), buf, size);
    }

    /** The loop of read_input, on the keys get_char delivers; when they run out before Enter,
        the state is that of the wait for the next one. */
    method KeyLoop(buf: array<byte>, size: nat, keys: seq<byte>, ghost s0: Screen) returns (i: nat)
      requires Editing(s0, Edit([], [], false), buf, size) && buf != mem && size <= buf.Length
      modifies this`row, this`col, mem, buf
      ensures Editing(s0, PressAll(keys, size), buf, size) && i == |PressAll(keys, size).text|
      ensures buf[size..] == old(buf[size..])
      ensures OnlyWindow(old(mem[..]), mem[..], vga, tmp)
    {
      hide PutAll, Put, Press, PressAll, Editing;
      i := 0;
      var k := 0;
      assert keys[..0] == [];
      PressNothing(size);
      while i < size - 1 && k < |keys|
        invariant k <= |keys| && Editing(s0, PressAll(keys[..k], size), buf, size)
        invariant !PressAll(keys[..k], size).done && |PressAll(keys[..k], size).text| == i
        invariant buf[size..] == old(buf[size..])
        invariant OnlyWindow(old(mem[..]), mem[..], vga, tmp)
        decreases |keys| - k
      {
        var c := keys[k];
        ghost var e, m := PressAll(keys[..k], size), mem[..];
        PressNext(keys, k, size);
        if c == NEWLINE || c == RETURN {
          PressEnter(e, c, size);
          EditingDone(s0, e, buf, size);
          PressEnds(keys, k + 1, size);
          return;
        }
        i := OneKey(buf, size, c, i, s0, e);
        OnlyWindowTwice(old(mem[..]), m, mem[..], vga, tmp);
        k := k + 1;
      }
      PressEnds(keys, k, size);
    }

    /** read_input: clear the buffer, edit until Enter or a full buffer, and end the text with a NUL. */
    method ReadInput(buf: array<byte>, size: nat, keys: seq<byte>)
      requires Valid() && buf != mem && 0 < size <= buf.Length
      modifies this`row, this`col, mem, buf
      ensures var e := PressAll(keys, size);
              && Editing(old(Abs()), e, buf, size) && Agrees(old(Abs()), Abs(), e.text, size)
              && |e.text| < size && forall j :: 0 <= j < size ==> buf[j] == if j < |e.text| then e.text[j] else 0
      ensures buf[size..] == old(buf[size..])
      ensures OnlyWindow(old(mem[..]), mem[..], vga, tmp)
    {
      Memory.Set(buf, 0, 0, size);
      EditingStarts(buf, size);
      var i := KeyLoop(buf, size, keys, Abs());
      buf[i] := 0;
      assert buf[..size] == Padded(PressAll(keys, size).text, size);
      EditorAgrees(old(Abs()), keys, size);
      assert forall j :: 0 <= j < size ==> buf[j] == buf[..size][j];
    }

    lemma PutAllNone(s: Screen, text: seq<byte>)
      requires Ok(s)
      ensures PutAll(s, text[..0]) == s
    {
    }

    /** The second loop of print_dec. */
    method PrintBack(buffer: array<byte>, count: nat, ghost full: seq<byte>)
      requires Valid() && buffer != mem && count == |full| <= buffer.Length
      requires forall j :: 0 <= j < count ==> buffer[j] == full[count - 1 - j]
      modifies this`row, this`col, mem
      ensures Valid() && Abs() == PutAll(old(Abs()), full)
      ensures OnlyWindow(old(mem[..]), mem[..], vga, tmp)
    {
      hide PutAll, Put, OnlyWindow;
      ghost var s0, digits := Abs(), buffer[..];
      var i := count;
      PutAllNone(s0, full);
      OnlyWindowSelf(mem[..], vga, tmp);
      while i > 0
        invariant 0 <= i <= count && Valid() && buffer[..] == digits
        invariant Abs() == PutAll(s0, full[..count - i])
        invariant OnlyWindow(old(mem[..]), mem[..], vga, tmp)
      {
        i := i - 1;
        ghost var m := mem[..];
        PrintChar(buffer[i]);
        OnlyWindowTwice(old(mem[..]), m, mem[..], vga, tmp);
        assert full[..count - i] == full[..count - i - 1] + [digits[i]];
        PutAllSnoc(s0, full[..count - i - 1], digits[i]);
      }
      assert full[..count] == full;
    }

    lemma PutAllDigits(s: Screen, number: uint32)
      requires Ok(s) && number > 0
      ensures PutAll(s, Body(number, 10)) == PutAll(s, Digits(number, 10))
    {
    }

    /** print_dec: digits collected backwards in an 11-byte buffer, then printed from its end. */
    method PrintDec(number: uint32)
      requires Valid()
      modifies this`row, this`col, mem
      ensures Valid() && Abs() == PutAll(old(Abs()), Digits(number, 10))
      ensures OnlyWindow(old(mem[..]), mem[..], vga, tmp)
    {
      if number == 0 {
        PrintChar(ZERO);
        assert [ZERO][..0] == [];
        return;
      }
      var buffer := new byte[11];
      var i := Collect(number, buffer);
      PrintBack(buffer, i, Body(number, 10));
      PutAllDigits(old(Abs()), number);
    }

    /** print_int: digits filled in from the end of a zeroed 11-byte buffer, printed as a string. */
    method PrintInt(number: uint32)
      requires Valid()
      modifies this`row, this`col, mem
      ensures Valid() && Abs() == PutAll(old(Abs()), Digits(number, 10))
      ensures OnlyWindow(old(mem[..]), mem[..], vga, tmp)
    {
      if number == 0 {
        TextBody([ZERO]);
        PrintStr([ZERO, 0]);
        return;
      }
      var buffer := new byte[11];
      Memory.Set(buffer, 0, 0, 11);
      var i := FillBack(number, buffer);
      PrintStr(buffer[i..]);
      PutAllDigits(old(Abs()), number);
    }

    /** The loop of print_hex: every digit from the first one that is not 0. */
    method PrintNibbles(number: uint32)
      requires Valid()
      modifies this`row, this`col, mem
      ensures Valid() && Abs() == PutAll(old(Abs()), Body(number, 16))
      ensures OnlyWindow(old(mem[..]), mem[..], vga, tmp)
    {
      var started := false;
      var i := 7;
      EightNibbles(number);
      while i >= 0
        invariant -1 <= i <= 7 && Valid()
        invariant started <==> Nibbles(number, i + 1) != 0
        invariant Abs() == PutAll(old(Abs()), Body(Nibbles(number, i + 1), 16))
        invariant OnlyWindow(old(mem[..]), mem[..], vga, tmp)
      {
        var digit := Nibbles(number, i) % 16;
        assert Nibbles(number, i + 1) == Nibbles(number, i) / 16;
        if digit != 0 || started {
          ghost var m := mem[..];
          PrintChar(DigitChar(digit));
          OnlyWindowTwice(old(mem[..]), m, mem[..], vga, tmp);
          ghost var b := Body(Nibbles(number, i), 16);
          assert b == Body(Nibbles(number, i + 1), 16) + [DigitChar(digit)];
          assert b[..|b| - 1] == Body(Nibbles(number, i + 1), 16);
          started := true;
        }
        i := i - 1;
      }
    }

    lemma HexText(s: Screen, number: uint32)
      requires Ok(s)
      ensures Text([48, 120, 0]) == [48, 120] && Text([48, 120, 48, 0]) == [48, 120, 48]
      ensures number > 0 ==> PutAll(PutAll(s, [48, 120]), Body(number, 16)) == PutAll(s, [48, 120] + Digits(number, 16))
      ensures number == 0 ==> [48, 120, 48] == [48, 120] + Digits(number, 16)
    {
      TextBody([48, 120]);
      TextBody([48, 120, 48]);
      assert [48, 120] + [0] == [48, 120, 0] && [48, 120, 48] + [0] == [48, 120, 48, 0];
      PutAllConcat(s, [48, 120], Body(number, 16));
    }

    /** print_hex: "0x" and the digits. */
    method PrintHex(number: uint32)
      requires Valid()
      modifies this`row, this`col, mem
      ensures Valid() && Abs() == PutAll(old(Abs()), [48, 120] + Digits(number, 16))
      ensures OnlyWindow(old(mem[..]), mem[..], vga, tmp)
    {
      hide *;
      HexText(Abs(), number);
      if number == 0 {
        PrintStr([48, 120, 48, 0]);
        return;
      }
      PrintStr([48, 120, 0]);
      ghost var m := mem[..];
      PrintNibbles(number);
      OnlyWindowTwice(old(mem[..]), m, mem[..], vga, tmp);
    }
  }
}
