/** The terminal driver itself: row, column, colour and the cell buffer, updated in place. */
module Terminal {
  import opened Words
  import opened TextScreen

  class Terminal {
    var row: nat
    var column: nat
    var color: Byte
    const buffer: array<Cell>

    ghost predicate Valid()
      reads this
    {
      buffer.Length == VGA_WIDTH * VGA_HEIGHT && row < VGA_HEIGHT
    }

    /** The state as a value. */
    ghost function State(): Screen
      reads this, buffer
    {
      Screen(buffer[..], row, column, color)
    }

    constructor ()
      ensures Valid() && fresh(buffer)
    {
      row, column, color := 0, 0, 0;
      buffer := new Cell[VGA_WIDTH * VGA_HEIGHT](_ => 0);
    }

    method Initialize()
      requires buffer.Length == VGA_WIDTH * VGA_HEIGHT
      modifies this, buffer
      ensures Valid() && State() == Initial() && Shows(State(), Blank())
    {
      row, column, color := 0, 0, 7;
      for y := 0 to VGA_HEIGHT
        invariant row == column == 0 && color == 7
        invariant forall k :: 0 <= k < 80 * y ==> buffer[k] == BLANK
      {
        for x := 0 to VGA_WIDTH
          invariant row == column == 0 && color == 7
          invariant forall k :: 0 <= k < 80 * y + x ==> buffer[k] == BLANK
        {
          buffer[y * VGA_WIDTH + x] := VgaEntry(SPACE, color);
        }
      }
      assert buffer[..] == Initial().cells;
      InitialShows();
    }

    method Scroll()
      requires Valid()
      modifies buffer
      ensures buffer[..] == Scrolled(old(buffer[..]))
    {
      var rows := (25 - 257) % 0x100; // (uint8_t)(25 - 257)
      for i := 0 to rows
        invariant forall k :: 0 <= k < 80 * i ==> buffer[k] == old(buffer[k + 80])
        invariant forall k :: 80 * i <= k < 2000 ==> buffer[k] == old(buffer[k])
      {
        for j := 0 to VGA_WIDTH
          invariant forall k :: 0 <= k < 80 * i + j ==> buffer[k] == old(buffer[k + 80])
          invariant forall k :: 80 * i + j <= k < 2000 ==> buffer[k] == old(buffer[k])
        {
          buffer[i * VGA_WIDTH + j] := buffer[(i + 1) * VGA_WIDTH + j];
        }
      }
      for i := 0 to VGA_WIDTH
        invariant forall k :: 0 <= k < 1920 ==> buffer[k] == old(buffer[k + 80])
        invariant forall k :: 1920 <= k < 1920 + i ==> buffer[k] == BLANK
      {
        buffer[(VGA_HEIGHT - 1) * VGA_WIDTH + i] := BLANK;
      }
      assert buffer[..] == Scrolled(old(buffer[..]));
    }

    method SetColor(color: Byte)
      requires Valid()
      modifies this`color
      ensures Valid() && State() == Apply(old(State()), Op.SetColor(color))
    {
      this.color := color;
    }

    method PutEntryAt(c: Byte, color: Byte, x: nat, y: nat)
      requires Valid() && y * 80 + x < buffer.Length
      modifies buffer
      ensures buffer[..] == old(buffer[..])[y * 80 + x := VgaEntry(c, color)]
    {
      buffer[y * VGA_WIDTH + x] := VgaEntry(c, color);
    }

    method PutChar(c: Byte)
      requires Valid() && CanApply(State(), Put(c))
      modifies this`row, this`column, buffer
      ensures Valid() && State() == AfterChar(old(State()), c)
    {
      if c == NEWLINE {
        column := 0;
        row := row + 1;
        if row == VGA_HEIGHT {
          row := row - 1;
          Scroll();
        }
        return;
      }
      if c == TAB {
        if column + 4 > VGA_WIDTH {
          column := VGA_WIDTH;
        } else {
          column := column + 4;
        }
        return;
      }
      PutEntryAt(c, color, column, row);
      column := column + 1;
      if column == VGA_WIDTH {
        column := 0;
        row := row + 1;
        if row == VGA_HEIGHT {
          row := row - 1;
          Scroll();
        }
      }
    }

    /** terminal_write. On any screen that shows a layout in which the tabs fit, the screen goes on showing its end. */
    method Write(data: seq<Byte>)
      requires Valid() && CanRun(State(), Puts(data))
      modifies this`row, this`column, buffer
      ensures Valid() && State() == Run(old(State()), Puts(data))
      ensures forall t :: Shows(old(State()), t) && TabsFit(t, Puts(data)) ==> Shows(State(), LayAll(t, Puts(data)))
    {
      forall t | Shows(State(), t) && TabsFit(t, Puts(data))
        ensures Shows(Run(State(), Puts(data)), LayAll(t, Puts(data)))
      {
        RunShows(State(), t, Puts(data));
      }
      for i := 0 to |data|
        invariant Valid() && CanRun(State(), Puts(data[i..]))
        invariant Run(State(), Puts(data[i..])) == Run(old(State()), Puts(data))
      {
        PutsStep(data, i);
        PutChar(data[i]);
      }
    }

    lemma PutsStep(data: seq<Byte>, i: nat)
      requires i < |data|
      ensures Puts(data[i..]) == [Put(data[i])] + Puts(data[i + 1..])
      ensures Puts(data[i..])[0] == Put(data[i]) && Puts(data[i..])[1..] == Puts(data[i + 1..])
    {
      assert data[i..][1..] == data[i + 1..];
    }

    method DeleteLastChar()
      requires Valid() && Retreat(State()).InBounds()
      modifies this`row, this`column, buffer
      ensures Valid() && State() == DeleteLast(old(State()))
    {
      if column == 0 {
        if row > 0 {
          row := row - 1;
          column := VGA_WIDTH - 1;
          var i: int := column;
          while i >= 0
            invariant -1 <= i <= 79 && column == 79 && row == old(row) - 1 && buffer[..] == old(buffer[..])
            invariant LastInk(old(State()), row, VGA_WIDTH) == LastInk(old(State()), row, i + 1)
          {
            if buffer[row * VGA_WIDTH + i] % 0x100 != SPACE {
              column := i + 1;
              break;
            }
            i := i - 1;
          }
        }
      } else {
        column := column - 1;
      }
      PutEntryAt(SPACE, color, column, row);
    }
  }
}
