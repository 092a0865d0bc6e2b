/** The VGA text screen of src/drivers/vga.c as a value, and the unbounded layout it shows the end of. */
module TextScreen {
  import opened Words

  const VGA_WIDTH: nat := 80
  const VGA_HEIGHT: nat := 25
  const NEWLINE: Byte := 10
  const TAB: Byte := 9
  const SPACE: Byte := 32

  type Cell = x: nat | x < 0x1_0000

  /** `uc | color << 8` */
  function VgaEntry(c: Byte, color: Byte): Cell {
    c + 0x100 * color
  }

  /** A space in light grey on black. */
  const BLANK: Cell := 0x0720

  datatype Screen = Screen(cells: seq<Cell>, row: nat, column: nat, color: Byte) {

    predicate Valid() {
      |cells| == VGA_WIDTH * VGA_HEIGHT && row < VGA_HEIGHT
    }

    /** The cell a character would be stored to exists. */
    predicate InBounds() {
      Valid() && row * 80 + column < |cells|
    }

    /** The cursor stands on the screen. */
    predicate OnLine() {
      Valid() && column < VGA_WIDTH
    }

    function At(x: nat, y: nat): Cell
      requires Valid() && x < VGA_WIDTH && y < VGA_HEIGHT
    {
      cells[y * 80 + x]
    }
  }

  function Initial(): Screen {
    Screen(seq(2000, i => BLANK), 0, 0, 7)
  }

  // ----- One character

  function Scrolled(cells: seq<Cell>): seq<Cell>
    requires |cells| == 2000
  {
    cells[80..] + seq(80, i => BLANK)
  }

  function NextLine(s: Screen): Screen
    requires s.Valid()
  {
    if s.row + 1 == VGA_HEIGHT then Screen(Scrolled(s.cells), s.row, 0, s.color)
    else Screen(s.cells, s.row + 1, 0, s.color)
  }

  function AfterChar(s: Screen, c: Byte): (s': Screen)
    requires s.Valid() && (c == NEWLINE || c == TAB || s.InBounds())
    ensures s'.Valid()
  {
    if c == NEWLINE then NextLine(s)
    else if c == TAB then s.(column := if s.column + 4 > VGA_WIDTH then VGA_WIDTH else s.column + 4)
    else
      var s1 := s.(cells := s.cells[s.row * 80 + s.column := VgaEntry(c, s.color)], column := s.column + 1);
      if s1.column == VGA_WIDTH then NextLine(s1) else s1
  }

  datatype Op = Put(c: Byte) | SetColor(color: Byte)

  ghost predicate CanApply(s: Screen, op: Op) {
    s.Valid() && (op.Put? ==> op.c == NEWLINE || op.c == TAB || s.InBounds())
  }

  ghost function Apply(s: Screen, op: Op): (s': Screen)
    requires CanApply(s, op)
    ensures s'.Valid()
  {
    match op
    case Put(c) => AfterChar(s, c)
    case SetColor(color) => s.(color := color)
  }

  // ----- The unbounded layout

  /** All rows written so far, wrapped eagerly at 80 columns, and the current colour. */
  datatype Text = Text(rows: seq<seq<Cell>>, color: Byte)

  function Last(rows: seq<seq<Cell>>): seq<Cell>
    requires rows != []
  {
    rows[|rows| - 1]
  }

  function WithLast(rows: seq<seq<Cell>>, last: seq<Cell>): seq<seq<Cell>>
    requires rows != []
  {
    rows[|rows| - 1 := last]
  }

  function Lay(t: Text, op: Op): Text
    requires t.rows != []
  {
    match op
    case SetColor(color) => Text(t.rows, color)
    case Put(c) =>
      if c == NEWLINE then Text(t.rows + [[]], t.color)
      else if c == TAB then Text(WithLast(t.rows, Last(t.rows) + [BLANK, BLANK, BLANK, BLANK]), t.color)
      else
        var rows := WithLast(t.rows, Last(t.rows) + [VgaEntry(c, t.color)]);
        Text(if |Last(rows)| == VGA_WIDTH then rows + [[]] else rows, t.color)
  }

  /** Tabs start below column 76. */
  predicate TabFits(t: Text, op: Op)
    requires t.rows != []
  {
    op == Put(TAB) ==> |Last(t.rows)| < 76
  }

  /** What cell (x, y) should hold: the last 25 rows, padded with blanks. */
  function Visible(rows: seq<seq<Cell>>, x: nat, y: nat): Cell {
    var r := (if |rows| > VGA_HEIGHT then |rows| - VGA_HEIGHT else 0) + y;
    if r < |rows| && x < |rows[r]| then rows[r][x] else BLANK
  }

  ghost predicate Shows(s: Screen, t: Text) {
    && s.Valid() && t.rows != [] && s.color == t.color
    && (forall r :: 0 <= r < |t.rows| ==> |t.rows[r]| <= VGA_WIDTH)
    && s.column == |Last(t.rows)| < VGA_WIDTH
    && s.row == (if |t.rows| > VGA_HEIGHT then VGA_HEIGHT else |t.rows|) - 1
    && (forall x, y :: 0 <= x < VGA_WIDTH && 0 <= y < VGA_HEIGHT ==> s.At(x, y) == Visible(t.rows, x, y))
  }

  // ----- Refinement, step by step

  lemma {:induction false} StoreShows(s: Screen, t: Text, w: Cell)
    requires Shows(s, t)
    ensures var cells := s.cells[s.row * 80 + s.column := w];
      forall x, y :: 0 <= x < VGA_WIDTH && 0 <= y < VGA_HEIGHT ==>
        s.(cells := cells).At(x, y) == Visible(WithLast(t.rows, Last(t.rows) + [w]), x, y)
  {
    var rows := WithLast(t.rows, Last(t.rows) + [w]);
    var s1 := s.(cells := s.cells[s.row * 80 + s.column := w]);
    forall x, y | 0 <= x < VGA_WIDTH && 0 <= y < VGA_HEIGHT ensures s1.At(x, y) == Visible(rows, x, y) {
      assert s1.At(x, y) == if x == s.column && y == s.row then w else s.At(x, y);
      assert s.At(x, y) == Visible(t.rows, x, y);
    }
  }

  /** Starting a row on a screen that shows the rows so far, the last of them at most full. */
  lemma {:induction false} NextLineShows(s: Screen, rows: seq<seq<Cell>>)
    requires s.Valid() && rows != [] && (forall r :: 0 <= r < |rows| ==> |rows[r]| <= VGA_WIDTH)
    requires s.row == (if |rows| > VGA_HEIGHT then VGA_HEIGHT else |rows|) - 1
    requires forall x, y :: 0 <= x < VGA_WIDTH && 0 <= y < VGA_HEIGHT ==> s.At(x, y) == Visible(rows, x, y)
    ensures Shows(NextLine(s), Text(rows + [[]], s.color))
  {
    var s1 := NextLine(s);
    forall x, y | 0 <= x < VGA_WIDTH && 0 <= y < VGA_HEIGHT ensures s1.At(x, y) == Visible(rows + [[]], x, y) {
      if s.row + 1 == VGA_HEIGHT {
        assert s1.At(x, y) == if y < 24 then s.At(x, y + 1) else BLANK;
        if y < 24 {
          assert s.At(x, y + 1) == Visible(rows, x, y + 1);
        }
      } else {
        assert s1.At(x, y) == s.At(x, y) == Visible(rows, x, y);
      }
    }
  }

  lemma TabShows(s: Screen, t: Text)
    requires Shows(s, t) && TabFits(t, Put(TAB))
    ensures CanApply(s, Put(TAB)) && Shows(Apply(s, Put(TAB)), Lay(t, Put(TAB)))
  {
    var rows := Lay(t, Put(TAB)).rows;
    forall x, y | 0 <= x < VGA_WIDTH && 0 <= y < VGA_HEIGHT ensures s.At(x, y) == Visible(rows, x, y) {
      assert s.At(x, y) == Visible(t.rows, x, y);
    }
    assert forall x, y :: 0 <= x < VGA_WIDTH && 0 <= y < VGA_HEIGHT ==> Apply(s, Put(TAB)).At(x, y) == s.At(x, y);
  }

  lemma {:induction false} CharacterShows(s: Screen, t: Text, c: Byte)
    requires Shows(s, t) && c != NEWLINE && c != TAB
    ensures CanApply(s, Put(c)) && Shows(Apply(s, Put(c)), Lay(t, Put(c)))
  {
    var w := VgaEntry(c, s.color);
    StoreShows(s, t, w);
    var s1 := s.(cells := s.cells[s.row * 80 + s.column := w], column := s.column + 1);
    assert forall x, y :: 0 <= x < VGA_WIDTH && 0 <= y < VGA_HEIGHT ==>
        s1.At(x, y) == s.(cells := s.cells[s.row * 80 + s.column := w]).At(x, y);
    if s1.column == VGA_WIDTH {
      NextLineShows(s1, WithLast(t.rows, Last(t.rows) + [w]));
    }
  }

  /** One operation keeps screen and layout in step. */
  lemma {:induction false} ApplyShows(s: Screen, t: Text, op: Op)
    requires Shows(s, t) && TabFits(t, op)
    ensures CanApply(s, op) && Shows(Apply(s, op), Lay(t, op))
  {
    if op.Put? {
      if op.c == NEWLINE {
        NextLineShows(s, t.rows);
      } else if op.c == TAB {
        TabShows(s, t);
      } else {
        CharacterShows(s, t, op.c);
      }
    }
  }

  // ----- Whole runs

  function Blank(): Text {
    Text([[]], 7)
  }

  lemma InitialShows()
    ensures Shows(Initial(), Blank())
  {
  }

  ghost predicate CanRun(s: Screen, ops: seq<Op>)
    decreases |ops|
  {
    ops == [] || (CanApply(s, ops[0]) && CanRun(Apply(s, ops[0]), ops[1..]))
  }

  ghost function Run(s: Screen, ops: seq<Op>): Screen
    requires CanRun(s, ops)
    decreases |ops|
  {
    if ops == [] then s else Run(Apply(s, ops[0]), ops[1..])
  }

  function LayAll(t: Text, ops: seq<Op>): Text
    requires t.rows != []
    decreases |ops|
  {
    if ops == [] then t else LayAll(Lay(t, ops[0]), ops[1..])
  }

  ghost predicate TabsFit(t: Text, ops: seq<Op>)
    requires t.rows != []
    decreases |ops|
  {
    ops == [] || (TabFits(t, ops[0]) && TabsFit(Lay(t, ops[0]), ops[1..]))
  }

  /** The screen is the end of the layout after any run whose tabs fit, and every store was in bounds. */
  lemma {:induction false} RunShows(s: Screen, t: Text, ops: seq<Op>)
    requires Shows(s, t) && TabsFit(t, ops)
    ensures CanRun(s, ops) && Shows(Run(s, ops), LayAll(t, ops))
    decreases |ops|
  {
    if ops != [] {
      ApplyShows(s, t, ops[0]);
      RunShows(Apply(s, ops[0]), Lay(t, ops[0]), ops[1..]);
    }
  }

  /** The cursor stands on the screen before and after every operation of the run. */
  ghost predicate StaysOnLine(s: Screen, ops: seq<Op>)
    decreases |ops|
  {
    s.OnLine() && (ops == [] || StaysOnLine(Apply(s, ops[0]), ops[1..]))
  }

  /** The column stays below 80 throughout a run if and only if every tab of the run starts below column 76. */
  lemma {:induction false} StaysOnLineIffTabsFit(s: Screen, t: Text, ops: seq<Op>)
    requires Shows(s, t)
    ensures StaysOnLine(s, ops) <==> TabsFit(t, ops)
    decreases |ops|
  {
    if ops != [] {
      if TabFits(t, ops[0]) {
        ApplyShows(s, t, ops[0]);
        StaysOnLineIffTabsFit(Apply(s, ops[0]), Lay(t, ops[0]), ops[1..]);
      } else {
        assert Apply(s, ops[0]).column == VGA_WIDTH;
      }
    }
  }

  /** What goes wrong past such a tab: the next character is stored past the screen on the last row, and on any
      other row in the first cell of the next one, with the cursor still on the old row at column 81. */
  lemma TabOverflow(s: Screen, c: Byte)
    requires s.OnLine() && s.column >= 76 && c != NEWLINE && c != TAB
    ensures var s1 := AfterChar(s, TAB);
      && (s1.InBounds() <==> s.row < VGA_HEIGHT - 1)
      && (s.row < VGA_HEIGHT - 1 ==>
            var s2 := AfterChar(s1, c);
            s2.At(0, s.row + 1) == VgaEntry(c, s.color) && s2.row == s.row && s2.column == 81)
  {
  }

  // ----- The layout keeps every cell

  function Flatten(rows: seq<seq<Cell>>): seq<Cell> {
    if rows == [] then [] else Flatten(rows[..|rows| - 1]) + rows[|rows| - 1]
  }

  /** The cells an operation writes. */
  function Ink(op: Op, color: Byte): seq<Cell> {
    match op
    case SetColor(_) => []
    case Put(c) =>
      if c == NEWLINE then [] else if c == TAB then [BLANK, BLANK, BLANK, BLANK] else [VgaEntry(c, color)]
  }

  function InkAll(ops: seq<Op>, color: Byte): seq<Cell> {
    if ops == [] then []
    else Ink(ops[0], color) + InkAll(ops[1..], if ops[0].SetColor? then ops[0].color else color)
  }

  lemma FlattenLast(rows: seq<seq<Cell>>, more: seq<Cell>)
    requires rows != []
    ensures Flatten(WithLast(rows, Last(rows) + more)) == Flatten(rows) + more
    ensures Flatten(rows + [[]]) == Flatten(rows)
  {
    var longer := WithLast(rows, Last(rows) + more);
    assert longer[..|longer| - 1] == rows[..|rows| - 1];
    assert (rows + [[]])[..|rows|] == rows;
  }

  /** Joined end to end, the rows are exactly the cells written, in order: wrapping loses and adds nothing. */
  lemma {:induction false} LayoutKeepsText(t: Text, ops: seq<Op>)
    requires t.rows != []
    ensures Flatten(LayAll(t, ops).rows) == Flatten(t.rows) + InkAll(ops, t.color)
    decreases |ops|
  {
    if ops != [] {
      var t1 := Lay(t, ops[0]);
      FlattenLast(t.rows, Ink(ops[0], t.color));
      if ops[0].Put? && ops[0].c != NEWLINE && ops[0].c != TAB {
        FlattenLast(WithLast(t.rows, Last(t.rows) + Ink(ops[0], t.color)), []);
      }
      assert Flatten(t1.rows) == Flatten(t.rows) + Ink(ops[0], t.color);
      LayoutKeepsText(t1, ops[1..]);
    }
  }

  /** In bytes: a character lands under the cursor with its own code and the current colour; nothing else changes. */
  lemma CharacterLands(s: Screen, c: Byte, x: nat, y: nat)
    requires s.OnLine() && s.column < 79 && c != 10 && c != 9 && x < 80 && y < 25
    ensures var cell := AfterChar(s, c).At(x, y);
      if x == s.column && y == s.row then cell % 0x100 == c && cell / 0x100 == s.color else cell == s.At(x, y)
    ensures AfterChar(s, c).row == s.row && AfterChar(s, c).column == s.column + 1
  {
  }

  /** After setcolor characters land in that colour. */
  lemma ColorLands(s: Screen, color: Byte, c: Byte)
    requires s.OnLine() && s.column < 79 && c != 10 && c != 9
    ensures AfterChar(Apply(s, SetColor(color)), c).At(s.column, s.row) == c + 0x100 * color
    ensures Lay(Text([[]], 7), SetColor(color)).color == color
  {
  }

  function LowBytes(cells: seq<Cell>): (b: seq<Byte>)
    ensures |b| == |cells|
  {
    seq(|cells|, k requires 0 <= k < |cells| => cells[k] % 0x100)
  }

  /** The bytes a text puts on the screen: no newlines, four spaces for a tab. */
  function Printed(data: seq<Byte>): seq<Byte> {
    if data == [] then []
    else (if data[0] == 10 then [] else if data[0] == 9 then [32, 32, 32, 32] else [data[0]]) + Printed(data[1..])
  }

  lemma LowBytesAppend(a: seq<Cell>, b: seq<Cell>)
    ensures LowBytes(a + b) == LowBytes(a) + LowBytes(b)
  {
  }

  lemma InkOfCharacter(c: Byte, color: Byte)
    ensures LowBytes(Ink(Put(c), color)) == if c == 10 then [] else if c == 9 then [32, 32, 32, 32] else [c]
  {
  }

  lemma {:induction false} InkIsPrinted(data: seq<Byte>, color: Byte)
    ensures LowBytes(InkAll(Puts(data), color)) == Printed(data)
  {
    if data != [] {
      var ops := Puts(data[1..]);
      assert Puts(data) == [Put(data[0])] + ops && ([Put(data[0])] + ops)[1..] == ops;
      LowBytesAppend(Ink(Put(data[0]), color), InkAll(ops, color));
      InkOfCharacter(data[0], color);
      InkIsPrinted(data[1..], color);
    }
  }

  /** The rows after a text, joined end to end, gain exactly its bytes. */
  lemma TextKeepsBytes(t: Text, data: seq<Byte>)
    requires t.rows != []
    ensures LowBytes(Flatten(LayAll(t, Puts(data)).rows)) == LowBytes(Flatten(t.rows)) + Printed(data)
  {
    LayoutKeepsText(t, Puts(data));
    InkIsPrinted(data, t.color);
    var before, ink := Flatten(t.rows), InkAll(Puts(data), t.color);
    LowBytesAppend(before, ink);
  }

  /** A newline starts a row, on the last row by moving all rows up and leaving a blank one, and a tab moves four
      columns; nothing else is stored. */
  lemma ControlCharacters(s: Screen, x: nat, y: nat)
    requires s.OnLine() && x < 80 && y < 24
    ensures AfterChar(s, 10).column == 0
    ensures s.row < 24 ==> AfterChar(s, 10) == s.(row := s.row + 1, column := 0)
    ensures s.row == 24 ==> var s1 := AfterChar(s, 10);
                            s1.row == 24 && s1.At(x, y) == s.At(x, y + 1) && s1.At(x, 24) == 0x0720
    ensures s.column < 76 ==> AfterChar(s, 9) == s.(column := s.column + 4)
  {
  }

  /** A character in the last column lands there, and the cursor is at the start of the next row at once. */
  lemma LastColumn(s: Screen, c: Byte)
    requires s.OnLine() && s.column == 79 && c != 10 && c != 9
    ensures var s1 := AfterChar(s, c);
      && s1.column == 0 && s1.row == (if s.row < 24 then s.row + 1 else 24)
      && s1.At(79, if s.row < 24 then s.row else 23) == c + 0x100 * s.color
  {
  }

  // ----- Deleting

  /** The last of the first n cells of a row that is not a space, or -1. */
  function LastInk(s: Screen, y: nat, n: nat): int
    requires s.Valid() && y < VGA_HEIGHT && n <= VGA_WIDTH
  {
    if n == 0 then -1
    else if s.At(n - 1, y) % 0x100 != SPACE then n - 1
    else LastInk(s, y, n - 1)
  }

  /** Where delete_last_char moves the cursor. */
  function Retreat(s: Screen): Screen
    requires s.Valid()
  {
    if s.column > 0 then s.(column := s.column - 1)
    else if s.row > 0 then
      var ink := LastInk(s, s.row - 1, VGA_WIDTH);
      s.(row := s.row - 1, column := if ink < 0 then VGA_WIDTH - 1 else ink + 1)
    else s
  }

  function DeleteLast(s: Screen): Screen
    requires s.Valid() && Retreat(s).InBounds()
  {
    var s1 := Retreat(s);
    s1.(cells := s1.cells[s1.row * 80 + s1.column := VgaEntry(SPACE, s.color)])
  }

  lemma {:induction false} RetreatInBounds(s: Screen)
    requires s.OnLine()
    ensures Retreat(s).InBounds()
    ensures Retreat(s).OnLine() <==> s.column > 0 || s.row == 0 || LastInk(s, s.row - 1, VGA_WIDTH) != VGA_WIDTH - 1
  {
    if s.column == 0 && s.row > 0 {
      LastInkBelow(s, s.row - 1, VGA_WIDTH);
    }
  }

  /** It is the last cell whose low byte is not 32. */
  lemma {:induction false} LastInkFacts(s: Screen, y: nat, n: nat)
    requires s.Valid() && y < VGA_HEIGHT && n <= VGA_WIDTH
    ensures forall x :: 0 <= x < n && LastInk(s, y, n) < x ==> s.At(x, y) % 0x100 == 32
    ensures LastInk(s, y, n) >= 0 ==> LastInk(s, y, n) < n && s.At(LastInk(s, y, n), y) % 0x100 != 32
  {
    if n > 0 && s.At(n - 1, y) % 0x100 == 32 {
      LastInkFacts(s, y, n - 1);
    }
  }

  lemma LastInkBelow(s: Screen, y: nat, n: nat)
    requires s.Valid() && y < VGA_HEIGHT && n <= VGA_WIDTH
    ensures -1 <= LastInk(s, y, n) < n
  {
  }

  lemma {:induction false} LastInkSame(s: Screen, s1: Screen, y: nat, n: nat)
    requires s.Valid() && s1.Valid() && y < VGA_HEIGHT && n <= VGA_WIDTH
    requires forall x :: 0 <= x < n ==> s.At(x, y) == s1.At(x, y)
    ensures LastInk(s, y, n) == LastInk(s1, y, n)
  {
    if n > 0 {
      LastInkSame(s, s1, y, n - 1);
    }
  }

  /** When deleting undoes printing c: the cell under the cursor was a space in the current colour, and either the
      character does not wrap, or it is a space, the screen does not scroll, and the scan back finds its column. */
  predicate Undoable(s: Screen, c: Byte)
    requires s.OnLine()
  {
    && s.At(s.column, s.row) == VgaEntry(SPACE, s.color)
    && (s.column < 79
        || (c == SPACE && s.row < 24 && (LastInk(s, s.row, 79) == -1 || LastInk(s, s.row, 79) == 78)))
  }

  /** Deleting right after a printable character restores the whole screen if and only if it was undoable. */
  lemma {:induction false} DeleteUndoesPutIff(s: Screen, c: Byte)
    requires s.OnLine() && c != NEWLINE && c != TAB
    ensures Retreat(AfterChar(s, c)).InBounds()
    ensures DeleteLast(AfterChar(s, c)) == s <==> Undoable(s, c)
  {
    var s1 := AfterChar(s, c);
    RetreatInBounds(s1);
    var i, space := s.row * 80 + s.column, VgaEntry(SPACE, s.color);
    if s.column < 79 {
      assert DeleteLast(s1).cells == s.cells[i := space];
      assert s.cells[i := space][i] == space;
      assert s.cells[i] == space ==> s.cells[i := space] == s.cells;
    } else if s.row == 24 {
      assert DeleteLast(s1).row != s.row;
    } else {
      assert s1.At(79, s.row) == VgaEntry(c, s.color);
      LastInkBelow(s, s.row, 79);
      LastInkSame(s, s1, s.row, 79);
      if c == SPACE {
        assert LastInk(s1, s.row, 80) == LastInk(s, s.row, 79);
        assert Retreat(s1).column == 79 ==> DeleteLast(s1).cells == s.cells[i := space];
        assert s.cells[i := space][i] == space;
        assert s.cells[i] == space ==> s.cells[i := space] == s.cells;
      } else {
        assert Retreat(s1).column == 80;
      }
    }
  }

  // ----- A run of printing, then as many deletions

  function Puts(data: seq<Byte>): (ops: seq<Op>)
    ensures |ops| == |data|
  {
    if data == [] then [] else [Put(data[0])] + Puts(data[1..])
  }

  /** n calls of delete_last_char, if every store of theirs is in bounds. */
  function Deleted(s: Screen, n: nat): Option<Screen> {
    if n == 0 then Some(s)
    else
      var before := Deleted(s, n - 1);
      if before.Some? && before.value.Valid() && Retreat(before.value).InBounds() then Some(DeleteLast(before.value))
      else None
  }

  predicate Printable(data: seq<Byte>) {
    forall i :: 0 <= i < |data| ==> data[i] != NEWLINE && data[i] != TAB
  }

  /** Printing characters that stay below column 79 over spaces of the current colour, then deleting once for each,
      restores cells, row and column. */
  lemma {:induction false} DeletesUndoPuts(s: Screen, data: seq<Byte>)
    requires s.Valid() && Printable(data) && s.column + |data| <= 79
    requires forall x :: s.column <= x < s.column + |data| ==> s.At(x, s.row) == VgaEntry(SPACE, s.color)
    ensures CanRun(s, Puts(data)) && Deleted(Run(s, Puts(data)), |data|) == Some(s)
    decreases |data|
  {
    if data != [] {
      var s1 := AfterChar(s, data[0]);
      forall x | s1.column <= x < s1.column + |data[1..]| ensures s1.At(x, s1.row) == VgaEntry(SPACE, s1.color) {
        assert s1.At(x, s1.row) == s.At(x, s.row);
      }
      DeletesUndoPuts(s1, data[1..]);
      assert Puts(data)[1..] == Puts(data[1..]);
      DeleteUndoesPutIff(s, data[0]);
    }
  }

  // ----- Any mixture of printing and deleting

  datatype Edit = Type(op: Op) | Delete

  function Padded(row: seq<Cell>, x: nat): Cell {
    if x < |row| then row[x] else BLANK
  }

  /** The last of the first n cells of a padded row that is not a space, or -1. */
  function RowInk(row: seq<Cell>, n: nat): int {
    if n == 0 then -1
    else if Padded(row, n - 1) % 0x100 != SPACE then n - 1
    else RowInk(row, n - 1)
  }

  lemma RowInkBelow(row: seq<Cell>, n: nat)
    ensures -1 <= RowInk(row, n) < n
  {
  }

  lemma {:induction false} RowInkIsLastInk(s: Screen, y: nat, row: seq<Cell>, n: nat)
    requires s.Valid() && y < VGA_HEIGHT && n <= VGA_WIDTH
    requires forall x :: 0 <= x < n ==> s.At(x, y) == Padded(row, x)
    ensures LastInk(s, y, n) == RowInk(row, n)
  {
    if n > 0 {
      RowInkIsLastInk(s, y, row, n - 1);
    }
  }

  /** What stays of a row that a deletion steps back into: up to its last non-space, or 79 cells if it has none. */
  function Back(row: seq<Cell>): (r: seq<Cell>)
    ensures |r| <= VGA_WIDTH
  {
    RowInkBelow(row, 80);
    var n: nat := if RowInk(row, 80) < 0 then 79 else RowInk(row, 80) + 1;
    seq(n, x requires 0 <= x < n => Padded(row, x))
  }

  /** Deleting drops the last cell of the last row, or steps back into the row before an empty last row. */
  function LayEdit(t: Text, e: Edit): Text
    requires t.rows != []
  {
    match e
    case Type(op) => Lay(t, op)
    case Delete =>
      var last, n := Last(t.rows), |t.rows|;
      if last != [] then Text(WithLast(t.rows, last[..|last| - 1]), t.color)
      else if n == 1 then t
      else Text(t.rows[..n - 2] + [Back(t.rows[n - 2])], t.color)
  }

  /** When a deletion can step back over the end of a row: no row has scrolled off, the row before is not full, and
      the cells it leaves behind are blank. */
  predicate CanStepBack(rows: seq<seq<Cell>>)
    requires |rows| >= 2
  {
    var row := rows[|rows| - 2];
    && |rows| <= VGA_HEIGHT && RowInk(row, 80) < 79
    && forall x :: |Back(row)| < x < 80 ==> Padded(row, x) == BLANK
  }

  /** Tabs start below column 76; deletions use the blank colour, and step back only where they can. */
  predicate EditFits(t: Text, e: Edit)
    requires t.rows != []
  {
    match e
    case Type(op) => TabFits(t, op)
    case Delete => t.color == 7 && (Last(t.rows) == [] && |t.rows| > 1 ==> CanStepBack(t.rows))
  }

  ghost predicate CanEdit(s: Screen, e: Edit) {
    match e
    case Type(op) => CanApply(s, op)
    case Delete => s.Valid() && Retreat(s).InBounds()
  }

  ghost function Edited(s: Screen, e: Edit): (s': Screen)
    requires CanEdit(s, e)
    ensures s'.Valid()
  {
    match e
    case Type(op) => Apply(s, op)
    case Delete => DeleteLast(s)
  }

  /** A deletion within a row keeps screen and layout in step if and only if the current colour is the blank one. */
  lemma DeleteShowsIff(s: Screen, t: Text)
    requires Shows(s, t) && Last(t.rows) != []
    ensures CanEdit(s, Delete) && (Shows(DeleteLast(s), LayEdit(t, Delete)) <==> t.color == 7)
  {
    var s1, rows := DeleteLast(s), LayEdit(t, Delete).rows;
    var c, r := s.column - 1, s.row;
    forall x, y | 0 <= x < VGA_WIDTH && 0 <= y < VGA_HEIGHT
      ensures s1.At(x, y) == if x == c && y == r then VgaEntry(SPACE, s.color) else s.At(x, y)
      ensures Visible(rows, x, y) == if x == c && y == r then BLANK else Visible(t.rows, x, y)
    {
    }
    assert s1.At(c, r) == VgaEntry(SPACE, s.color) && Visible(rows, c, r) == BLANK;
  }

  /** A deletion at the start of a row other than the first keeps them in step if and only if it can step back and the
      current colour is the blank one. */
  lemma StepBackShowsIff(s: Screen, t: Text)
    requires Shows(s, t) && Last(t.rows) == [] && |t.rows| > 1
    ensures CanEdit(s, Delete)
    ensures Shows(DeleteLast(s), LayEdit(t, Delete)) <==> t.color == 7 && CanStepBack(t.rows)
  {
    RetreatInBounds(s);
    if |t.rows| > VGA_HEIGHT {
      assert DeleteLast(s).row == 23;
    } else {
      StepBackOnScreen(s, t);
    }
  }

  lemma StepBackOnScreen(s: Screen, t: Text)
    requires Shows(s, t) && Last(t.rows) == [] && 1 < |t.rows| <= VGA_HEIGHT
    ensures CanEdit(s, Delete)
    ensures Shows(DeleteLast(s), LayEdit(t, Delete)) <==> t.color == 7 && CanStepBack(t.rows)
  {
    var row, y := t.rows[|t.rows| - 2], |t.rows| - 2;
    forall x | 0 <= x < 80 ensures s.At(x, y) == Padded(row, x) {
      assert s.At(x, y) == Visible(t.rows, x, y);
    }
    RowInkIsLastInk(s, y, row, 80);
    RowInkBelow(row, 80);
    RetreatInBounds(s);
    var s1, rows, c := DeleteLast(s), LayEdit(t, Delete).rows, |Back(row)|;
    assert s1.row == y && s1.column == c;
    if c < 80 {
      StepBackCells(s, t, s1);
    }
  }

  /** Cell by cell: what the screen holds after stepping back, and what the layout should show. */
  lemma StepBackCell(s: Screen, t: Text, x: nat, z: nat)
    requires Shows(s, t) && Last(t.rows) == [] && 1 < |t.rows| <= VGA_HEIGHT && x < VGA_WIDTH && z < VGA_HEIGHT
    ensures var y, row := |t.rows| - 2, t.rows[|t.rows| - 2];
      && s.At(x, z) == (if z == y then Padded(row, x) else Visible(LayEdit(t, Delete).rows, x, z))
      && (z == y ==> Visible(LayEdit(t, Delete).rows, x, z) == if x < |Back(row)| then Padded(row, x) else BLANK)
  {
    assert s.At(x, z) == Visible(t.rows, x, z);
  }

  lemma StepBackCells(s: Screen, t: Text, s1: Screen)
    requires Shows(s, t) && Last(t.rows) == [] && 1 < |t.rows| <= VGA_HEIGHT
    requires var y, c := |t.rows| - 2, |Back(t.rows[|t.rows| - 2])|;
      c < 80 && s1 == Screen(s.cells[y * 80 + c := VgaEntry(SPACE, s.color)], y, c, s.color)
    ensures Shows(s1, LayEdit(t, Delete)) <==> t.color == 7 && CanStepBack(t.rows)
  {
    var y: nat := |t.rows| - 2;
    var row, rows := t.rows[y], LayEdit(t, Delete).rows;
    var c := |Back(row)|;
    RowInkBelow(row, 80);
    forall x, z | 0 <= x < VGA_WIDTH && 0 <= z < VGA_HEIGHT
      ensures s1.At(x, z) == Visible(rows, x, z)
         <==> (z == y && x == c ==> s.color == 7) && (z == y && x > c ==> Padded(row, x) == BLANK)
    {
      StepBackCell(s, t, x, z);
      assert s1.At(x, z) == if z == y && x == c then VgaEntry(SPACE, s.color) else s.At(x, z);
    }
    if Shows(s1, LayEdit(t, Delete)) {
      assert s1.At(c, y) == Visible(rows, c, y);
      forall x | c < x < 80 ensures Padded(row, x) == BLANK {
        assert s1.At(x, y) == Visible(rows, x, y);
      }
    }
  }

  /** At the very first cell there is nothing to delete. */
  lemma DeleteAtOrigin(s: Screen, t: Text)
    requires Shows(s, t) && t.rows == [[]] && t.color == 7
    ensures CanEdit(s, Delete) && Shows(DeleteLast(s), t)
  {
    var s1 := DeleteLast(s);
    assert s.At(0, 0) == Visible(t.rows, 0, 0) == BLANK;
    assert s1.cells == s.cells;
  }

  lemma EditShows(s: Screen, t: Text, e: Edit)
    requires Shows(s, t) && EditFits(t, e)
    ensures CanEdit(s, e) && Shows(Edited(s, e), LayEdit(t, e))
  {
    match e
    case Type(op) => ApplyShows(s, t, op);
    case Delete =>
      if Last(t.rows) != [] {
        DeleteShowsIff(s, t);
      } else if |t.rows| > 1 {
        StepBackShowsIff(s, t);
      } else {
        DeleteAtOrigin(s, t);
      }
  }

  ghost predicate CanEditAll(s: Screen, es: seq<Edit>)
    decreases |es|
  {
    es == [] || (CanEdit(s, es[0]) && CanEditAll(Edited(s, es[0]), es[1..]))
  }

  ghost function EditAll(s: Screen, es: seq<Edit>): Screen
    requires CanEditAll(s, es)
    decreases |es|
  {
    if es == [] then s else EditAll(Edited(s, es[0]), es[1..])
  }

  function LayEdits(t: Text, es: seq<Edit>): Text
    requires t.rows != []
    decreases |es|
  {
    if es == [] then t else LayEdits(LayEdit(t, es[0]), es[1..])
  }

  ghost predicate EditsFit(t: Text, es: seq<Edit>)
    requires t.rows != []
    decreases |es|
  {
    es == [] || (EditFits(t, es[0]) && EditsFit(LayEdit(t, es[0]), es[1..]))
  }

  /** After any such mixture the screen shows the end of the layout, every store in bounds. */
  lemma {:induction false} EditsShow(s: Screen, t: Text, es: seq<Edit>)
    requires Shows(s, t) && EditsFit(t, es)
    ensures CanEditAll(s, es) && Shows(EditAll(s, es), LayEdits(t, es))
    decreases |es|
  {
    if es != [] {
      EditShows(s, t, es[0]);
      EditsShow(Edited(s, es[0]), LayEdit(t, es[0]), es[1..]);
    }
  }
}
