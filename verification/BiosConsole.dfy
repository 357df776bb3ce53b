/**
  The BIOS text console: `display_putchar` (software/bios/display.c:108-131) prints into a ring of 256 lines of
  256 cells and moves the visible window along.  The ring is proved against an unbounded log of lines.
 */
module BiosConsole {
  import opened Arithmetic

  datatype Cell = Cell(style: int, code: int)

  const COLUMNS := 256
  const LINES := 256
  const CELLS := 65536

  const DEFAULT_STYLE := 0x000F_0000
  const BLANK := Cell(DEFAULT_STYLE, 32)
  const NEWLINE := 10
  const BACKSPACE := 8

  // ---------------------------------------------------------------- the log

  /** Everything ever printed, one line after another; the last line holds the cursor. */
  datatype Log = Log(lines: seq<seq<Cell>>, column: nat)

  ghost predicate ValidLog(log: Log) {
    |log.lines| >= 1 && log.column < COLUMNS && forall j :: 0 <= j < |log.lines| ==> |log.lines[j]| == COLUMNS
  }

  function BlankLine(): seq<Cell> {
    seq(COLUMNS, _ => Cell(0x000F_0000, 32))
  }

  function SetCell(lines: seq<seq<Cell>>, column: nat, x: Cell): seq<seq<Cell>>
    requires lines != [] && column < |lines[|lines| - 1]|
  {
    lines[|lines| - 1 := lines[|lines| - 1][column := x]]
  }

  function Put(log: Log, style: int, c: int): Log
    requires log.lines != [] && log.column < |log.lines[|log.lines| - 1]|
  {
    if c == NEWLINE then Log(log.lines + [BlankLine()], 0)
    else if c == BACKSPACE then
      if log.column == 0 then log else Log(SetCell(log.lines, log.column - 1, Cell(style, 32)), log.column - 1)
    else
      var lines := SetCell(log.lines, log.column, Cell(style, c));
      if log.column + 1 == COLUMNS then Log(lines + [BlankLine()], 0) else Log(lines, log.column + 1)
  }

  function PutAll(log: Log, style: int, text: seq<int>): Log
    requires ValidLog(log)
    decreases |text|
  {
    if text == [] then log
    else
      PutKeepsValid(log, style, text[0]);
      PutAll(Put(log, style, text[0]), style, text[1..])
  }

  lemma PutKeepsValid(log: Log, style: int, c: int)
    requires ValidLog(log)
    ensures ValidLog(Put(log, style, c))
  {
  }

  /** A backspace after a character takes the cursor back to it and blanks it, unless the character has filled its line; at
      the start of a line it does nothing. */
  lemma BackspaceTakesBack(log: Log, style: int, c: int, t: int)
    requires ValidLog(log) && c != 10 && c != 8
    ensures Put(Put(log, style, c), t, 8) ==
            (if log.column < COLUMNS - 1 then Log(SetCell(log.lines, log.column, Cell(t, 32)), log.column)
             else Put(log, style, c))
  {
    var n := |log.lines| - 1;
    assert log.lines[n := log.lines[n][log.column := Cell(style, c)]][n] == log.lines[n][log.column := Cell(style, c)];
    if log.column < COLUMNS - 1 {
      assert Put(Put(log, style, c), t, BACKSPACE).lines[n] == SetCell(log.lines, log.column, Cell(t, 32))[n];
    }
  }

  // ---------------------------------------------------------------- the ring

  function Index(line: int, column: int): int {
    line % LINES * COLUMNS + column
  }

  /** The ring holds the last 255 lines of the log, and the line after them is blank; as long as the log has not
      gone round the ring, everything after it is blank. */
  ghost predicate RingHolds(cells: seq<Cell>, lines: seq<seq<Cell>>) {
    var n := |lines|;
    && |cells| == CELLS
    && (forall j :: 0 <= j < n ==> |lines[j]| == COLUMNS)
    && (forall j, c :: n - 255 <= j < n && 0 <= j && 0 <= c < COLUMNS ==> cells[Index(j, c)] == lines[j][c])
    && (forall c :: 0 <= c < COLUMNS ==> cells[Index(n, c)] == BLANK)
    && (forall k, c :: n <= k < LINES && 0 <= c < COLUMNS ==> cells[Index(k, c)] == BLANK)
  }

  lemma IndexInjective(j: int, c: int, k: int, d: int)
    requires 0 <= c < COLUMNS && 0 <= d < COLUMNS
    ensures 0 <= Index(j, c) < CELLS
    ensures Index(j, c) == Index(k, d) <==> j % LINES == k % LINES && c == d
  {
  }

  lemma SameSlot(j: int, k: int)
    requires -LINES < j - k < LINES
    ensures j % LINES == k % LINES <==> j == k
  {
  }

  lemma WriteHolds(cells: seq<Cell>, lines: seq<seq<Cell>>, column: nat, x: Cell)
    requires RingHolds(cells, lines) && lines != [] && column < COLUMNS
    ensures 0 <= Index(|lines| - 1, column) < CELLS
    ensures RingHolds(cells[Index(|lines| - 1, column) := x], SetCell(lines, column, x))
  {
    var n := |lines|;
    IndexInjective(n - 1, column, 0, 0);
    var cells', lines' := cells[Index(n - 1, column) := x], SetCell(lines, column, x);
    forall j, c | n - 255 <= j < n && 0 <= j && 0 <= c < COLUMNS
      ensures cells'[Index(j, c)] == lines'[j][c]
    {
      IndexInjective(j, c, n - 1, column);
      SameSlot(j, n - 1);
    }
    forall c | 0 <= c < COLUMNS
      ensures cells'[Index(n, c)] == BLANK
    {
      IndexInjective(n, c, n - 1, column);
      SameSlot(n, n - 1);
    }
    forall k, c | n <= k < LINES && 0 <= c < COLUMNS
      ensures cells'[Index(k, c)] == BLANK
    {
      IndexInjective(k, c, n - 1, column);
      SameSlot(k, n - 1);
    }
  }

  /** Clearing the new line and the one after it loses nothing but the oldest line. */
  lemma NewLineHolds(cells: seq<Cell>, cells': seq<Cell>, lines: seq<seq<Cell>>)
    requires RingHolds(cells, lines) && |cells'| == CELLS
    requires forall i :: 0 <= i < CELLS ==>
               cells'[i] == if i / COLUMNS == |lines| % LINES || i / COLUMNS == (|lines| + 1) % LINES then BLANK else cells[i]
    ensures RingHolds(cells', lines + [BlankLine()])
  {
    var n := |lines|;
    var lines' := lines + [BlankLine()];
    forall j, c | n - 254 <= j < n + 1 && 0 <= j && 0 <= c < COLUMNS
      ensures cells'[Index(j, c)] == lines'[j][c]
    {
      SlotOf(j, c);
      SameSlot(j, n);
      SameSlot(j, n + 1);
    }
    var m := n + 1;
    forall c | 0 <= c < COLUMNS
      ensures cells'[Index(m, c)] == BLANK
    {
      SlotOf(m, c);
    }
    forall k, c | n + 1 <= k < LINES && 0 <= c < COLUMNS
      ensures cells'[Index(k, c)] == BLANK
    {
      SlotOf(k, c);
    }
  }

  lemma SlotOf(j: int, c: int)
    requires 0 <= c < COLUMNS
    ensures 0 <= Index(j, c) < CELLS && Index(j, c) / COLUMNS == j % LINES
  {
  }

  function Top(count: int, height: int): int {
    if count < height then 0 else count - height
  }

  /** The window advance computed from addresses is the one of the log. */
  lemma WindowAdvance(count: nat, height: nat, cursor: int, top: int)
    requires 1 <= height <= 254 && 1 <= count
    requires cursor == Index(count, 0) && top == Index(Top(count, height), 0)
    ensures var required := (cursor - top + COLUMNS) % CELLS;
            && (required > height * COLUMNS <==> count + 1 > height)
            && (if required > height * COLUMNS then (top + required - height * COLUMNS) % CELLS else top) == Index(Top(count + 1, height), 0)
  {
    var d := count - Top(count, height);
    assert 1 <= d <= 254;
    SlotDifference(count, Top(count, height));
    assert (cursor - top + COLUMNS) % CELLS == (d + 1) * COLUMNS;
    if count >= height {
      SlotAdvance(Top(count, height));
    }
  }

  lemma SlotDifference(j: nat, k: nat)
    requires 0 <= j - k <= 254
    ensures (Index(j, 0) - Index(k, 0) + COLUMNS) % CELLS == (j - k + 1) * COLUMNS
  {
    var p, q := j / LINES, k / LINES;
    assert j == p * LINES + j % LINES && k == q * LINES + k % LINES;
    assert p == q || p == q + 1;
  }

  lemma SlotAdvance(k: nat)
    ensures (Index(k, 0) + COLUMNS) % CELLS == Index(k + 1, 0)
  {
  }

  class Console {
    const cells: array<Cell>
    /** Visible lines: the vertical resolution divided by 16. */
    const height: nat
    /** Cell numbers of the cursor and of the first visible cell. */
    var cursor: nat
    var textAddr: nat
    ghost var log: Log

    ghost predicate Valid()
      reads this, cells
    {
      && cells.Length == CELLS && 1 <= height <= 254 && ValidLog(log)
      && RingHolds(cells[..], log.lines)
      && cursor == Index(|log.lines| - 1, log.column)
      && textAddr == Index(Top(|log.lines|, height), 0)
    }

    /** init_display */
    constructor (height: nat)
      requires 1 <= height <= 254
      ensures Valid() && fresh(cells) && this.height == height && log == Log([BlankLine()], 0)
    {
      this.height := height;
      cells := new Cell[CELLS](_ => BLANK);
      cursor, textAddr := 0, 0;
      log := Log([BlankLine()], 0);
      new;
      forall j, c | 0 <= j < LINES && 0 <= c < COLUMNS
        ensures cells[..][Index(j, c)] == BLANK
      {
        SlotOf(j, c);
      }
    }

    /** Clears the line that starts at cell `start`. */
    method ClearLine(start: nat)
      requires cells.Length == CELLS && start % COLUMNS == 0 && start < CELLS
      modifies cells
      ensures forall i :: 0 <= i < CELLS ==> cells[i] == if i / COLUMNS == start / COLUMNS then BLANK else old(cells[i])
    {
      var i := 0;
      while i < COLUMNS
        invariant 0 <= i <= COLUMNS
        invariant forall k :: 0 <= k < CELLS ==> cells[k] == if start <= k < start + i then BLANK else old(cells[k])
      {
        cells[start + i] := BLANK;
        i := i + 1;
      }
    }

    /** What happens when the cursor has reached the start of a line: scroll if needed, clear two lines. */
    method StartLine(ghost lines: seq<seq<Cell>>)
      requires cells.Length == CELLS && 1 <= height <= 254 && |lines| >= 1
      requires RingHolds(cells[..], lines) && cursor == Index(|lines|, 0) && textAddr == Index(Top(|lines|, height), 0)
      modifies cells, this`textAddr, this`log
      ensures Valid() && log == Log(lines + [BlankLine()], 0)
    {
      hide RingHolds, Top;
      AdvanceWindow(|lines|);
      ghost var was := cells[..];
      SlotOf(|lines|, 0);
      SlotAdvance(|lines|);
      SlotOf(|lines| + 1, 0);
      hide Index;
      ClearLine(cursor);
      ClearLine((cursor + COLUMNS) % CELLS);
      NewLineHolds(was, cells[..], lines);
      log := Log(lines + [BlankLine()], 0);
    }

    method AdvanceWindow(ghost n: nat)
      requires 1 <= height <= 254 && n >= 1 && cursor == Index(n, 0) && textAddr == Index(Top(n, height), 0)
      modifies this`textAddr
      ensures textAddr == Index(Top(n + 1, height), 0)
    {
      var required := (cursor - textAddr + COLUMNS) % CELLS;
      var available := height * COLUMNS;
      WindowAdvance(n, height, cursor, textAddr);
      if required > available {
        textAddr := (textAddr + required - available) % CELLS;
      }
    }

    /** Stores one cell of the cursor line. */
    method WriteCell(column: nat, x: Cell, ghost lines: seq<seq<Cell>>)
      requires column < COLUMNS && lines != [] && RingHolds(cells[..], lines) && cursor == Index(|lines| - 1, column)
      modifies cells
      ensures RingHolds(cells[..], SetCell(lines, column, x))
    {
      WriteHolds(cells[..], lines, column, x);
      cells[cursor] := x;
    }

    /** display_putchar */
    method Putchar(style: int, c: int)
      requires Valid()
      modifies this`cursor, this`textAddr, this`log, cells
      ensures Valid() && log == Put(old(log), style, c)
    {
      hide RingHolds, Index, Top, SetCell, BlankLine;
      ghost var lines, column := log.lines, log.column;
      CursorColumn(|lines| - 1, column);
      SetCellSize(lines);
      var isNewline := c == NEWLINE;
      if c == BACKSPACE {
        if cursor % COLUMNS != 0 {
          PreviousCell(|lines| - 1, column);
          cursor := cursor - 1;
          WriteCell(cursor % COLUMNS, Cell(style, 32), lines);
          PutKeepsValid(log, style, c);
          log := Put(log, style, c);
        }
        return;
      }
      NextCell(|lines| - 1, column);
      if isNewline {
        cursor := cursor / COLUMNS * COLUMNS + COLUMNS;
      } else {
        WriteCell(cursor % COLUMNS, Cell(style, c), lines);
        cursor := cursor + 1;
        lines := SetCell(lines, column, Cell(style, c));
      }
      cursor := cursor % CELLS;
      PutKeepsValid(log, style, c);
      if cursor % COLUMNS == 0 {
        StartLine(lines);
      } else {
        log := Log(lines, column + 1);
      }
    }

    /** The characters of a string, one after the other. */
    method PutString(style: int, text: seq<int>)
      requires Valid()
      modifies this`cursor, this`textAddr, this`log, cells
      ensures Valid() && log == PutAll(old(log), style, text)
    {
      var i := 0;
      assert text[0..] == text;
      while i < |text|
        invariant 0 <= i <= |text| && Valid()
        invariant PutAll(log, style, text[i..]) == PutAll(old(log), style, text)
      {
        assert text[i..][0] == text[i] && text[i..][1..] == text[i + 1..];
        Putchar(style, text[i]);
        i := i + 1;
      }
    }
  }

  lemma CursorColumn(j: int, column: nat)
    requires column < COLUMNS
    ensures Index(j, column) % COLUMNS == column && Index(j, column) / COLUMNS * COLUMNS == Index(j, 0)
  {
  }

  lemma PreviousCell(j: nat, column: nat)
    requires 0 < column < COLUMNS
    ensures Index(j, column) - 1 == Index(j, column - 1) && Index(j, column - 1) % COLUMNS == column - 1
    ensures 0 <= Index(j, column - 1)
  {
  }

  lemma SetCellSize(lines: seq<seq<Cell>>)
    requires lines != []
    ensures forall c, x :: 0 <= c < |lines[|lines| - 1]| ==> |SetCell(lines, c, x)| == |lines|
  {
  }

  lemma NextCell(j: nat, column: nat)
    requires column < COLUMNS
    ensures (Index(j, 0) + COLUMNS) % CELLS == Index(j + 1, 0)
    ensures (Index(j, column) + 1) % CELLS == if column + 1 == COLUMNS then Index(j + 1, 0) else Index(j, column + 1)
    ensures Index(j + 1, 0) % COLUMNS == 0 && (column + 1 < COLUMNS ==> Index(j, column + 1) % COLUMNS != 0)
  {
    IndexParts(j, 0);
    IndexParts(j + 1, 0);
    IndexParts(j, column);
    if column + 1 < COLUMNS {
      IndexParts(j, column + 1);
    }
    NextSlot(j);
    hide Index;
  }

  lemma IndexParts(j: nat, column: nat)
    requires column < COLUMNS
    ensures Index(j, column) == j % LINES * COLUMNS + column && Index(j, column) % COLUMNS == column
  {
    DivUnique(j % LINES * COLUMNS + column, COLUMNS, j % LINES, column);
  }

  lemma NextSlot(j: nat)
    ensures (j + 1) % LINES == if j % LINES + 1 == LINES then 0 else j % LINES + 1
  {
  }

  /** The visible window is the end of the log, padded with blank lines while it is short, and holds the cursor. */
  lemma WindowShowsLog(cells: seq<Cell>, log: Log, height: nat, i: nat, c: nat)
    requires ValidLog(log) && RingHolds(cells, log.lines) && 1 <= height <= 254 && i < height && c < COLUMNS
    ensures var n := |log.lines|;
            var top := Top(n, height);
            && 0 <= Index(top + i, c) < CELLS
            && cells[Index(top + i, c)] == (if top + i < n then log.lines[top + i][c] else BLANK)
            && top <= n - 1 < top + height
            && (n >= height ==> top + height == n)
  {
    SlotOf(Top(|log.lines|, height) + i, c);
  }

  /** With `count` lines in the log, starting the next one leaves the window where the log wants it. */
  predicate Follows(count: nat, height: nat) {
    var cursor, top := Index(count, 0), Index(Top(count, height), 0);
    var required := (cursor - top + COLUMNS) % CELLS;
    (if required > height * COLUMNS then (top + required - height * COLUMNS) % CELLS else top) == Index(Top(count + 1, height), 0)
  }

  /** The window follows for ever exactly up to 254 visible lines; with more, the required size wraps round. */
  lemma WindowFollowsExactly(height: nat)
    requires height >= 1
    ensures (forall count: nat | count >= 1 :: Follows(count, height)) <==> height <= 254
  {
    if height <= 254 {
      forall count: nat | count >= 1
        ensures Follows(count, height)
      {
        WindowAdvance(count, height, Index(count, 0), Index(Top(count, height), 0));
      }
    } else {
      assert Index(Top(height, height), 0) == 0 && Index(Top(height + 1, height), 0) == COLUMNS;
      assert !Follows(height, height);
    }
  }
}
