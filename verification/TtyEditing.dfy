/** The editing commands of the text window manager: erasing, inserting and deleting cells, and where a command
    leaves the cursor (software/textwm2/tty.c:158-326). */
module TtyEditing {
  import opened Arithmetic
  import opened TtyScreen
  import opened TtyFrame

  // ---------------------------------------------------------------- cells of one line

  /** The cells after column c move left by n; the last n cells of the line stay as they are. */
  function CellsDeleted(l: Line, c: nat, n: nat): (r: Line)
    requires c < COLUMNS
  {
    var m := Least(n, COLUMNS - c);
    l[..c] + l[c + m..] + l[COLUMNS - m..]
  }

  /** n blank cells come in at column c; the cells after it move right and out of the line. */
  function CellsInserted(l: Line, c: nat, n: nat, v: Cell): (r: Line)
    requires c < COLUMNS
  {
    var m := Least(n, COLUMNS - c);
    l[..c] + seq(m, _ => v) + l[c..COLUMNS - m]
  }

  function CellsErased(l: Line, lo: nat, hi: nat, v: Cell): (r: Line)
    requires lo <= hi <= COLUMNS
  {
    l[..lo] + seq(hi - lo, _ => v) + l[hi..]
  }

  /** The row that starts at cell `row` has become x; all other cells are as before. */
  predicate RowReplaced(before: seq<Cell>, after: seq<Cell>, row: nat, x: Line)
    requires |before| == |after| == CELLS && row + COLUMNS <= CELLS
  {
    forall j {:trigger after[j]} :: 0 <= j < CELLS ==> after[j] == if row <= j < row + COLUMNS then x[j - row] else before[j]
  }

  /** What an edit of the cells of one row does to the screen. */
  lemma RowEdit(before: seq<Cell>, after: seq<Cell>, first: int, i: int, row: nat, x: Line)
    requires |before| == |after| == CELLS && 0 <= first < LINES && row + COLUMNS <= CELLS
    requires row % COLUMNS == 0 && row / COLUMNS == (first + i) % LINES && RowReplaced(before, after, row, x)
    ensures ViewOf(after, first) == ViewOf(before, first)[i % LINES := x]
  {
    hide ViewOf;
    RowPlace(after, row, 0);
    RowUpdate(before, after, row / COLUMNS);
    assert Row(after, row / COLUMNS) == x;
    ViewUpdate(before, after, first, i, row / COLUMNS, x);
  }

  lemma DeletedAt(l: Line, c: nat, n: nat, i: nat)
    requires c < COLUMNS && i < COLUMNS
    ensures var m := Least(n, COLUMNS - c);
            CellsDeleted(l, c, n)[i] == if c <= i < COLUMNS - m then l[i + m] else l[i]
  {
  }

  lemma InsertedAt(l: Line, c: nat, n: nat, v: Cell, i: nat)
    requires c < COLUMNS && i < COLUMNS
    ensures var m := Least(n, COLUMNS - c);
            CellsInserted(l, c, n, v)[i] == if i < c then l[i] else if i < c + m then v else l[i - m]
  {
    var m := Least(n, COLUMNS - c);
    var front, blanks, rest := l[..c], seq(m, _ => v), l[c..COLUMNS - m];
    if c <= i < c + m {
      assert (front + blanks + rest)[i] == blanks[i - c];
    } else if c + m <= i {
      assert (front + blanks + rest)[i] == rest[i - c - m];
    }
  }

  lemma RowPlace(cells: seq<Cell>, row: nat, i: nat)
    requires |cells| == CELLS && row + COLUMNS <= CELLS && row % COLUMNS == 0 && i < COLUMNS
    ensures row / COLUMNS * COLUMNS == row && 0 <= row / COLUMNS < LINES
    ensures Row(cells, row / COLUMNS)[i] == cells[row + i]
  {
    var q := row / COLUMNS;
    assert q * COLUMNS == row;
  }

  /** Every cell from the cursor on takes the cell n places to its right, as long as that is in the line. */
  method ShiftLeft(f: Frame, cur: nat, lineEnd: nat, n: nat)
    requires f.Valid() && cur + n <= lineEnd <= CELLS
    modifies f.cells
    ensures forall j :: 0 <= j < CELLS ==> f.cells[j] == if cur <= j < lineEnd - n then old(f.cells[j + n]) else old(f.cells[j])
  {
    var p := cur;
    while p < lineEnd - n
      invariant cur <= p <= lineEnd - n
      invariant forall j :: 0 <= j < CELLS ==> f.cells[j] == if cur <= j < p then old(f.cells[j + n]) else old(f.cells[j])
    {
      f.cells[p] := f.cells[p + n];
      p := p + 1;
    }
  }

  /** The command that deletes cells (P). */
  method DeleteCells(f: Frame, count: nat)
    requires f.Valid() && 0 <= f.column < COLUMNS
    modifies f.cells
    ensures f.View() == old(f.View())[f.line % LINES := CellsDeleted(old(f.View())[f.line % LINES], f.column, count)]
  {
    hide ViewOf, CellsDeleted;
    var row := f.LineCell(f.line);
    var cur, lineEnd, n := row + f.column, row + COLUMNS, count;
    ghost var was := f.cells[..];
    if cur + n > lineEnd {
      n := lineEnd - cur;
    }
    ShiftLeft(f, cur, lineEnd, n);
    CellsMovedLeft(was, f.cells[..], f.start / COLUMNS, f.line, row, f.column, n, count);
  }

  lemma CellMovedLeft(was: seq<Cell>, row: nat, c: nat, n: nat, count: nat, j: nat)
    requires |was| == CELLS && row % COLUMNS == 0 && row + COLUMNS <= CELLS && c < COLUMNS && n == Least(count, COLUMNS - c)
    requires row <= j < row + COLUMNS
    ensures CellsDeleted(Row(was, row / COLUMNS), c, count)[j - row]
            == if row + c <= j < row + COLUMNS - n then was[j + n] else was[j]
  {
    hide Row, CellsDeleted;
    DeletedAt(Row(was, row / COLUMNS), c, count, j - row);
    RowPlace(was, row, j - row);
    if row + c <= j < row + COLUMNS - n {
      RowPlace(was, row, j - row + n);
    }
  }

  lemma RowDeleted(was: seq<Cell>, now: seq<Cell>, row: nat, c: nat, n: nat, count: nat)
    requires |was| == |now| == CELLS && row % COLUMNS == 0 && row + COLUMNS <= CELLS
    requires c < COLUMNS && n == Least(count, COLUMNS - c)
    requires forall j {:trigger now[j]} :: 0 <= j < CELLS ==>
               now[j] == if row + c <= j < row + COLUMNS - n then was[j + n] else was[j]
    ensures RowReplaced(was, now, row, CellsDeleted(Row(was, row / COLUMNS), c, count))
  {
    hide Row, CellsDeleted;
    var x := CellsDeleted(Row(was, row / COLUMNS), c, count);
    forall j | 0 <= j < CELLS
      ensures now[j] == if row <= j < row + COLUMNS then x[j - row] else was[j]
    {
      if row <= j < row + COLUMNS {
        CellMovedLeft(was, row, c, n, count, j);
      }
    }
  }

  lemma CellsMovedLeft(was: seq<Cell>, now: seq<Cell>, first: int, i: int, row: nat, c: nat, n: nat, count: nat)
    requires |was| == |now| == CELLS && 0 <= first < LINES && row / COLUMNS == (first + i) % LINES
    requires row % COLUMNS == 0 && row + COLUMNS <= CELLS && c < COLUMNS && n == Least(count, COLUMNS - c)
    requires forall j {:trigger now[j]} :: 0 <= j < CELLS ==>
               now[j] == if row + c <= j < row + COLUMNS - n then was[j + n] else was[j]
    ensures ViewOf(now, first) == ViewOf(was, first)[i % LINES := CellsDeleted(ViewOf(was, first)[i % LINES], c, count)]
  {
    hide ViewOf, CellsDeleted, Row, RowReplaced;
    RowDeleted(was, now, row, c, n, count);
    ViewLine(was, first, i);
    RowEdit(was, now, first, i, row, CellsDeleted(Row(was, row / COLUMNS), c, count));
  }

  /** Beginning at the right end, the cells from the cursor on are moved n places to the right. */
  method ShiftRight(f: Frame, cur: nat, lineEnd: nat, n: nat)
    requires f.Valid() && cur + n <= lineEnd <= CELLS
    modifies f.cells
    ensures forall j :: 0 <= j < CELLS ==> f.cells[j] == if cur + n <= j < lineEnd then old(f.cells[j - n]) else old(f.cells[j])
  {
    var p := lineEnd - n - 1;
    while p >= cur
      invariant cur - 1 <= p <= lineEnd - n - 1
      invariant forall j :: 0 <= j < CELLS ==> f.cells[j] == if p + n < j < lineEnd then old(f.cells[j - n]) else old(f.cells[j])
    {
      f.cells[p + n] := f.cells[p];
      p := p - 1;
    }
  }

  /** n cells from the cursor on become blank. */
  method FillCells(f: Frame, cur: nat, n: nat, v: Cell)
    requires f.Valid() && cur + n <= CELLS
    modifies f.cells
    ensures forall j :: 0 <= j < CELLS ==> f.cells[j] == if cur <= j < cur + n then v else old(f.cells[j])
  {
    var k := 0;
    while k < n
      invariant 0 <= k <= n
      invariant forall j :: 0 <= j < CELLS ==> f.cells[j] == if cur <= j < cur + k then v else old(f.cells[j])
    {
      f.cells[cur + k] := v;
      k := k + 1;
    }
  }

  /** The command that inserts blanks (@). */
  method InsertCells(f: Frame, count: nat)
    requires f.Valid() && 0 <= f.column < COLUMNS
    modifies f.cells
    ensures f.View() == old(f.View())[f.line % LINES :=
                          CellsInserted(old(f.View())[f.line % LINES], f.column, count, f.style + 32)]
  {
    hide ViewOf, CellsInserted;
    var row := f.LineCell(f.line);
    var cur, lineEnd, n := row + f.column, row + COLUMNS, count;
    ghost var was := f.cells[..];
    if cur + n > lineEnd {
      n := lineEnd - cur;
    }
    ShiftRight(f, cur, lineEnd, n);
    FillCells(f, cur, n, f.style + 32);
    CellsMovedRight(was, f.cells[..], f.start / COLUMNS, f.line, row, f.column, n, count, f.style + 32);
  }

  lemma CellMovedRight(was: seq<Cell>, row: nat, c: nat, n: nat, count: nat, v: Cell, j: nat)
    requires |was| == CELLS && row % COLUMNS == 0 && row + COLUMNS <= CELLS && c < COLUMNS && n == Least(count, COLUMNS - c)
    requires row <= j < row + COLUMNS
    ensures CellsInserted(Row(was, row / COLUMNS), c, count, v)[j - row]
            == if row + c <= j < row + c + n then v else if row + c + n <= j then was[j - n] else was[j]
  {
    hide Row, CellsInserted;
    InsertedAt(Row(was, row / COLUMNS), c, count, v, j - row);
    RowPlace(was, row, j - row);
    if row + c + n <= j {
      RowPlace(was, row, j - row - n);
    }
  }

  lemma RowInserted(was: seq<Cell>, now: seq<Cell>, row: nat, c: nat, n: nat, count: nat, v: Cell)
    requires |was| == |now| == CELLS && row % COLUMNS == 0 && row + COLUMNS <= CELLS
    requires c < COLUMNS && n == Least(count, COLUMNS - c)
    requires forall j {:trigger now[j]} :: 0 <= j < CELLS ==>
               now[j] == if row + c <= j < row + c + n then v else if row + c + n <= j < row + COLUMNS then was[j - n] else was[j]
    ensures RowReplaced(was, now, row, CellsInserted(Row(was, row / COLUMNS), c, count, v))
  {
    hide Row, CellsInserted;
    var x := CellsInserted(Row(was, row / COLUMNS), c, count, v);
    forall j | 0 <= j < CELLS
      ensures now[j] == if row <= j < row + COLUMNS then x[j - row] else was[j]
    {
      if row <= j < row + COLUMNS {
        CellMovedRight(was, row, c, n, count, v, j);
      }
    }
  }

  lemma CellsMovedRight(was: seq<Cell>, now: seq<Cell>, first: int, i: int, row: nat, c: nat, n: nat, count: nat, v: Cell)
    requires |was| == |now| == CELLS && 0 <= first < LINES && row / COLUMNS == (first + i) % LINES
    requires row % COLUMNS == 0 && row + COLUMNS <= CELLS && c < COLUMNS && n == Least(count, COLUMNS - c)
    requires forall j {:trigger now[j]} :: 0 <= j < CELLS ==>
               now[j] == if row + c <= j < row + c + n then v else if row + c + n <= j < row + COLUMNS then was[j - n] else was[j]
    ensures ViewOf(now, first) == ViewOf(was, first)[i % LINES := CellsInserted(ViewOf(was, first)[i % LINES], c, count, v)]
  {
    hide ViewOf, CellsInserted, Row, RowReplaced;
    RowInserted(was, now, row, c, n, count, v);
    ViewLine(was, first, i);
    RowEdit(was, now, first, i, row, CellsInserted(Row(was, row / COLUMNS), c, count, v));
  }

  /** What deleting characters is for (section 8.3 of ECMA-48, DCH): on the visible part of a line, the cells after the
      deleted ones move left and blank ones follow. */
  function CharactersDeleted(l: Line, width: nat, c: nat, n: nat, x: Cell): (r: seq<Cell>)
    requires c < width <= COLUMNS
    ensures |r| == width
  {
    var m := Least(n, width - c);
    l[..c] + l[c + m..width] + seq(m, _ => x)
  }

  lemma CharactersDeletedAt(l: Line, width: nat, c: nat, n: nat, x: Cell, i: nat)
    requires c < width <= COLUMNS && i < width
    ensures CharactersDeleted(l, width, c, n, x)[i] ==
            if i < c then l[i] else if i < width - Least(n, width - c) then l[i + Least(n, width - c)] else x
  {
    var m := Least(n, width - c);
    var front, rest, blanks := l[..c], l[c + m..width], seq(m, _ => x);
    if c <= i < width - m {
      assert (front + rest + blanks)[i] == rest[i - c];
    } else if width - m <= i {
      assert (front + rest + blanks)[i] == blanks[i - (width - m)];
    }
  }

  predicate BlankBehind(l: Line, width: nat, x: Cell) {
    forall i :: width <= i < COLUMNS ==> l[i] == x
  }

  /** Where the columns right of the window are blank, deleting moves blanks in: it is right for every such line exactly
      as long as no more cells are deleted than there are hidden columns; after that the last cells stay. */
  lemma DeleteExact(width: nat, c: nat, n: nat, x: Cell)
    requires c < width <= COLUMNS
    ensures (forall l: Line | BlankBehind(l, width, x) :: CellsDeleted(l, c, n)[..width] == CharactersDeleted(l, width, c, n, x))
            <==> n <= COLUMNS - width
  {
    hide CellsDeleted, CharactersDeleted;
    if n <= COLUMNS - width {
      forall l: Line | BlankBehind(l, width, x)
        ensures CellsDeleted(l, c, n)[..width] == CharactersDeleted(l, width, c, n, x)
      {
        forall i | 0 <= i < width
          ensures CellsDeleted(l, c, n)[i] == CharactersDeleted(l, width, c, n, x)[i]
        {
          DeletedAt(l, c, n, i);
          CharactersDeletedAt(l, width, c, n, x, i);
        }
      }
    } else {
      var l: Line := seq(COLUMNS, i => if i < width then x + 1 else x);
      DeletedAt(l, c, n, width - 1);
      CharactersDeletedAt(l, width, c, n, x, width - 1);
      assert CellsDeleted(l, c, n)[..width][width - 1] == x + 1;
      assert BlankBehind(l, width, x) && CharactersDeleted(l, width, c, n, x)[width - 1] == x;
    }
  }

  function EraseFrom(n: int, column: int): int {
    if n == 1 || n == 2 then 0 else column
  }

  function EraseTo(n: int, column: int): int {
    if n == 0 || n == 2 then COLUMNS else column
  }

  /** The command that erases in the line (K): from the cursor to the end of the line, from its start up to the cursor, or all of it. */
  method EraseLine(f: Frame, n: int)
    requires f.Valid() && 0 <= f.column < COLUMNS
    modifies f.cells
    ensures f.View() == old(f.View())[f.line % LINES :=
                          CellsErased(old(f.View())[f.line % LINES], EraseFrom(n, f.column), EraseTo(n, f.column), f.style + 32)]
  {
    hide ViewOf;
    var row := f.LineCell(f.line);
    var lo, hi := row + f.column, row + f.column;
    if n == 0 {
      hi := row + COLUMNS;
    } else if n == 1 {
      lo := row;
    } else if n == 2 {
      lo, hi := row, row + COLUMNS;
    }
    ghost var was := f.cells[..];
    ghost var l := Row(was, row / COLUMNS);
    ViewLine(was, f.start / COLUMNS, f.line);
    FillUpTo(f, lo, hi, f.style + 32);
    RowErased(was, f.cells[..], row, lo - row, hi - row, f.style + 32);
    hide Row, CellsErased, RowReplaced;
    RowEdit(was, f.cells[..], f.start / COLUMNS, f.line, row,
            CellsErased(l, EraseFrom(n, f.column), EraseTo(n, f.column), f.style + 32));
  }

  method FillUpTo(f: Frame, lo: nat, hi: nat, v: Cell)
    requires f.Valid() && lo <= hi <= CELLS
    modifies f.cells
    ensures forall j :: 0 <= j < CELLS ==> f.cells[j] == if lo <= j < hi then v else old(f.cells[j])
  {
    var p := lo;
    while p != hi
      invariant lo <= p <= hi
      invariant forall j :: 0 <= j < CELLS ==> f.cells[j] == if lo <= j < p then v else old(f.cells[j])
      decreases hi - p
    {
      f.cells[p] := v;
      p := p + 1;
    }
  }

  lemma RowErased(was: seq<Cell>, now: seq<Cell>, row: nat, lo: nat, hi: nat, v: Cell)
    requires |was| == |now| == CELLS && row + COLUMNS <= CELLS && row % COLUMNS == 0 && lo <= hi <= COLUMNS
    requires forall j :: 0 <= j < CELLS ==> now[j] == if row + lo <= j < row + hi then v else was[j]
    ensures RowReplaced(was, now, row, CellsErased(Row(was, row / COLUMNS), lo, hi, v))
  {
    RowPlace(was, row, 0);
    var l := Row(was, row / COLUMNS);
    forall j {:trigger now[j]} | 0 <= j < CELLS
      ensures now[j] == if row <= j < row + COLUMNS then CellsErased(l, lo, hi, v)[j - row] else was[j]
    {
      if row <= j < row + COLUMNS {
        RowPlace(was, row, j - row);
      }
    }
  }

  // ---------------------------------------------------------------- ranges of the screen

  /** All cells of the ring in the order of the screen. */
  function ScreenOf(cells: seq<Cell>, start: nat): (s: seq<Cell>)
    requires |cells| == CELLS
    ensures |s| == CELLS
  {
    seq(CELLS, o requires 0 <= o < CELLS => cells[(start + o) % CELLS])
  }

  /** Cell o comes in the walk round the ring from a to b. */
  predicate Between(o: int, a: int, b: int) {
    (o - a) % CELLS < (b - a) % CELLS
  }

  function Erased(s: seq<Cell>, a: int, b: int, v: Cell): (r: seq<Cell>)
    ensures |r| == |s|
  {
    seq(|s|, o requires 0 <= o < |s| => if Between(o, a, b) then v else s[o])
  }

  /** The same on the lines of the screen. */
  function ViewErased(v: View, a: int, b: int, x: Cell): View {
    seq(LINES, k requires 0 <= k < LINES =>
      seq(COLUMNS, c requires 0 <= c < COLUMNS => if Between(k * COLUMNS + c, a, b) then x else v[k][c]))
  }

  /** Cell c of line k of the screen. */
  lemma ScreenPlace(cells: seq<Cell>, start: nat, k: nat, c: nat)
    requires |cells| == CELLS && start < CELLS && start % COLUMNS == 0 && k < LINES && c < COLUMNS
    ensures 0 <= k * COLUMNS + c < CELLS
    ensures ScreenOf(cells, start)[k * COLUMNS + c] == ViewOf(cells, start / COLUMNS)[k][c]
  {
    LineCellIsRow(start, k);
    var q := (start + k * COLUMNS) / CELLS;
    var row := (start + k * COLUMNS) % CELLS;
    assert start + (k * COLUMNS + c) == q * CELLS + (row + c);
    DivUnique(start + (k * COLUMNS + c), CELLS, q, row + c);
  }

  lemma ErasedView(was: seq<Cell>, now: seq<Cell>, start: nat, a: int, b: int, x: Cell)
    requires |was| == |now| == CELLS && start < CELLS && start % COLUMNS == 0
    requires ScreenOf(now, start) == Erased(ScreenOf(was, start), a, b, x)
    ensures ViewOf(now, start / COLUMNS) == ViewErased(ViewOf(was, start / COLUMNS), a, b, x)
  {
    hide ViewOf, ScreenOf, Between;
    var v, w := ViewOf(was, start / COLUMNS), ViewOf(now, start / COLUMNS);
    forall k | 0 <= k < LINES
      ensures w[k] == ViewErased(v, a, b, x)[k]
    {
      forall c | 0 <= c < COLUMNS
        ensures w[k][c] == ViewErased(v, a, b, x)[k][c]
      {
        ScreenPlace(was, start, k, c);
        ScreenPlace(now, start, k, c);
      }
    }
  }

  lemma ErasedIsList(s: seq<Cell>, a: nat, b: nat, v: Cell)
    requires |s| == CELLS && a <= b < CELLS
    ensures Erased(s, a, b, v) == s[..a] + seq(b - a, _ => v) + s[b..]
  {
    assert |s[..a] + seq(b - a, _ => v) + s[b..]| == CELLS;
    forall o | 0 <= o < CELLS
      ensures Between(o, a, b) <==> a <= o < b
    {
      BetweenIsPlain(o, a, b);
    }
  }

  lemma BetweenIsPlain(o: int, a: int, b: int)
    requires 0 <= a <= b < CELLS && 0 <= o < CELLS
    ensures Between(o, a, b) <==> a <= o < b
  {
  }

  lemma SameDifference(start: int, o: int, a: int)
    ensures ((start + o) % CELLS - (start + a) % CELLS) % CELLS == (o - a) % CELLS
  {
    var x, y := (start + o) / CELLS, (start + a) / CELLS;
    var d := (start + o) % CELLS - (start + a) % CELLS;
    assert o - a == d + (x - y) * CELLS;
    SameModulo(d, x - y);
  }

  lemma SameModulo(d: int, k: int)
    ensures (d + k * CELLS) % CELLS == d % CELLS
  {
    DivUnique(d + k * CELLS, CELLS, d / CELLS + k, d % CELLS);
  }

  /** Cell q comes among the first k cells of the walk that begins at `from`. */
  predicate Walked(q: int, from: int, k: int) {
    (q - from) % CELLS < k
  }

  lemma OneFurther(q: int, from: int, k: nat)
    requires 0 <= q < CELLS && 0 <= from < CELLS && k < CELLS
    ensures Walked(q, from, k + 1) <==> Walked(q, from, k) || q == (from + k) % CELLS
  {
  }

  lemma NextCell(from: nat, k: nat)
    ensures ((from + k) % CELLS + 1) % CELLS == (from + k + 1) % CELLS
  {
  }

  lemma WalkEnds(from: nat, to: nat, k: nat)
    requires from < CELLS && to < CELLS && k <= (to - from) % CELLS
    ensures (from + k) % CELLS == to <==> k == (to - from) % CELLS
  {
  }

  lemma WalkBegins(from: nat)
    requires from < CELLS
    ensures (from + 0) % CELLS == from && forall q :: 0 <= q < CELLS ==> !Walked(q, from, 0)
  {
  }

  lemma WalkStep(from: nat, k: nat, i: nat)
    requires from < CELLS && k < CELLS && i == (from + k) % CELLS
    ensures forall q :: 0 <= q < CELLS ==> (Walked(q, from, k + 1) <==> Walked(q, from, k) || q == i)
    ensures (i + 1) % CELLS == (from + k + 1) % CELLS
  {
    hide Walked;
    NextCell(from, k);
    forall q | 0 <= q < CELLS
      ensures Walked(q, from, k + 1) <==> Walked(q, from, k) || q == i
    {
      OneFurther(q, from, k);
    }
  }

  /** Walking round the ring from cell `from` up to cell `to`. */
  method FillWalk(f: Frame, from: nat, to: nat, v: Cell)
    requires f.Valid() && from < CELLS && to < CELLS
    modifies f.cells
    ensures forall q :: 0 <= q < CELLS ==> f.cells[q] == if Walked(q, from, (to - from) % CELLS) then v else old(f.cells[q])
  {
    hide Walked;
    ghost var length := (to - from) % CELLS;
    ghost var k := 0;
    var i := from;
    WalkBegins(from);
    while i != to
      invariant 0 <= k <= length < CELLS && i == (from + k) % CELLS
      invariant forall q :: 0 <= q < CELLS ==> f.cells[q] == if Walked(q, from, k) then v else old(f.cells[q])
      decreases length - k
    {
      WalkEnds(from, to, k);
      WalkStep(from, k, i);
      f.cells[i] := v;
      i := (i + 1) % CELLS;
      k := k + 1;
    }
    WalkEnds(from, to, k);
  }

  /** The cells from one address up to another, round the ring if need be; `a` and `b` are the places on the screen. */
  method FillRange(f: Frame, from: nat, to: nat, v: Cell, ghost a: int, ghost b: int)
    requires f.Valid() && from == (f.start + a) % CELLS && to == (f.start + b) % CELLS
    modifies f.cells
    ensures ScreenOf(f.cells[..], f.start) == Erased(old(ScreenOf(f.cells[..], f.start)), a, b, v)
    ensures f.View() == ViewErased(old(f.View()), a, b, v)
  {
    hide ViewOf, ScreenOf, Erased, ViewErased;
    ghost var was := f.cells[..];
    FillWalk(f, from, to, v);
    ScreenFilled(was, f.cells[..], f.start, from, to, v, a, b);
    ErasedView(was, f.cells[..], f.start, a, b, v);
  }

  lemma ScreenFilled(was: seq<Cell>, now: seq<Cell>, start: nat, from: nat, to: nat, v: Cell, a: int, b: int)
    requires |was| == |now| == CELLS && from == (start + a) % CELLS && to == (start + b) % CELLS
    requires forall q :: 0 <= q < CELLS ==> now[q] == if Walked(q, from, (to - from) % CELLS) then v else was[q]
    ensures ScreenOf(now, start) == Erased(ScreenOf(was, start), a, b, v)
  {
    SameDifference(start, b, a);
    forall o | 0 <= o < CELLS
      ensures ScreenOf(now, start)[o] == Erased(ScreenOf(was, start), a, b, v)[o]
    {
      SameDifference(start, o, a);
    }
  }

  /** The cell under the cursor, its address kept inside the buffer. */
  function CursorCell(f: Frame): (c: nat)
    requires f.Valid() && 0 <= f.column < COLUMNS
    reads f
    ensures c < CELLS
  {
    (f.start + (f.line * COLUMNS + f.column)) % CELLS
  }

  /** The command that erases cells (X). */
  method EraseCells(f: Frame, n: int)
    requires f.Valid() && 0 <= f.column < COLUMNS
    modifies f.cells
    ensures var a := f.line * COLUMNS + f.column;
            f.View() == ViewErased(old(f.View()), a, a + n, f.style + 32)
  {
    hide ViewOf, ScreenOf, Erased, ViewErased;
    ghost var a := f.line * COLUMNS + f.column;
    var from := CursorCell(f);
    var to := (from + n) % CELLS;
    StepOn(f.start, a, n);
    FillRange(f, from, to, f.style + 32, a, a + n);
  }

  lemma StepOn(start: int, a: int, n: int)
    ensures ((start + a) % CELLS + n) % CELLS == (start + (a + n)) % CELLS
  {
    var q := (start + a) / CELLS;
    assert start + a + n == (start + a) % CELLS + n + q * CELLS;
    SameModulo((start + a) % CELLS + n, q);
  }

  /** The command that erases in the display (J): from the cursor to the end of the screen, from its start up to the cursor, or all of it. */
  method EraseDisplay(f: Frame, n: int)
    requires f.Valid() && 0 <= f.column < COLUMNS
    modifies f.cells
    ensures var a, b := f.line * COLUMNS + f.column, f.height * COLUMNS;
            var v := old(f.View());
            f.View() ==
            (if n == 0 then ViewErased(v, a, b, f.style + 32)
             else if n == 1 then ViewErased(v, 0, a, f.style + 32)
             else if n == 2 then ViewErased(v, 0, b, f.style + 32)
             else v)
  {
    hide ViewOf, ScreenOf, Erased, ViewErased;
    ghost var a, b := f.line * COLUMNS + f.column, f.height * COLUMNS;
    var cursor := CursorCell(f);
    var frameEnd := (f.start + f.height * COLUMNS) % CELLS;
    if n == 0 {
      FillRange(f, cursor, frameEnd, f.style + 32, a, b);
    } else if n == 1 {
      FillRange(f, f.start, cursor, f.style + 32, 0, a);
    } else if n == 2 {
      FillRange(f, f.start, frameEnd, f.style + 32, 0, b);
    }
  }

  /** Erasing below does what it is for, whatever the content, exactly when the cursor is not behind the screen:
      from there the walk goes round the ring and over the whole screen. */
  lemma EraseBelowExact(a: nat, height: nat, x: Cell)
    requires a < CELLS && 1 <= height <= 255
    ensures (forall v: View :: OnlyBelow(v, a, height, x)) <==> a <= height * COLUMNS
  {
    hide Between;
    var b := height * COLUMNS;
    if a <= b {
      forall v: View
        ensures OnlyBelow(v, a, height, x)
      {
        forall k, c | 0 <= k < height && 0 <= c < COLUMNS
          ensures ViewErased(v, a, b, x)[k][c] == if a <= k * COLUMNS + c then x else v[k][c]
        {
          BetweenIsPlain(k * COLUMNS + c, a, b);
        }
      }
    } else {
      var v: View := seq(LINES, _ => Filled(x + 1));
      BehindTheScreen(v, a, height, x, 0, 0);
      assert v[0][0] == x + 1;
      assert !OnlyBelow(v, a, height, x);
    }
  }

  predicate OnlyBelow(v: View, a: nat, height: nat, x: Cell)
    requires height <= 255
  {
    forall k, c :: 0 <= k < height && 0 <= c < COLUMNS ==>
      ViewErased(v, a, height * COLUMNS, x)[k][c] == if a <= k * COLUMNS + c then x else v[k][c]
  }

  lemma ErasedAt(v: View, a: int, b: int, x: Cell, k: nat, c: nat)
    requires k < LINES && c < COLUMNS
    ensures ViewErased(v, a, b, x)[k][c] == if Between(k * COLUMNS + c, a, b) then x else v[k][c]
  {
    hide Between;
  }

  /** From behind the screen every cell of it is erased. */
  lemma BehindTheScreen(v: View, a: nat, height: nat, x: Cell, k: nat, c: nat)
    requires height * COLUMNS < a < CELLS && 1 <= height <= 255 && k < height && c < COLUMNS
    ensures ViewErased(v, a, height * COLUMNS, x)[k][c] == x
  {
    var o, b := k * COLUMNS + c, height * COLUMNS;
    DivUnique(o - a, CELLS, -1, o - a + CELLS);
    DivUnique(b - a, CELLS, -1, b - a + CELLS);
    assert Between(o, a, b);
    hide Between;
    ErasedAt(v, a, b, x, k, c);
  }

  // ---------------------------------------------------------------- where a command leaves the cursor

  datatype Cursor = Cursor(line: int, column: int)

  /** A cursor behind the right edge belongs to the next line. */
  function Entered(c: Cursor, width: int): Cursor {
    if c.column >= width then Cursor(c.line + 1, c.column - width) else c
  }

  function Top(line: int, scrollFrom: int): int {
    if scrollFrom <= line then scrollFrom else 0
  }

  function Bottom(line: int, scrollTo: int, height: int): int {
    var to := if scrollTo > line then scrollTo else height;
    if to > height then height else to
  }

  /** n and m are what sscanf has left of their initial values 1 and 1. */
  function Moved(code: char, n: int, m: int, c: Cursor): Cursor {
    match code
    case 'A' => Cursor(c.line - n, c.column)
    case 'F' => Cursor(c.line - n, 0)
    case 'B' => Cursor(c.line + n, c.column)
    case 'E' => Cursor(c.line + n, 0)
    case 'C' => Cursor(c.line, c.column + n)
    case 'D' => Cursor(c.line, c.column - n)
    case 'G' => Cursor(c.line, n - 1)
    case 'd' => Cursor(n - 1, c.column)
    case 'H' => Cursor(n - 1, m - 1)
    case 'f' => Cursor(n - 1, m - 1)
    case _ => c
  }

  /** The last lines of tty_csi: back between the edges, one line lower for each width of overrun. */
  function Clamped(c: Cursor, from: int, to: int, width: int): Cursor
    requires width >= 1
  {
    var line := if c.line < from then from else c.line;
    var column := if c.column < 0 then 0 else c.column;
    var below := line + column / width;
    Cursor(if below >= to then to - 1 else below, column % width)
  }

  function AfterCommand(code: char, n: int, m: int, c: Cursor, scrollFrom: int, scrollTo: int, width: int, height: int): Cursor
    requires width >= 1
  {
    var e := Entered(c, width);
    Clamped(Moved(code, n, m, e), Top(e.line, scrollFrom), Bottom(e.line, scrollTo, height), width)
  }

  /** Every moving or editing command leaves the cursor in a column of the screen and not below its last line. */
  lemma CommandKeepsCursor(code: char, n: int, m: int, c: Cursor, scrollFrom: int, scrollTo: int, width: int, height: int)
    requires 1 <= width && 1 <= height && 0 <= c.line
    ensures var r := AfterCommand(code, n, m, c, scrollFrom, scrollTo, width, height);
            && 0 <= r.column < width && r.line < height
            && (scrollFrom >= 0 ==> r.line >= 0)
            && (Entered(c, width).line < height ==>
                  Top(Entered(c, width).line, scrollFrom) <= r.line < Bottom(Entered(c, width).line, scrollTo, height))
  {
    hide Moved;
    var e := Entered(c, width);
    var p := Moved(code, n, m, e);
    var column := if p.column < 0 then 0 else p.column;
    NotNegative(column, width);
  }

  lemma NotNegative(x: int, width: int)
    requires 0 <= x && 1 <= width
    ensures 0 <= x / width && 0 <= x % width < width
  {
  }

  /** It stays on the screen for every command exactly as long as the scroll region does not start above it;
      `CSI 0 r` makes it start at line -1. */
  lemma OnScreenExact(c: Cursor, scrollFrom: int, scrollTo: int, width: int, height: int)
    requires 1 <= width && 1 <= height && 0 <= c.line
    ensures (forall code: char, n: int, m: int :: AfterCommand(code, n, m, c, scrollFrom, scrollTo, width, height).line >= 0)
            <==> scrollFrom >= 0
  {
    if scrollFrom >= 0 {
      forall code: char, n: int, m: int
        ensures AfterCommand(code, n, m, c, scrollFrom, scrollTo, width, height).line >= 0
      {
        CommandKeepsCursor(code, n, m, c, scrollFrom, scrollTo, width, height);
      }
    } else {
      var e := Entered(c, width);
      var r := AfterCommand('F', e.line - scrollFrom, 0, c, scrollFrom, scrollTo, width, height);
      assert r.line < 0;
    }
  }

  /** The final loop wraps the column into the line below until it fits; then the line is clamped. */
  method Settle(c: Cursor, from: int, to: int, width: int) returns (r: Cursor)
    requires width >= 1
    ensures r == Clamped(c, from, to, width)
  {
    var line, column := c.line, c.column;
    if line < from {
      line := from;
    }
    if column < 0 {
      column := 0;
    }
    ghost var line0, column0 := line, column;
    while column >= width
      invariant column >= 0 && column0 / width - column / width == line - line0 && column0 % width == column % width
      decreases column
    {
      DivStep(column, width);
      column := column - width;
      line := line + 1;
    }
    FitsWidth(column, width);
    if line >= to {
      line := to - 1;
    }
    r := Cursor(line, column);
  }

  lemma FitsWidth(x: int, width: int)
    requires 0 <= x < width
    ensures x / width == 0 && x % width == x
  {
    DivUnique(x, width, 0, x);
  }

  // ---------------------------------------------------------------- tty_csi

  predicate IsMove(code: char) {
    code == 'A' || code == 'B' || code == 'C' || code == 'D' || code == 'E' || code == 'F' || code == 'G'
    || code == 'd' || code == 'f' || code == 'H'
  }

  predicate IsEdit(code: char) {
    code == 'X' || code == 'P' || code == '@' || code == 'J' || code == 'K'
  }

  /** What the editing commands make of the screen, at the cursor as it is after entering the next line. */
  function EditedView(v: View, code: char, n: int, c: Cursor, height: int, x: Cell): View
    requires 0 <= c.column < COLUMNS && (code == 'P' || code == '@' ==> n >= 0)
  {
    var a, b, i := c.line * COLUMNS + c.column, height * COLUMNS, c.line % LINES;
    match code
    case 'X' => ViewErased(v, a, a + n, x)
    case 'P' => v[i := CellsDeleted(v[i], c.column, n)]
    case '@' => v[i := CellsInserted(v[i], c.column, n, x)]
    case 'J' => if n == 0 then ViewErased(v, a, b, x) else if n == 1 then ViewErased(v, 0, a, x)
                else if n == 2 then ViewErased(v, 0, b, x) else v
    case 'K' => v[i := CellsErased(v[i], EraseFrom(n, c.column), EraseTo(n, c.column), x)]
    case _ => v
  }

  method Edit(f: Frame, code: char, n: int)
    requires f.Valid() && 0 <= f.column < COLUMNS && IsEdit(code) && (code == 'P' || code == '@' ==> n >= 0)
    modifies f.cells
    ensures f.View() == EditedView(old(f.View()), code, n, Cursor(f.line, f.column), f.height, f.style + 32)
  {
    hide ViewOf, ViewErased, CellsDeleted, CellsInserted, CellsErased;
    if code == 'X' {
      EraseCells(f, n);
    } else if code == 'P' {
      DeleteCells(f, n);
    } else if code == '@' {
      InsertCells(f, n);
    } else if code == 'J' {
      EraseDisplay(f, n);
    } else {
      EraseLine(f, n);
    }
  }

  /** What the commands read and change. */
  datatype Editing = Editing(place: Place, saved: Cursor, scrollFrom: int, scrollTo: int)

  ghost function EditingOf(f: Frame): Editing
    reads f, f.cells
    requires f.Valid()
  {
    Editing(Place(f.View(), f.line, f.column), Cursor(f.lineCopy, f.columnCopy), f.scrollFrom, f.scrollTo)
  }

  /** A command that goes on to the last lines of tty_csi; `mode` stands for the four mode sequences that the switch knows. */
  predicate Settles(code: char, mode: bool) {
    IsMove(code) || IsEdit(code) || code == 'm' || mode
  }

  predicate Fits(p: Place, code: char, n: int, width: int, height: int) {
    && 1 <= width && 1 <= height <= 254 && 0 <= p.line
    && 0 <= Entered(Cursor(p.line, p.column), width).column < COLUMNS
    && (code == 'P' || code == '@' ==> n >= 0)
  }

  /** The switch of tty_csi; n and m are what sscanf has left in the two variables. */
  function Commanded(t: Editing, code: char, n: int, m: int, mode: bool, width: int, height: int, x: Cell): Editing
    requires Fits(t.place, code, n, width, height)
  {
    var c := Cursor(t.place.line, t.place.column);
    var e := Entered(c, width);
    var v := t.place.view;
    if code == 'L' || code == 'M' then
      t.(place := Place(Region(v, height, e.line, Bottom(e.line, t.scrollTo, height), if code == 'L' then n else -n, Filled(x)),
                        e.line, e.column))
    else if code == 'S' then t.(place := Place(Rotated(v, -n), e.line, e.column))
    else if code == 'T' then t.(place := Place(Rotated(v, n), e.line, e.column))
    else if code == 'r' then Editing(Place(v, 0, 0), t.saved, n - 1, if m <= 0 then height else m)
    else if code == 's' then t.(place := Place(v, e.line, e.column), saved := e)
    else if code == 'u' then t.(place := Place(v, t.saved.line, t.saved.column))
    else if Settles(code, mode) then
      var r := AfterCommand(code, n, m, c, t.scrollFrom, t.scrollTo, width, height);
      t.(place := Place(EditedView(v, code, n, e, height, x), r.line, r.column))
    else t.(place := Place(v, e.line, e.column))
  }

  method Csi(f: Frame, code: char, n: int, m: int, mode: bool)
    requires f.Valid() && Fits(Place(f.View(), f.line, f.column), code, n, f.width, f.height)
    modifies f`line, f`column, f`lineCopy, f`columnCopy, f`scrollFrom, f`scrollTo, f`start, f.cells
    ensures f.Valid()
    ensures EditingOf(f) == Commanded(old(EditingOf(f)), code, n, m, mode, f.width, f.height, f.style + 32)
  {
    hide EditedView, Region, Rotated, ViewOf, Clamped, Moved;
    if f.column >= f.width {
      f.column := f.column - f.width;
      f.line := f.line + 1;
    }
    ghost var e := Cursor(f.line, f.column);
    var from := Top(f.line, f.scrollFrom);
    var to := Bottom(f.line, f.scrollTo, f.height);
    if code == 'L' {
      f.ScrollRegion(f.line, to, n);
      return;
    } else if code == 'M' {
      f.ScrollRegion(f.line, to, -n);
      return;
    } else if code == 'S' {
      f.ScrollAll(-n);
      return;
    } else if code == 'T' {
      f.ScrollAll(n);
      return;
    } else if code == 'r' {
      f.scrollFrom := n - 1;
      f.scrollTo := if m <= 0 then f.height else m;
      f.column, f.line := 0, 0;
      return;
    } else if code == 's' {
      f.columnCopy, f.lineCopy := f.column, f.line;
      return;
    } else if code == 'u' {
      f.column, f.line := f.columnCopy, f.lineCopy;
      return;
    } else if !Settles(code, mode) {
      return;
    }
    EditOrStay(f, code, n);
    var moved := Moved(code, n, m, Cursor(f.line, f.column));
    var r := Settle(moved, from, to, f.width);
    f.line, f.column := r.line, r.column;
  }

  method EditOrStay(f: Frame, code: char, n: int)
    requires f.Valid() && 0 <= f.column < COLUMNS && (code == 'P' || code == '@' ==> n >= 0)
    modifies f.cells
    ensures f.View() == EditedView(old(f.View()), code, n, Cursor(f.line, f.column), f.height, f.style + 32)
  {
    hide ViewOf, ViewErased, CellsDeleted, CellsInserted, CellsErased;
    if IsEdit(code) {
      Edit(f, code, n);
    }
  }
}
