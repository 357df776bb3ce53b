/** The frame of one terminal as the window manager stores and scrolls it (software/textwm2/tty.c:13-76). */
module TtyFrame {
  import opened Arithmetic
  import opened TtyScreen

  function Row(cells: seq<Cell>, r: int): Line
    requires |cells| == CELLS && 0 <= r < LINES
  {
    cells[r * COLUMNS..r * COLUMNS + COLUMNS]
  }

  function RowAt(cells: seq<Cell>, first: int, k: int): Line
    requires |cells| == CELLS && 0 <= first < LINES
  {
    Row(cells, (first + k) % LINES)
  }

  function ViewOf(cells: seq<Cell>, first: int): View
    requires |cells| == CELLS && 0 <= first < LINES
  {
    seq(LINES, k => RowAt(cells, first, k))
  }

  /** Replacing one row of the ring replaces one line of the view. */
  lemma ViewUpdate(before: seq<Cell>, after: seq<Cell>, first: int, i: int, r: int, x: Line)
    requires |before| == |after| == CELLS && 0 <= first < LINES && r == (first + i) % LINES
    requires forall q :: 0 <= q < LINES ==> Row(after, q) == if q == r then x else Row(before, q)
    ensures ViewOf(after, first) == ViewOf(before, first)[i % LINES := x]
  {
    hide Row;
    forall k | 0 <= k < LINES
      ensures ViewOf(after, first)[k] == ViewOf(before, first)[i % LINES := x][k]
    {
      SameRow(first, k, i);
    }
  }

  lemma SameRow(first: int, k: int, i: int)
    requires 0 <= first < LINES && 0 <= k < LINES
    ensures (first + k) % LINES == (first + i) % LINES <==> k == i % LINES
  {
  }

  lemma RowUpdate(before: seq<Cell>, after: seq<Cell>, r: int)
    requires |before| == |after| == CELLS && 0 <= r < LINES
    requires forall j :: 0 <= j < CELLS && !(r * COLUMNS <= j < r * COLUMNS + COLUMNS) ==> after[j] == before[j]
    ensures forall q :: 0 <= q < LINES && q != r ==> Row(after, q) == Row(before, q)
  {
  }

  lemma RowCopied(before: seq<Cell>, after: seq<Cell>, r: int, s: int)
    requires |before| == |after| == CELLS && r % COLUMNS == 0 && s % COLUMNS == 0
    requires 0 <= r && r + COLUMNS <= CELLS && 0 <= s && s + COLUMNS <= CELLS
    requires forall j :: r <= j < r + COLUMNS ==> after[j] == before[j - r + s]
    ensures Row(after, r / COLUMNS) == Row(before, s / COLUMNS)
  {
  }

  lemma ViewLine(cells: seq<Cell>, first: int, i: int)
    requires |cells| == CELLS && 0 <= first < LINES
    ensures ViewOf(cells, first)[i % LINES] == Row(cells, (first + i) % LINES)
  {
    SameSum(first, i, 0);
  }

  lemma ViewRotate(cells: seq<Cell>, first: int, count: int)
    requires |cells| == CELLS && 0 <= first < LINES
    ensures ViewOf(cells, (first + count) % LINES) == Rotated(ViewOf(cells, first), count)
  {
    hide Row;
    forall k | 0 <= k < LINES
      ensures ViewOf(cells, (first + count) % LINES)[k] == Rotated(ViewOf(cells, first), count)[k]
    {
      SameSum(first, count, k);
    }
  }

  lemma SameSum(first: int, count: int, k: int)
    ensures ((first + count) % LINES + k) % LINES == (first + (k + count) % LINES) % LINES
  {
  }

  /** What a terminal shows, and where its cursor is. */
  datatype Place = Place(view: View, line: int, column: int)

  /** A cursor behind the right edge goes to the next line, where a scrolling region may end; below the last line the
      screen scrolls as far as needed. */
  function AfterScroll(p: Place, width: int, height: int, scrollFrom: int, scrollTo: int, blank: Line): Place
    requires 0 <= scrollFrom
  {
    var wraps := p.column >= width;
    var next := if wraps then p.line + 1 else p.line;
    var inRegion := wraps && next == scrollTo && next < height;
    var v := if inRegion then Deleted(p.view, scrollFrom, scrollTo, 1, blank) else p.view;
    var at := if inRegion then next - 1 else next;
    var n := if at >= height then at - height + 1 else 0;
    Place(Scrolled(v, height, n, blank), at - n, if wraps then 0 else p.column)
  }

  class Frame {
    const cells: array<Cell>
    /** Cell number of the first line of the screen. */
    var start: nat
    var line: int
    var column: int
    var lineCopy: int
    var columnCopy: int
    var width: int
    var height: int
    var scrollFrom: int
    var scrollTo: int
    var style: Cell
    /** The characters a to x stand for line graphics. */
    var graphics: bool
    var bold: bool
    /** What ESC 7 has saved. */
    var styleCopy: Cell
    var boldCopy: bool
    var cursorHidden: bool

    ghost predicate Valid()
      reads this
    {
      cells.Length == CELLS && start < CELLS && start % COLUMNS == 0
    }

    ghost function View(): View
      reads this, cells
      requires Valid()
    {
      ViewOf(cells[..], start / COLUMNS)
    }

    /** tty_line(tty, i), as a cell number. */
    function LineCell(i: int): (r: int)
      reads this
      requires Valid()
      ensures 0 <= r && r + COLUMNS <= CELLS && r % COLUMNS == 0 && r / COLUMNS == (start / COLUMNS + i) % LINES
    {
      LineCellIsRow(start, i);
      (start + i * COLUMNS) % CELLS
    }

    method LineFill(i: int)
      requires Valid()
      modifies cells
      ensures View() == old(View())[i % LINES := Filled(style + 32)]
    {
      var r := LineCell(i);
      var k := 0;
      while k < COLUMNS
        invariant 0 <= k <= COLUMNS
        invariant forall j :: 0 <= j < CELLS ==> cells[j] == if r <= j < r + k then style + 32 else old(cells[j])
      {
        cells[r + k] := style + 32;
        k := k + 1;
      }
      RowUpdate(old(cells[..]), cells[..], r / COLUMNS);
      ViewUpdate(old(cells[..]), cells[..], start / COLUMNS, i, r / COLUMNS, Filled(style + 32));
    }

    method LineCopy(to: int, from: int)
      requires Valid()
      modifies cells
      ensures View() == old(View())[to % LINES := old(View())[from % LINES]]
    {
      hide Row, ViewOf, RowAt;
      var r, s := LineCell(to), LineCell(from);
      ghost var was := cells[..];
      ViewLine(was, start / COLUMNS, from);
      CopyCells(r, s);
      RowUpdate(was, cells[..], r / COLUMNS);
      RowCopied(was, cells[..], r, s);
      ViewUpdate(was, cells[..], start / COLUMNS, to, r / COLUMNS, old(View())[from % LINES]);
    }

    /** line_copy on two line addresses, which are equal or a whole line apart. */
    method CopyCells(r: nat, s: nat)
      requires cells.Length == CELLS && r + COLUMNS <= CELLS && s + COLUMNS <= CELLS
      requires r == s || r + COLUMNS <= s || s + COLUMNS <= r
      modifies cells
      ensures forall j :: 0 <= j < CELLS && !(r <= j < r + COLUMNS) ==> cells[j] == old(cells[j])
      ensures forall j :: r <= j < r + COLUMNS ==> cells[j] == old(cells[j - r + s])
    {
      var k := 0;
      while k < COLUMNS
        invariant 0 <= k <= COLUMNS
        invariant forall j :: 0 <= j < CELLS && !(r <= j < r + k) ==> cells[j] == old(cells[j])
        invariant forall j :: r <= j < r + k ==> cells[j] == old(cells[j - r + s])
      {
        cells[r + k] := cells[s + k];
        k := k + 1;
      }
    }

    method ScrollAll(count: int)
      requires Valid()
      modifies this`start
      ensures Valid() && View() == Rotated(old(View()), count)
    {
      ViewRotate(cells[..], start / COLUMNS, count);
      LineCellIsRow(start, count);
      start := (start + count * COLUMNS) % CELLS;
    }

    /** The loop that blanks the lines lo up to hi. */
    method FillLines(lo: int, hi: int)
      requires Valid()
      modifies cells
      ensures View() == Blanked(old(View()), lo, hi, Filled(style + 32))
    {
      hide ViewOf, Blanked;
      ghost var v, blank := View(), Filled(style + 32);
      var i := lo;
      BlankedNone(v, lo, hi, blank);
      while i < hi
        invariant i == lo || lo <= i <= hi
        invariant View() == if lo < hi then Blanked(v, lo, i, blank) else v
      {
        BlankedNext(v, lo, i, blank);
        LineFill(i);
        i := i + 1;
      }
    }

    method MoveLinesDown(from: int, to: int, count: int)
      requires Valid() && 0 <= from && 0 < count && to <= LINES
      modifies cells
      ensures View() == MovedDown(old(View()), from, to, count, from + count - 1)
    {
      hide ViewOf, MovedDown;
      ghost var v := View();
      var i := to - 1;
      MovedDownNone(v, from, to, count);
      while i >= from + count
        invariant i < to && (i >= from + count - 1 || i == to - 1)
        invariant View() == MovedDown(v, from, to, count, i)
      {
        InRing(i);
        InRing(i - count);
        MovedDownNext(v, from, to, count, i);
        LineCopy(i, i - count);
        i := i - 1;
      }
      MovedDownDone(v, from, to, count, i);
    }

    method MoveLinesUp(from: int, to: int, count: int)
      requires Valid() && 0 <= from && 0 <= count && to <= LINES
      modifies cells
      ensures View() == MovedUp(old(View()), from, to, count, to - count)
    {
      hide ViewOf, MovedUp;
      ghost var v := View();
      var i := from;
      MovedUpNone(v, from, to, count);
      while i < to - count
        invariant from <= i && (i <= to - count || i == from)
        invariant View() == MovedUp(v, from, to, count, i)
      {
        InRing(i);
        InRing(i + count);
        MovedUpNext(v, from, to, count, i);
        LineCopy(i, i + count);
        i := i + 1;
      }
      MovedUpDone(v, from, to, count, i);
    }

    method ScrollRegion(from: int, to: int, count: int)
      requires Valid() && 0 <= from && 0 <= to <= LINES
      modifies cells, this`start
      ensures Valid() && View() == Region(old(View()), height, from, to, count, Filled(style + 32))
    {
      hide ViewOf, Rotated, Blanked, MovedUp, MovedDown, Inserted, Deleted;
      ghost var v := View();
      if count > 0 {
        if from == 0 && to == height {
          ScrollAll(count);
        } else {
          MoveLinesDown(from, to, count);
          InsertedBlanked(v, from, to, count, Filled(style + 32));
        }
        FillLines(from, from + count);
      } else {
        if from == 0 && to == height {
          ScrollAll(count);
        } else {
          MoveLinesUp(from, to, -count);
          DeletedBlanked(v, from, to, -count, Filled(style + 32));
        }
        FillLines(to + count, to);
      }
    }

    /** The cursor behind the right or the bottom edge: next line, and the screen scrolls as far as needed. */
    method MaybeScroll()
      requires Valid() && 1 <= height && height + 2 <= LINES && 0 <= line && 0 <= scrollFrom
      modifies cells, this`start, this`line, this`column
      ensures Valid()
      ensures Place(View(), line, column) ==
              AfterScroll(Place(old(View()), old(line), old(column)), width, height, scrollFrom, scrollTo, Filled(style + 32))
    {
      hide ViewOf, Rotated, Blanked, Deleted;
      ghost var v := View();
      if column >= width {
        column := 0;
        line := line + 1;
        if line == scrollTo && line < height {
          ScrollRegion(scrollFrom, scrollTo, -1);
          v := View();
          line := line - 1;
        }
      }
      ghost var at := line;
      ghost var n := 0;
      while line >= height
        invariant column == (if old(column) >= width then 0 else old(column))
        invariant Valid() && 0 <= n && line == at - n && (n > 0 ==> line >= height - 1)
        invariant View() == Scrolled(v, height, n, Filled(style + 32))
      {
        line := line - 1;
        FillLines(height, height + 2);
        ScrollAll(1);
        n := n + 1;
      }
    }
  }

  lemma InRing(i: int)
    requires 0 <= i < LINES
    ensures i % LINES == i
  {
  }

  // ---------------------------------------------------------------- the loops, line by line

  lemma BlankedNone(v: View, lo: int, hi: int, blank: Line)
    ensures Blanked(v, lo, lo, blank) == v
    ensures lo >= hi ==> Blanked(v, lo, hi, blank) == v
  {
  }

  lemma BlankedNext(v: View, lo: int, i: int, blank: Line)
    requires lo <= i
    ensures Blanked(v, lo, i + 1, blank) == Blanked(v, lo, i, blank)[i % LINES := blank]
  {
    forall k | 0 <= k < LINES
      ensures InRange(k, lo, i + 1) <==> k == i % LINES || InRange(k, lo, i)
    {
      OneMore(k, lo, i);
    }
  }

  lemma OneMore(k: int, lo: int, i: int)
    requires lo <= i && 0 <= k < LINES
    ensures InRange(k, lo, i + 1) <==> k == i % LINES || InRange(k, lo, i)
  {
    if (k - lo) % LINES == i - lo {
      SameRow(0, k, i);
      assert k % LINES == i % LINES;
    }
  }

  /** The lines above `i` have been moved down. */
  function MovedDown(v: View, from: int, to: int, count: int, i: int): View
    requires 0 <= from && 0 < count
  {
    seq(LINES, k requires 0 <= k < LINES => if from + count <= k < to && i < k then v[k - count] else v[k])
  }

  lemma MovedDownNone(v: View, from: int, to: int, count: int)
    requires 0 <= from && 0 < count
    ensures MovedDown(v, from, to, count, to - 1) == v
  {
  }

  lemma MovedDownNext(v: View, from: int, to: int, count: int, i: int)
    requires 0 <= from && 0 < count && from + count <= i < to <= LINES
    ensures var w := MovedDown(v, from, to, count, i);
            MovedDown(v, from, to, count, i - 1) == w[i := w[i - count]]
  {
  }

  lemma MovedDownDone(v: View, from: int, to: int, count: int, i: int)
    requires 0 <= from && 0 < count && i < from + count
    ensures MovedDown(v, from, to, count, i) == MovedDown(v, from, to, count, from + count - 1)
  {
  }

  /** The lines below `i` have been moved up. */
  function MovedUp(v: View, from: int, to: int, count: int, i: int): View
    requires 0 <= from && 0 <= count && to <= LINES
  {
    seq(LINES, k requires 0 <= k < LINES => if from <= k < to - count && k < i then v[k + count] else v[k])
  }

  lemma MovedUpNone(v: View, from: int, to: int, count: int)
    requires 0 <= from && 0 <= count && to <= LINES
    ensures MovedUp(v, from, to, count, from) == v
  {
  }

  lemma MovedUpNext(v: View, from: int, to: int, count: int, i: int)
    requires 0 <= from <= i && 0 <= count && i < to - count && to <= LINES
    ensures var w := MovedUp(v, from, to, count, i);
            MovedUp(v, from, to, count, i + 1) == w[i := w[i + count]]
  {
  }

  lemma MovedUpDone(v: View, from: int, to: int, count: int, i: int)
    requires 0 <= from && 0 <= count && to - count <= i && to <= LINES
    ensures MovedUp(v, from, to, count, i) == MovedUp(v, from, to, count, to - count)
  {
  }

  lemma InsertedBlanked(v: View, from: int, to: int, count: int, blank: Line)
    requires 0 <= from && 0 < count && to <= LINES
    ensures Blanked(MovedDown(v, from, to, count, from + count - 1), from, from + count, blank)
            == Inserted(v, from, to, count, blank)
  {
  }

  lemma DeletedBlanked(v: View, from: int, to: int, count: int, blank: Line)
    requires 0 <= from && 0 <= count && to <= LINES
    ensures Blanked(MovedUp(v, from, to, count, to - count), to - count, to, blank)
            == Deleted(v, from, to, count, blank)
  {
  }

  /** Cells of whole lines: the ring of cells and the ring of lines agree. */
  lemma LineCellIsRow(start: int, i: int)
    requires 0 <= start < CELLS && start % COLUMNS == 0
    ensures var r := (start + i * COLUMNS) % CELLS;
            r == (start / COLUMNS + i) % LINES * COLUMNS && r / COLUMNS == (start / COLUMNS + i) % LINES && r % COLUMNS == 0
  {
    var f := start / COLUMNS;
    var q, m := (f + i) / LINES, (f + i) % LINES;
    DivUnique(start + i * COLUMNS, CELLS, q, m * COLUMNS);
    DivUnique(m * COLUMNS, COLUMNS, m, 0);
  }
}
