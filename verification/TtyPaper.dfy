/**
  Typing in a terminal window (software/textwm2/tty.c:59-76, 103-114, 343-364): what the screen shows is the end of a
  paper that grows for ever, and a text lies on that paper wrapped at the width of the window.
 */
module TtyPaper {
  import opened MachineTypes
  import opened Arithmetic
  import opened TtyScreen
  import opened TtyFrame
  import opened TtyParser

  /** The size of the window, its scrolling region and its blank line. */
  datatype Page = Page(width: int, height: int, scrollFrom: int, scrollTo: int, blank: Line)

  predicate ValidPage(g: Page) {
    1 <= g.width <= COLUMNS && 1 <= g.height && g.height + 2 <= LINES && 0 <= g.scrollFrom
  }

  /** The code that a character has in the font, with the style; the first argument selects the graphics table. */
  type Glyph = (bool, uint32) -> Cell

  // ---------------------------------------------------------------- what the terminal does

  datatype Terminal = Terminal(place: Place, graphics: bool)

  predicate ValidPlace(p: Place) {
    0 <= p.line && 0 <= p.column
  }

  function Scrolling(p: Place, g: Page): (r: Place)
    requires ValidPage(g) && ValidPlace(p)
    ensures ValidPlace(r) && r.line < g.height && r.column < g.width
  {
    AfterScroll(p, g.width, g.height, g.scrollFrom, g.scrollTo, g.blank)
  }

  function Put(p: Place, g: Page, x: Cell): (r: Place)
    requires ValidPage(g) && ValidPlace(p)
    ensures ValidPlace(r)
  {
    var q := Scrolling(p, g);
    Place(q.view[q.line := q.view[q.line][q.column := x]], q.line, q.column + 1)
  }

  function NextTab(column: int): int {
    (column + 8) / 8 * 8
  }

  function Controlled(p: Place, g: Page, c: byte): (r: Place)
    requires ValidPage(g) && ValidPlace(p)
    ensures ValidPlace(r)
  {
    if c == 8 then p.(column := if p.column > 0 then p.column - 1 else 0)
    else if c == 9 then p.(column := NextTab(p.column))
    else if 10 <= c <= 12 then Scrolling(p.(column := g.width), g)
    else if c == 13 then p.(column := 0)
    else p
  }

  function Shifted(graphics: bool, c: byte): bool {
    if c == 14 then true else if c == 15 then false else graphics
  }

  predicate Typing(actions: seq<Action>) {
    forall a :: a in actions ==> a.Print? || a.Control?
  }

  function Perform(t: Terminal, g: Page, glyph: Glyph, a: Action): (r: Terminal)
    requires ValidPage(g) && ValidPlace(t.place) && (a.Print? || a.Control?)
    ensures ValidPlace(r.place)
  {
    if a.Print? then t.(place := Put(t.place, g, glyph(t.graphics, a.ucode)))
    else Terminal(Controlled(t.place, g, a.c), Shifted(t.graphics, a.c))
  }

  function PerformAll(t: Terminal, g: Page, glyph: Glyph, actions: seq<Action>): (r: Terminal)
    requires ValidPage(g) && ValidPlace(t.place) && Typing(actions)
    ensures ValidPlace(r.place)
    decreases |actions|
  {
    if actions == [] then t else PerformAll(Perform(t, g, glyph, actions[0]), g, glyph, actions[1..])
  }

  lemma {:induction false} PerformAppend(t: Terminal, g: Page, glyph: Glyph, a: seq<Action>, b: seq<Action>)
    requires ValidPage(g) && ValidPlace(t.place) && Typing(a) && Typing(b)
    ensures Typing(a + b)
    ensures PerformAll(t, g, glyph, a + b) == PerformAll(PerformAll(t, g, glyph, a), g, glyph, b)
    decreases |a|
  {
    hide Perform;
    if a == [] {
      assert a + b == b;
    } else {
      assert (a + b)[1..] == a[1..] + b;
      PerformAppend(Perform(t, g, glyph, a[0]), g, glyph, a[1..], b);
    }
  }

  // ---------------------------------------------------------------- the paper

  /** All lines that have ever been on the screen, and the cursor on them. */
  datatype Sheet = Sheet(paper: seq<Line>, row: nat, column: nat)

  /** The paper when the cursor runs into the end of a scrolling region: the first line of the region is taken out and a
      blank one comes in as its last.  `top` is the row of the first line on the screen. */
  function RegionFed(paper: seq<Line>, top: nat, g: Page): (r: seq<Line>)
    requires ValidPage(g) && 1 <= g.scrollTo <= g.height && top + g.height <= |paper|
    ensures |r| == |paper|
  {
    var a, b := top + g.scrollFrom, top + g.scrollTo;
    if a < b then paper[..a] + paper[a + 1..b] + [g.blank] + paper[b..] else paper[b - 1 := g.blank]
  }

  /** A cursor behind the right edge goes to the next row; at the end of a scrolling region the region moves up instead, and
      at the end of the paper a blank row comes on. */
  function Fed(s: Sheet, g: Page): (r: Sheet)
    requires ValidPage(g) && g.height <= |s.paper|
    ensures g.height <= |r.paper| && r.row < |r.paper| && r.column < g.width
  {
    var top := |s.paper| - g.height;
    var wraps := s.column >= g.width;
    var row := if wraps then s.row + 1 else s.row;
    var column := if wraps then 0 else s.column;
    if wraps && row == top + g.scrollTo && 1 <= g.scrollTo < g.height then Sheet(RegionFed(s.paper, top, g), row - 1, column)
    else Sheet(if row < |s.paper| then s.paper else s.paper + seq(row + 1 - |s.paper|, _ => g.blank), row, column)
  }

  function Typed(s: Sheet, g: Page, x: Cell): (r: Sheet)
    requires ValidPage(g) && g.height <= |s.paper|
    ensures g.height <= |r.paper|
  {
    var t := Fed(s, g);
    Sheet(t.paper[t.row := t.paper[t.row][t.column := x]], t.row, t.column + 1)
  }

  function SheetControlled(s: Sheet, g: Page, c: byte): (r: Sheet)
    requires ValidPage(g) && g.height <= |s.paper|
    ensures g.height <= |r.paper|
  {
    if c == 8 then s.(column := if s.column > 0 then s.column - 1 else 0)
    else if c == 9 then s.(column := NextTab(s.column))
    else if 10 <= c <= 12 then Fed(s.(column := g.width), g)
    else if c == 13 then s.(column := 0)
    else s
  }

  datatype Draft = Draft(sheet: Sheet, graphics: bool)

  function Write(d: Draft, g: Page, glyph: Glyph, a: Action): (r: Draft)
    requires ValidPage(g) && g.height <= |d.sheet.paper| && (a.Print? || a.Control?)
    ensures g.height <= |r.sheet.paper|
  {
    if a.Print? then d.(sheet := Typed(d.sheet, g, glyph(d.graphics, a.ucode)))
    else Draft(SheetControlled(d.sheet, g, a.c), Shifted(d.graphics, a.c))
  }

  function WriteAll(d: Draft, g: Page, glyph: Glyph, actions: seq<Action>): (r: Draft)
    requires ValidPage(g) && g.height <= |d.sheet.paper| && Typing(actions)
    ensures g.height <= |r.sheet.paper|
    decreases |actions|
  {
    if actions == [] then d else WriteAll(Write(d, g, glyph, actions[0]), g, glyph, actions[1..])
  }

  // ---------------------------------------------------------------- the screen is the end of the paper

  /** The screen shows the end of the paper, with the cursor on the same cell. */
  predicate Shown(p: Place, s: Sheet, height: nat)
    requires height <= LINES
  {
    && Shows(p.view, height, s.paper) && ValidPlace(p)
    && s.row == |s.paper| - height + p.line && s.column == p.column
  }

  lemma ShownPlace(p: Place, s: Sheet, height: nat)
    requires height <= LINES && Shown(p, s, height)
    ensures ValidPlace(p) && height <= |s.paper|
  {
  }

  lemma FeedShown(p: Place, s: Sheet, g: Page)
    requires ValidPage(g) && Shown(p, s, g.height)
    ensures g.height <= |s.paper| && Shown(Scrolling(p, g), Fed(s, g), g.height)
  {
    hide Scrolled, Shows, RegionFed, Deleted;
    ShownPlace(p, s, g.height);
    var next := if p.column >= g.width then p.line + 1 else p.line;
    if p.column >= g.width && next == g.scrollTo < g.height {
      RegionShown(p.view, s.paper, g);
    } else {
      var n := if next >= g.height then next - g.height + 1 else 0;
      ScrollingFeedsPaper(p.view, g.height, n, g.blank, s.paper);
      assert n == 0 ==> s.paper + seq(n, _ => g.blank) == s.paper;
    }
  }

  lemma RegionShown(v: View, paper: seq<Line>, g: Page)
    requires ValidPage(g) && 1 <= g.scrollTo < g.height && Shows(v, g.height, paper)
    ensures |paper| >= g.height
    ensures Shows(Scrolled(Deleted(v, g.scrollFrom, g.scrollTo, 1, g.blank), g.height, 0, g.blank), g.height,
                  RegionFed(paper, |paper| - g.height, g))
  {
    hide Deleted;
    var w, top := Deleted(v, g.scrollFrom, g.scrollTo, 1, g.blank), |paper| - g.height;
    forall k | 0 <= k < g.height
      ensures w[k] == RegionFed(paper, top, g)[top + k]
    {
      LinesDeletedAt(v, g.scrollFrom, g.scrollTo, 1, g.blank, k);
      InRangeIsPlain(k, g.scrollTo - 1, g.scrollTo);
      RegionFedAt(paper, top, g, top + k);
      hide RegionFed;
    }
  }

  lemma RegionFedAt(paper: seq<Line>, top: nat, g: Page, r: nat)
    requires ValidPage(g) && 1 <= g.scrollTo <= g.height && top + g.height <= |paper| && r < |paper|
    ensures RegionFed(paper, top, g)[r] ==
            (if top + g.scrollFrom <= r < top + g.scrollTo - 1 then paper[r + 1]
             else if r == top + g.scrollTo - 1 then g.blank else paper[r])
  {
    var a, b := top + g.scrollFrom, top + g.scrollTo;
    if a < b {
      var front, middle, rest := paper[..a], paper[a + 1..b], paper[b..];
      if a <= r < b - 1 {
        assert (front + middle + [g.blank] + rest)[r] == middle[r - a];
      } else if b <= r {
        assert (front + middle + [g.blank] + rest)[r] == rest[r - b];
      }
    }
  }

  lemma PutShown(p: Place, s: Sheet, g: Page, x: Cell)
    requires ValidPage(g) && Shown(p, s, g.height)
    ensures g.height <= |s.paper| && Shown(Put(p, g, x), Typed(s, g, x), g.height)
  {
    FeedShown(p, s, g);
    hide Scrolling, Fed;
  }

  lemma ControlShown(p: Place, s: Sheet, g: Page, c: byte)
    requires ValidPage(g) && Shown(p, s, g.height)
    ensures g.height <= |s.paper| && Shown(Controlled(p, g, c), SheetControlled(s, g, c), g.height)
  {
    FeedShown(p.(column := g.width), s.(column := g.width), g);
    hide Scrolling, Fed;
  }

  /** Whatever is typed, with any control codes and any scrolling region: the screen stays the end of the paper, and only
      the first line of a region ever leaves it. */
  lemma {:induction false} TypingIsOnPaper(t: Terminal, d: Draft, g: Page, glyph: Glyph, actions: seq<Action>)
    requires ValidPage(g) && Typing(actions)
    requires Shown(t.place, d.sheet, g.height) && t.graphics == d.graphics
    ensures g.height <= |d.sheet.paper|
    ensures var r, e := PerformAll(t, g, glyph, actions), WriteAll(d, g, glyph, actions);
            Shown(r.place, e.sheet, g.height) && r.graphics == e.graphics
    decreases |actions|
  {
    hide Shown, Put, Typed, Controlled, SheetControlled;
    ShownPlace(t.place, d.sheet, g.height);
    if actions != [] {
      var a := actions[0];
      if a.Print? {
        PutShown(t.place, d.sheet, g, glyph(t.graphics, a.ucode));
      } else {
        ControlShown(t.place, d.sheet, g, a.c);
      }
      TypingIsOnPaper(Perform(t, g, glyph, a), Write(d, g, glyph, a), g, glyph, actions[1..]);
    }
  }

  // ---------------------------------------------------------------- a text wraps

  function TypedAll(s: Sheet, g: Page, xs: seq<Cell>): (r: Sheet)
    requires ValidPage(g) && g.height <= |s.paper|
    ensures g.height <= |r.paper|
    decreases |xs|
  {
    if xs == [] then s else Typed(TypedAll(s, g, xs[..|xs| - 1]), g, xs[|xs| - 1])
  }

  /** How far down and to the right the cursor is, in cells of the window. */
  function Offset(s: Sheet, width: nat): int {
    s.row * width + s.column
  }

  /** The paper after `xs` has been typed on `s`: the cells stand one behind the other, row by row; where nothing has been
      typed the old paper is as it was and new paper is blank. */
  function CellAfter(s: Sheet, width: nat, blank: Line, xs: seq<Cell>, r: nat, c: nat): Cell
    requires c < COLUMNS
  {
    var k := r * width + c - Offset(s, width);
    if c < width && 0 <= k < |xs| then xs[k]
    else if r < |s.paper| then s.paper[r][c]
    else blank[c]
  }

  predicate Wrapped(s: Sheet, width: nat, blank: Line, xs: seq<Cell>, t: Sheet) {
    && t.row < |t.paper| && t.column <= width && Offset(t, width) == Offset(s, width) + |xs|
    && |t.paper| == (if t.row < |s.paper| then |s.paper| else t.row + 1)
    && forall r, c :: 0 <= r < |t.paper| && 0 <= c < COLUMNS ==> t.paper[r][c] == CellAfter(s, width, blank, xs, r, c)
  }

  lemma NothingWrapped(s: Sheet, width: nat, blank: Line)
    requires s.row < |s.paper| && s.column <= width
    ensures Wrapped(s, width, blank, [], s)
  {
    hide Offset;
  }

  /** Without a region that ends above the bottom of the screen. */
  lemma FeedKeepsWrapped(s: Sheet, g: Page, xs: seq<Cell>, t: Sheet)
    requires ValidPage(g) && g.height <= g.scrollTo && g.height <= |t.paper|
    requires Wrapped(s, g.width, g.blank, xs, t) && s.row < |s.paper| && s.column <= g.width
    ensures Wrapped(s, g.width, g.blank, xs, Fed(t, g))
  {
    var u := Fed(t, g);
    SameOffset(t, g);
    hide Offset;
    forall r, c | 0 <= r < |u.paper| && 0 <= c < COLUMNS
      ensures u.paper[r][c] == CellAfter(s, g.width, g.blank, xs, r, c)
    {
      if r == |t.paper| && c < g.width {
        RowsApart(r, c, t, g.width);
      }
    }
  }

  lemma SameOffset(t: Sheet, g: Page)
    requires ValidPage(g) && g.height <= g.scrollTo && g.height <= |t.paper| && t.column <= g.width
    ensures Offset(Fed(t, g), g.width) == Offset(t, g.width)
  {
    MulStep(t.row + 1, g.width);
  }

  lemma RowsApart(r: nat, c: nat, t: Sheet, width: nat)
    requires 1 <= width && t.row < r && t.column <= width
    ensures r * width + c >= Offset(t, width)
  {
    MulOrder(t.row, r, width);
  }

  lemma SameCell(r: nat, c: nat, t: Sheet, width: nat)
    requires c < width && t.column < width
    ensures r * width + c == Offset(t, width) <==> r == t.row && c == t.column
  {
    if r < t.row {
      MulOrder(r, t.row, width);
    } else if r > t.row {
      MulOrder(t.row, r, width);
    }
  }

  lemma TypeKeepsWrapped(s: Sheet, width: nat, blank: Line, xs: seq<Cell>, t: Sheet, x: Cell)
    requires 1 <= width <= COLUMNS && Wrapped(s, width, blank, xs, t) && t.column < width
    ensures Wrapped(s, width, blank, xs + [x], Sheet(t.paper[t.row := t.paper[t.row][t.column := x]], t.row, t.column + 1))
  {
    var u := Sheet(t.paper[t.row := t.paper[t.row][t.column := x]], t.row, t.column + 1);
    assert Offset(u, width) == Offset(t, width) + 1;
    hide Offset;
    forall r, c | 0 <= r < |u.paper| && 0 <= c < COLUMNS
      ensures u.paper[r][c] == CellAfter(s, width, blank, xs + [x], r, c)
    {
      if c < width {
        SameCell(r, c, t, width);
      }
      assert t.paper[r][c] == CellAfter(s, width, blank, xs, r, c);
    }
  }

  /** Typed characters lie on the paper wrapped at the width, and everything else on it stays. */
  lemma {:induction false} TextWraps(s: Sheet, g: Page, xs: seq<Cell>)
    requires ValidPage(g) && g.height <= g.scrollTo && g.height <= |s.paper| && s.row < |s.paper| && s.column <= g.width
    ensures Wrapped(s, g.width, g.blank, xs, TypedAll(s, g, xs))
    ensures xs != [] ==> TypedAll(s, g, xs).column >= 1
    decreases |xs|
  {
    hide Wrapped, Fed;
    if xs == [] {
      NothingWrapped(s, g.width, g.blank);
    } else {
      var ys, x := xs[..|xs| - 1], xs[|xs| - 1];
      assert xs == ys + [x];
      TextWraps(s, g, ys);
      var t := TypedAll(s, g, ys);
      FeedKeepsWrapped(s, g, ys, t);
      TypeKeepsWrapped(s, g.width, g.blank, ys, Fed(t, g), x);
    }
  }

  function Cells(glyph: Glyph, graphics: bool, text: seq<CodePoint>): seq<Cell> {
    seq(|text|, i requires 0 <= i < |text| => glyph(graphics, text[i]))
  }

  lemma WriteLast(d: Draft, g: Page, glyph: Glyph, actions: seq<Action>, a: Action)
    requires ValidPage(g) && g.height <= |d.sheet.paper| && Typing(actions) && (a.Print? || a.Control?)
    ensures Typing(actions + [a])
    ensures WriteAll(d, g, glyph, actions + [a]) == Write(WriteAll(d, g, glyph, actions), g, glyph, a)
    decreases |actions|
  {
    hide Write;
    if actions == [] {
      assert actions + [a] == [a];
      assert [a][1..] == [];
      assert WriteAll(Write(d, g, glyph, a), g, glyph, []) == Write(d, g, glyph, a);
    } else {
      assert (actions + [a])[1..] == actions[1..] + [a];
      WriteLast(Write(d, g, glyph, actions[0]), g, glyph, actions[1..], a);
    }
  }

  lemma {:induction false} PrintedIsTyped(d: Draft, g: Page, glyph: Glyph, text: seq<CodePoint>)
    requires ValidPage(g) && g.height <= |d.sheet.paper|
    ensures Typing(Printed(text))
    ensures WriteAll(d, g, glyph, Printed(text)) == d.(sheet := TypedAll(d.sheet, g, Cells(glyph, d.graphics, text)))
    decreases |text|
  {
    hide Typed;
    if text != [] {
      var n := |text| - 1;
      var init := text[..n];
      PrintedIsTyped(d, g, glyph, init);
      assert Printed(text) == Printed(init) + [Print(text[n])];
      WriteLast(d, g, glyph, Printed(init), Print(text[n]));
      assert Cells(glyph, d.graphics, text)[..n] == Cells(glyph, d.graphics, init);
    }
  }

  /** From the bytes to the screen: after the UTF-8 bytes of a printable text the screen shows the end of a paper on which
      the text lies wrapped at the width, behind what was there before. */
  lemma TextOnScreen(p: Parser, t: Terminal, s: Sheet, g: Page, glyph: Glyph, text: seq<CodePoint>) returns (u: Sheet)
    requires p.state == Ground && forall i :: 0 <= i < |text| ==> Printable(text[i])
    requires ValidPage(g) && g.height <= g.scrollTo
    requires Shown(t.place, s, g.height) && s.row < |s.paper| && s.column <= g.width
    ensures Typing(Run(p, EncodeAll(text)).1)
    ensures Shown(PerformAll(t, g, glyph, Run(p, EncodeAll(text)).1).place, u, g.height)
    ensures Wrapped(s, g.width, g.blank, Cells(glyph, t.graphics, text), u) && (text != [] ==> u.column >= 1)
  {
    hide Run, EncodeAll, Shown, Wrapped, PerformAll, WriteAll, TypedAll;
    ShownPlace(t.place, s, g.height);
    PrintableText(p, text);
    var d := Draft(s, t.graphics);
    PrintedIsTyped(d, g, glyph, text);
    TypingIsOnPaper(t, d, g, glyph, Printed(text));
    u := TypedAll(s, g, Cells(glyph, t.graphics, text));
    TextWraps(s, g, Cells(glyph, t.graphics, text));
  }
}
