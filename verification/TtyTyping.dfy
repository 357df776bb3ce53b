/**
  The handler of a terminal on its frame, from the bytes of a read() to the screen
  (software/textwm2/tty.c:59-76, 103-114, 158-326, 340-457).
 */
module TtyTyping {
  import opened MachineTypes
  import opened TtyScreen
  import opened TtyFrame
  import opened TtyParser
  import opened TtyHandler
  import opened TtyPaper
  import opened TtyCommands
  import TtyEditing

  ghost function PlaceOf(f: Frame): Place
    reads f, f.cells
    requires f.Valid()
  {
    Place(f.View(), f.line, f.column)
  }

  function PageOf(f: Frame): Page
    reads f
  {
    Page(f.width, f.height, f.scrollFrom, f.scrollTo, Filled(f.style + 32))
  }

  ghost predicate Ready(f: Frame)
    reads f, f.cells
  {
    f.Valid() && ValidPage(PageOf(f)) && ValidPlace(PlaceOf(f))
  }

  /** tty_print, for a code that is printed: `x` is its character with the style. */
  method PutCell(f: Frame, x: Cell)
    requires Ready(f)
    modifies f`start, f`line, f`column, f.cells
    ensures Ready(f) && PlaceOf(f) == Put(old(PlaceOf(f)), old(PageOf(f)), x)
  {
    hide ViewOf, AfterScroll;
    f.MaybeScroll();
    assert PlaceOf(f) == Scrolling(old(PlaceOf(f)), old(PageOf(f)));
    ghost var was := f.cells[..];
    var row := f.LineCell(f.line);
    ViewLine(was, f.start / COLUMNS, f.line);
    InRing(f.line);
    f.cells[row + f.column] := x;
    OneCell(was, f.cells[..], f.start / COLUMNS, f.line, row, f.column, x);
    f.column := f.column + 1;
  }

  lemma OneCell(was: seq<Cell>, now: seq<Cell>, first: int, i: int, row: nat, c: nat, x: Cell)
    requires |was| == CELLS && 0 <= first < LINES && 0 <= i < LINES && c < COLUMNS && row + COLUMNS <= CELLS
    requires row % COLUMNS == 0 && row / COLUMNS == (first + i) % LINES && now == was[row + c := x]
    ensures ViewOf(now, first) == ViewOf(was, first)[i := ViewOf(was, first)[i][c := x]]
  {
    hide ViewOf;
    var l := Row(was, row / COLUMNS);
    ViewLine(was, first, i);
    InRing(i);
    TtyEditing.RowPlace(was, row, 0);
    TtyEditing.RowEdit(was, now, first, i, row, l[c := x]);
  }

  /** The control codes in the ground state. */
  method Control(f: Frame, c: byte)
    requires Ready(f)
    modifies f`start, f`line, f`column, f`graphics, f.cells
    ensures Ready(f) && PlaceOf(f) == Controlled(old(PlaceOf(f)), old(PageOf(f)), c)
    ensures f.graphics == Shifted(old(f.graphics), c)
  {
    hide ViewOf, AfterScroll;
    if c == 13 {
      f.column := 0;
    } else if c == 10 || c == 11 || c == 12 {
      f.column := f.width;
      ghost var p := PlaceOf(f);
      f.MaybeScroll();
      assert PlaceOf(f) == Scrolling(p, PageOf(f));
    } else if c == 14 {
      f.graphics := true;
    } else if c == 15 {
      f.graphics := false;
    } else if c == 9 {
      f.column := (f.column + 8) / 8 * 8;
    } else if c == 8 {
      if f.column > 0 {
        f.column := f.column - 1;
      }
    }
  }

  // ---------------------------------------------------------------- the whole terminal

  ghost function TtyOf(f: Frame): Tty
    reads f, f.cells
    requires f.Valid()
  {
    Tty(TtyEditing.EditingOf(f), f.style, f.styleCopy, f.bold, f.boldCopy, f.graphics, f.cursorHidden)
  }

  function WindowOf(f: Frame): Window
    reads f
  {
    Window(f.width, f.height)
  }

  /** Printing and control codes, if they stay within the model. */
  method TypeOne(f: Frame, look: Look, a: Action)
    requires f.Valid() && (a.Print? || a.Control?) && Type(TtyOf(f), WindowOf(f), look, a).Some?
    modifies f`start, f`line, f`column, f`graphics, f.cells
    ensures f.Valid() && Some(TtyOf(f)) == old(Type(TtyOf(f), WindowOf(f), look, a))
  {
    hide Put, Controlled, ViewOf;
    if a.Print? {
      PutCell(f, look.glyph(f.graphics, f.bold, f.style, a.ucode));
    } else {
      Control(f, a.c);
    }
  }

  /** ESC M, 7 and 8, and the escape codes without effect. */
  method Escape(f: Frame, c: byte)
    requires f.Valid() && Escaped(TtyOf(f), WindowOf(f), c).Some?
    modifies f`start, f`line, f`column, f`lineCopy, f`columnCopy, f`style, f`styleCopy, f`bold, f`boldCopy, f.cells
    ensures f.Valid() && Some(TtyOf(f)) == old(Escaped(TtyOf(f), WindowOf(f), c))
  {
    hide ViewOf, Region;
    if c == 0x4d {
      if f.line > f.scrollFrom {
        f.line := f.line - 1;
      } else {
        f.ScrollRegion(f.scrollFrom, f.scrollTo, 1);
      }
    } else if c == 0x37 {
      f.columnCopy, f.lineCopy, f.styleCopy, f.boldCopy := f.column, f.line, f.style, f.bold;
    } else if c == 0x38 {
      f.column, f.line, f.style, f.bold := f.columnCopy, f.lineCopy, f.styleCopy, f.boldCopy;
    }
  }

  /** tty_csi on the text of a sequence. */
  method Sequence(f: Frame, look: Look, text: seq<byte>)
    requires f.Valid() && text != [] && Sequenced(TtyOf(f), WindowOf(f), look, text).Some?
    modifies f`line, f`column, f`lineCopy, f`columnCopy, f`scrollFrom, f`scrollTo, f`start, f`style, f`bold, f`cursorHidden, f.cells
    ensures f.Valid() && Some(TtyOf(f)) == old(Sequenced(TtyOf(f), WindowOf(f), look, text))
  {
    hide ViewOf, CString, Numbers, IsForeign, IsMode, Hides, TtyEditing.Commanded;
    var s, code := CString(text), CodeOf(text);
    var numbers := Numbers(s, code, f.height);
    ghost var style := f.style;
    if code == 'm' {
      var colours := look.colours(f.style, f.bold, s);
      f.style, f.bold := colours.0, colours.1;
    }
    NoBlanks(TtyEditing.EditingOf(f), code, numbers.0, numbers.1, IsMode(s), f.width, f.height, style + 32, f.style + 32);
    TtyEditing.Csi(f, code, numbers.0, numbers.1, IsMode(s));
    f.cursorHidden := Hides(s, f.cursorHidden);
  }

  /** SGR does not depend on the blank cell. */
  lemma NoBlanks(t: TtyEditing.Editing, code: char, n: int, m: int, mode: bool, width: int, height: int, x: Cell, y: Cell)
    requires TtyEditing.Fits(t.place, code, n, width, height) && (code == 'm' || x == y)
    ensures TtyEditing.Commanded(t, code, n, m, mode, width, height, x) == TtyEditing.Commanded(t, code, n, m, mode, width, height, y)
  {
  }

  method Perform(f: Frame, look: Look, a: Action)
    requires f.Valid() && Step(TtyOf(f), WindowOf(f), look, a).Some?
    modifies f, f.cells
    ensures f.Valid() && Some(TtyOf(f)) == old(Step(TtyOf(f), WindowOf(f), look, a))
    ensures WindowOf(f) == old(WindowOf(f))
  {
    hide ViewOf, Type, Escaped, Sequenced;
    match a {
      case Print(_) => TypeOne(f, look, a);
      case Control(_) => TypeOne(f, look, a);
      case EscapeCode(c) => Escape(f, c);
      case Sequence(text) => Sequence(f, look, text);
    }
  }

  method PerformActions(f: Frame, look: Look, actions: seq<Action>)
    requires f.Valid() && Steps(TtyOf(f), WindowOf(f), look, actions).Some?
    modifies f, f.cells
    ensures f.Valid() && Some(TtyOf(f)) == old(Steps(TtyOf(f), WindowOf(f), look, actions))
    ensures WindowOf(f) == old(WindowOf(f))
  {
    hide Step, ViewOf;
    ghost var t, w := TtyOf(f), WindowOf(f);
    var j := 0;
    assert actions[0..] == actions;
    while j < |actions|
      invariant 0 <= j <= |actions| && f.Valid() && WindowOf(f) == w
      invariant Steps(TtyOf(f), w, look, actions[j..]) == Steps(t, w, look, actions)
    {
      assert actions[j..][1..] == actions[j + 1..] && actions[j..][0] == actions[j];
      Perform(f, look, actions[j]);
      j := j + 1;
    }
  }

  /** What tty_handler does with the bytes of one read(): parser and frame together do what the actions of the parser mean,
      for every byte stream that stays within the model. */
  method HandleBytes(h: Handler, f: Frame, look: Look, input: seq<byte>)
    requires h.Valid() && f.Valid()
    requires Steps(TtyOf(f), WindowOf(f), look, Run(h.Value(), input).1).Some?
    modifies h, h.csi, f, f.cells
    ensures h.Valid() && h.Value() == old(Run(h.Value(), input).0)
    ensures f.Valid() && Some(TtyOf(f)) == old(Steps(TtyOf(f), WindowOf(f), look, Run(h.Value(), input).1))
  {
    hide Next, Legal, Step, ViewOf;
    ghost var t, w, result := TtyOf(f), WindowOf(f), Run(h.Value(), input);
    var j := 0;
    assert input[0..] == input;
    while j < |input|
      invariant 0 <= j <= |input| && h.Valid() && f.Valid() && WindowOf(f) == w
      invariant Run(h.Value(), input[j..]).0 == result.0
      invariant Steps(TtyOf(f), w, look, Run(h.Value(), input[j..]).1) == Steps(t, w, look, result.1)
    {
      assert input[j..][1..] == input[j + 1..] && input[j..][0] == input[j];
      ghost var q, now := Next(h.Value(), input[j]).0, Next(h.Value(), input[j]).1;
      StepsAppend(TtyOf(f), w, look, now, Run(q, input[j + 1..]).1);
      var actions := h.Handle(input[j]);
      PerformActions(f, look, actions);
      j := j + 1;
    }
  }
}
