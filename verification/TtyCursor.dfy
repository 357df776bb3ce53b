/**
  The cursor commands of a terminal, from their bytes to the place where the cursor ends (software/textwm2/tty.c:173-248,
  320-326): relative moves, one coordinate, and addressing by line and column.
 */
module TtyCursor {
  import opened MachineTypes
  import opened Arithmetic
  import opened TtyScreen
  import opened TtyFrame
  import opened TtyParser
  import opened TtyPaper
  import opened TtyEditing
  import opened TtyCommands

  /** Where a command finds the cursor: one that waits behind the right edge has gone to the next line. */
  function Start(t: Tty, w: Window): Cursor {
    var p := t.editing.place;
    if p.column < w.width then Cursor(p.line, p.column) else Cursor(p.line + 1, p.column - w.width)
  }

  /** Inside the window, with room for the arithmetic of the commands. */
  predicate Inside(t: Tty, w: Window) {
    1 <= w.width <= COLUMNS && 1 <= w.height <= 254 && 0 <= t.editing.place.line && 0 <= Start(t, w).column < w.width
  }

  /** The lines that the cursor may go to: those of the scrolling region if it stands in it, or beside it those of the screen. */
  function FirstLine(t: Tty, w: Window): int {
    if Start(t, w).line < t.editing.scrollFrom then 0 else t.editing.scrollFrom
  }

  function LastLine(t: Tty, w: Window): int {
    if Start(t, w).line < t.editing.scrollTo <= w.height then t.editing.scrollTo - 1 else w.height - 1
  }

  function Limited(t: Tty, w: Window, line: int): int {
    Least(Max(line, FirstLine(t, w)), LastLine(t, w))
  }

  /** The terminal with its cursor elsewhere; everything else is as before. */
  function At(t: Tty, line: int, column: int): Tty {
    t.(editing := t.editing.(place := Place(t.editing.place.view, line, column)))
  }

  // ---------------------------------------------------------------- the clamp

  lemma ClampInside(c: Cursor, from: int, to: int, width: int)
    requires 1 <= width && 0 <= c.column < width
    ensures Clamped(c, from, to, width) == Cursor(Least(Max(c.line, from), to - 1), c.column)
  {
    FitsWidth(c.column, width);
  }

  lemma ClampLeft(c: Cursor, from: int, to: int, width: int)
    requires 1 <= width && c.column < 0
    ensures Clamped(c, from, to, width) == Cursor(Least(Max(c.line, from), to - 1), 0)
  {
    FitsWidth(0, width);
  }

  lemma Limits(t: Tty, w: Window)
    requires Inside(t, w)
    ensures Entered(Cursor(t.editing.place.line, t.editing.place.column), w.width) == Start(t, w)
    ensures Top(Start(t, w).line, t.editing.scrollFrom) == FirstLine(t, w)
    ensures Bottom(Start(t, w).line, t.editing.scrollTo, w.height) == LastLine(t, w) + 1
  {
  }

  /** A moving command whose target lies in a column of the window. */
  lemma MoveTo(t: Tty, w: Window, code: char, n: int, m: int, x: Cell)
    requires Inside(t, w) && IsMove(code)
    requires Fits(t.editing.place, code, n, w.width, w.height)
    ensures var c := Moved(code, n, m, Start(t, w));
            var e := Commanded(t.editing, code, n, m, false, w.width, w.height, x);
            && (0 <= c.column < w.width ==>
                  e == t.editing.(place := Place(t.editing.place.view, Limited(t, w, c.line), c.column)))
            && (c.column < 0 ==>
                  e == t.editing.(place := Place(t.editing.place.view, Limited(t, w, c.line), 0)))
  {
    Limits(t, w);
    var c := Moved(code, n, m, Start(t, w));
    var from, to := FirstLine(t, w), LastLine(t, w) + 1;
    hide Moved, Clamped, Top, Bottom, Start, Entered, FirstLine, LastLine;
    if 0 <= c.column < w.width {
      ClampInside(c, from, to, w.width);
    } else if c.column < 0 {
      ClampLeft(c, from, to, w.width);
    }
  }

  // ---------------------------------------------------------------- one number

  /** Up, down, right, left, to the start of a line below or above, to a column, to a line. */
  lemma OneNumber(t: Tty, w: Window, look: Look, n: nat, last: byte)
    requires Inside(t, w) && n <= LARGEST && IsMove(last as char) && last != 0x48 && last != 0x66
    ensures var s := Sequenced(t, w, look, Decimal(n) + [last]);
            s == Some(t.(editing := Commanded(t.editing, last as char, n, 1, false, w.width, w.height, t.style + 32)))
  {
    var s := Decimal(n) + [last];
    DecimalNumbers(n, last, w.height);
    DecimalStart(n, last);
    assert Numbers(s, last as char, w.height) == (n, 1);
    hide Decimal, Numbers, Sequenced, Commanded;
    PlainSequence(t, w, look, s, last as char, n, 1);
  }

  lemma BytesOfNumber(p: Parser, t: Tty, w: Window, look: Look, n: nat, last: byte)
    requires p.state == Ground && Inside(t, w) && n <= LARGEST && IsMove(last as char) && last != 0x48 && last != 0x66
    ensures Steps(t, w, look, Run(p, CsiBytes(Decimal(n), last)).1) ==
            Some(t.(editing := Commanded(t.editing, last as char, n, 1, false, w.width, w.height, t.style + 32)))
  {
    hide Decimal, Run, Steps, Sequenced, Commanded, Inside;
    DecimalIsBody(n);
    SequenceSteps(p, t, w, look, Decimal(n), last);
    OneNumber(t, w, look, n, last);
  }

  /** A moving command whose target is in a column of the window. */
  lemma OneMove(p: Parser, t: Tty, w: Window, look: Look, n: nat, last: byte, c: Cursor)
    requires p.state == Ground && Inside(t, w) && n <= LARGEST && IsMove(last as char) && last != 0x48 && last != 0x66
    requires c == Moved(last as char, n, 1, Start(t, w)) && c.column < w.width
    ensures Steps(t, w, look, Run(p, CsiBytes(Decimal(n), last)).1) == Some(At(t, Limited(t, w, c.line), Max(c.column, 0)))
  {
    hide Run, Steps, Decimal, Limited, Moved, CsiBytes;
    BytesOfNumber(p, t, w, look, n, last);
    MoveTo(t, w, last as char, n, 1, t.style + 32);
    hide Commanded;
  }

  /** CSI n A and CSI n B: n lines up or down, as far as the limits, in the same column. */
  lemma UpAndDown(p: Parser, t: Tty, w: Window, look: Look, n: nat)
    requires p.state == Ground && Inside(t, w) && n <= LARGEST
    ensures var c := Start(t, w);
            && Steps(t, w, look, Run(p, CsiBytes(Decimal(n), 0x41)).1) == Some(At(t, Limited(t, w, c.line - n), c.column))
            && Steps(t, w, look, Run(p, CsiBytes(Decimal(n), 0x42)).1) == Some(At(t, Limited(t, w, c.line + n), c.column))
  {
    hide Run, Steps, Decimal, Limited, CsiBytes;
    var c := Start(t, w);
    OneMove(p, t, w, look, n, 0x41, Cursor(c.line - n, c.column));
    OneMove(p, t, w, look, n, 0x42, Cursor(c.line + n, c.column));
  }

  /** CSI n E and CSI n F: the same, to the start of the line. */
  lemma NextAndPreviousLine(p: Parser, t: Tty, w: Window, look: Look, n: nat)
    requires p.state == Ground && Inside(t, w) && n <= LARGEST
    ensures var c := Start(t, w);
            && Steps(t, w, look, Run(p, CsiBytes(Decimal(n), 0x45)).1) == Some(At(t, Limited(t, w, c.line + n), 0))
            && Steps(t, w, look, Run(p, CsiBytes(Decimal(n), 0x46)).1) == Some(At(t, Limited(t, w, c.line - n), 0))
  {
    hide Run, Steps, Decimal, Limited, CsiBytes;
    var c := Start(t, w);
    OneMove(p, t, w, look, n, 0x45, Cursor(c.line + n, 0));
    OneMove(p, t, w, look, n, 0x46, Cursor(c.line - n, 0));
  }

  /** CSI n D: n columns to the left, as far as the edge. */
  lemma Left(p: Parser, t: Tty, w: Window, look: Look, n: nat)
    requires p.state == Ground && Inside(t, w) && n <= LARGEST
    ensures var c := Start(t, w);
            Steps(t, w, look, Run(p, CsiBytes(Decimal(n), 0x44)).1) == Some(At(t, Limited(t, w, c.line), Max(c.column - n, 0)))
  {
    hide Run, Steps, Decimal, Limited, CsiBytes;
    var c := Start(t, w);
    OneMove(p, t, w, look, n, 0x44, Cursor(c.line, c.column - n));
  }

  /** CSI n C: n columns to the right; behind the edge it goes on in the lines below. */
  lemma Right(p: Parser, t: Tty, w: Window, look: Look, n: nat)
    requires p.state == Ground && Inside(t, w) && n <= LARGEST
    ensures var c := Start(t, w);
            && (c.column + n < w.width ==>
                  Steps(t, w, look, Run(p, CsiBytes(Decimal(n), 0x43)).1) == Some(At(t, Limited(t, w, c.line), c.column + n)))
            && (FirstLine(t, w) <= c.line ==>
                  Steps(t, w, look, Run(p, CsiBytes(Decimal(n), 0x43)).1) ==
                  Some(At(t, Limited(t, w, c.line + (c.column + n) / w.width), (c.column + n) % w.width)))
  {
    BytesOfNumber(p, t, w, look, n, 0x43);
    MoveTo(t, w, 'C', n, 1, t.style + 32);
    hide Run, Steps;
    var c := Start(t, w);
    Limits(t, w);
    NotNegative(c.column + n, w.width);
    hide Start, Entered, FirstLine, LastLine, Top, Bottom;
  }

  /** CSI n G and CSI n d: column n, or line n, counted from 1. */
  lemma OneCoordinate(p: Parser, t: Tty, w: Window, look: Look, n: nat)
    requires p.state == Ground && Inside(t, w) && 1 <= n <= LARGEST
    ensures var c := Start(t, w);
            && (n <= w.width ==> Steps(t, w, look, Run(p, CsiBytes(Decimal(n), 0x47)).1) == Some(At(t, Limited(t, w, c.line), n - 1)))
            && Steps(t, w, look, Run(p, CsiBytes(Decimal(n), 0x64)).1) == Some(At(t, Limited(t, w, n - 1), c.column))
  {
    hide Run, Steps, Decimal, Limited, CsiBytes;
    var c := Start(t, w);
    if n <= w.width {
      OneMove(p, t, w, look, n, 0x47, Cursor(c.line, n - 1));
    }
    OneMove(p, t, w, look, n, 0x64, Cursor(n - 1, c.column));
  }

  // ---------------------------------------------------------------- two numbers

  predicate Addressing(last: byte) { last == 0x48 || last == 0x66 }

  /** The sequence with these parameters, if sscanf reads n and m from them. */
  lemma AddressSequenced(t: Tty, w: Window, look: Look, body: seq<byte>, n: int, m: int, last: byte)
    requires Inside(t, w) && Addressing(last) && 0 <= n <= LARGEST && 1 <= m <= w.width
    requires 0 !in body && (body != [] ==> body[0] != 0x3f) && Numbers(body + [last], last as char, w.height) == (n, m)
    ensures Sequenced(t, w, look, body + [last]) == Some(At(t, Limited(t, w, n - 1), m - 1))
  {
    var s := body + [last];
    assert s[0] != 0x3f && CodeOf(s) == last as char && 0 !in s;
    MoveTo(t, w, last as char, n, m, t.style + 32);
    hide Numbers, Commanded, Limited, Sequenced;
    PlainSequence(t, w, look, s, last as char, n, m);
  }

  /** Two decimal numbers with a semicolon between them are read as these two. */
  lemma TwoNumbers(n: nat, m: nat, last: byte, height: int)
    requires Addressing(last)
    ensures Numbers(Decimal(n) + [SEMICOLON] + Decimal(m) + [last], last as char, height) == (n, m)
  {
    hide Decimal, ScanInt;
    var second := Decimal(m) + [last];
    var s := Decimal(n) + [SEMICOLON] + Decimal(m) + [last];
    assert s == Decimal(n) + ([SEMICOLON] + second) && ([SEMICOLON] + second)[1..] == second;
    ScanDecimal(n, [SEMICOLON] + second);
    ScanDecimal(m, [last]);
    DigitsOfDecimal(n, [SEMICOLON] + second);
    assert s[0] == Decimal(n)[0];
  }

  lemma AddressIsBody(n: nat, m: nat)
    requires n < 1_000_000_000 && m < 1_000_000_000
    ensures var body := Decimal(n) + [SEMICOLON] + Decimal(m);
            |body| <= 19 && IsBody(body) && 0 !in body && body[0] != 0x3f
  {
    DecimalIsBody(n);
    DecimalIsBody(m);
    DigitsOfDecimal(n, []);
    hide Decimal;
  }

  /** CSI n ; m H and CSI n ; m f: line n and column m, counted from 1. */
  lemma Address(p: Parser, t: Tty, w: Window, look: Look, n: nat, m: nat, last: byte)
    requires p.state == Ground && Inside(t, w) && Addressing(last) && n <= LARGEST && 1 <= m <= w.width
    ensures Steps(t, w, look, Run(p, CsiBytes(Decimal(n) + [SEMICOLON] + Decimal(m), last)).1) ==
            Some(At(t, Limited(t, w, n - 1), m - 1))
  {
    var body := Decimal(n) + [SEMICOLON] + Decimal(m);
    AddressIsBody(n, m);
    TwoNumbers(n, m, last, w.height);
    AddressSequenced(t, w, look, body, n, m, last);
    hide Run, Steps, Sequenced, Inside, Decimal, Numbers;
    SequenceSteps(p, t, w, look, body, last);
  }

  /** On a screen without a scrolling region that is that very place. */
  lemma AddressOnScreen(p: Parser, t: Tty, w: Window, look: Look, n: nat, m: nat, last: byte)
    requires p.state == Ground && Inside(t, w) && Addressing(last)
    requires t.editing.scrollFrom == 0 && w.height <= t.editing.scrollTo && 1 <= n <= w.height && 1 <= m <= w.width
    ensures Steps(t, w, look, Run(p, CsiBytes(Decimal(n) + [SEMICOLON] + Decimal(m), last)).1) == Some(At(t, n - 1, m - 1))
  {
    Address(p, t, w, look, n, m, last);
    hide Run, Steps, Decimal;
  }

  /** CSI H: the first line and column.  CSI n H: the start of line n.  CSI ; m H does not read m, and goes to the first
      column too: sscanf stops at the semicolon. */
  lemma AddressDefaults(p: Parser, t: Tty, w: Window, look: Look, n: nat, m: nat, last: byte)
    requires p.state == Ground && Inside(t, w) && Addressing(last) && n <= LARGEST && m <= LARGEST
    ensures Steps(t, w, look, Run(p, CsiBytes([], last)).1) == Some(At(t, Limited(t, w, 0), 0))
    ensures Steps(t, w, look, Run(p, CsiBytes(Decimal(n), last)).1) == Some(At(t, Limited(t, w, n - 1), 0))
    ensures Steps(t, w, look, Run(p, CsiBytes([SEMICOLON] + Decimal(m), last)).1) == Some(At(t, Limited(t, w, 0), 0))
  {
    hide Run, Steps, Decimal, Limited, CsiBytes, At, Numbers, IsBody;
    NoNumbers(m, last, w.height);
    AddressBytes(p, t, w, look, [], 1, 1, last);
    LineIsBody(n, last, w.height);
    AddressBytes(p, t, w, look, Decimal(n), n, 1, last);
    AddressBytes(p, t, w, look, [SEMICOLON] + Decimal(m), 1, 1, last);
  }

  lemma AddressBytes(p: Parser, t: Tty, w: Window, look: Look, body: seq<byte>, n: int, m: int, last: byte)
    requires p.state == Ground && Inside(t, w) && Addressing(last) && 0 <= n <= LARGEST && 1 <= m <= w.width
    requires IsBody(body) && |body| <= CSI_MAX_LEN - 2 && 0 !in body && (body != [] ==> body[0] != 0x3f)
    requires Numbers(body + [last], last as char, w.height) == (n, m)
    ensures Steps(t, w, look, Run(p, CsiBytes(body, last)).1) == Some(At(t, Limited(t, w, n - 1), m - 1))
  {
    AddressSequenced(t, w, look, body, n, m, last);
    hide Run, Steps, Sequenced, Inside, Numbers;
    SequenceSteps(p, t, w, look, body, last);
  }

  lemma LineIsBody(n: nat, last: byte, height: int)
    requires Addressing(last) && n <= LARGEST
    ensures IsBody(Decimal(n)) && 1 <= |Decimal(n)| <= 9 && 0 !in Decimal(n) && Decimal(n)[0] != 0x3f
    ensures Numbers(Decimal(n) + [last], last as char, height) == (n, 1)
  {
    DecimalIsBody(n);
    DigitsOfDecimal(n, [last]);
    ScanDecimal(n, [last]);
    assert (Decimal(n) + [last])[0] == Decimal(n)[0];
    hide Decimal, ScanInt;
  }

  lemma NoNumbers(m: nat, last: byte, height: int)
    requires Addressing(last) && m <= LARGEST
    ensures IsBody([]) && IsBody([SEMICOLON] + Decimal(m)) && |Decimal(m)| <= 9 && 0 !in [SEMICOLON] + Decimal(m)
    ensures Numbers([] + [last], last as char, height) == (1, 1)
    ensures Numbers([SEMICOLON] + Decimal(m) + [last], last as char, height) == (1, 1)
  {
    DecimalIsBody(m);
    assert ScanInt([] + [last]) == NoNumber;
    var s := [SEMICOLON] + Decimal(m) + [last];
    assert s[0] == SEMICOLON && SkipSpaces(s) == s;
    hide Decimal;
    assert ScanInt(s) == NoNumber;
  }
}
