/**
  What the whole handler of a terminal does, action by action (software/textwm2/tty.c:59-76, 103-114, 158-326, 340-457):
  typing, escape codes, and control sequences with the numbers that sscanf finds in them.
 */
module TtyCommands {
  import opened MachineTypes
  import opened TtyScreen
  import opened TtyFrame
  import opened TtyParser
  import opened TtyPaper
  import opened TtyEditing

  // ---------------------------------------------------------------- numbers in a sequence

  /** A C string ends at the first zero byte. */
  function CString(text: seq<byte>): seq<byte>
    decreases |text|
  {
    if text == [] || text[0] == 0 then [] else [text[0]] + CString(text[1..])
  }

  predicate IsDigit(c: byte) { 48 <= c <= 57 }

  function Digit(c: byte): nat
    requires IsDigit(c)
  {
    var d: int := c;
    d - 48
  }

  predicate IsSpace(c: byte) { c == 32 || 9 <= c <= 13 }

  function SkipSpaces(s: seq<byte>): seq<byte>
    decreases |s|
  {
    if s != [] && IsSpace(s[0]) then SkipSpaces(s[1..]) else s
  }

  /** The number that the digits at the front of s continue, and what follows them. */
  function Digits(s: seq<byte>, n: nat): (nat, seq<byte>)
    decreases |s|
  {
    if s != [] && IsDigit(s[0]) then
      var d: nat := Digit(s[0]);
      Digits(s[1..], 10 * n + d)
    else (n, s)
  }

  datatype Scan = NoNumber | Number(value: int, rest: seq<byte>)

  function Signed(n: int, plus: bool): int {
    if plus then n else -n
  }

  /** The conversion %d: spaces, a sign, and at least one digit. */
  function ScanInt(s: seq<byte>): Scan {
    var t := SkipSpaces(s);
    var signed := t != [] && (t[0] == 43 || t[0] == 45);
    var u := if signed then t[1..] else t;
    if u == [] || !IsDigit(u[0]) then NoNumber
    else
      var (n, rest) := Digits(u, 0);
      Number(Signed(n, !(signed && t[0] == 45)), rest)
  }

  const SEMICOLON: byte := 0x3b

  /** One number, or the value that was there before. */
  function OneInt(s: seq<byte>, n: int): int {
    match ScanInt(s)
    case NoNumber => n
    case Number(a, _) => a
  }

  /** Two numbers with a semicolon between them. */
  function TwoInts(s: seq<byte>, n: int, m: int): (int, int) {
    match ScanInt(s)
    case NoNumber => (n, m)
    case Number(a, rest) => (a, if rest != [] && rest[0] == SEMICOLON then OneInt(rest[1..], m) else m)
  }

  /** The variables n and m of tty_csi after sscanf. */
  function Numbers(s: seq<byte>, code: char, height: int): (int, int) {
    if code == 'r' then TwoInts(s, 1, height)
    else if code == 'H' || code == 'f' then
      if s != [] && s[0] == SEMICOLON then (1, OneInt(s, 1)) else TwoInts(s, 1, 1)
    else if code == 'J' || code == 'K' then (OneInt(s, 0), 1)
    else (OneInt(s, 1), 1)
  }

  function Decimal(n: nat): seq<byte>
    decreases n
  {
    if n < 10 then [48 + n] else Decimal(n / 10) + [48 + n % 10]
  }

  lemma {:induction false} DigitsOfDecimal(n: nat, rest: seq<byte>)
    ensures |Decimal(n)| > 0 && IsDigit(Decimal(n)[0])
    ensures Digits(Decimal(n) + rest, 0) == Digits(rest, n)
    decreases n
  {
    if n >= 10 {
      var d := 48 + n % 10;
      DigitsOfDecimal(n / 10, [d] + rest);
      assert Decimal(n) + rest == Decimal(n / 10) + ([d] + rest);
      assert ([d] + rest)[1..] == rest;
    } else {
      assert (Decimal(n) + rest)[1..] == rest;
    }
  }

  /** A number that is written out in decimal is read back, whatever follows it that is no digit. */
  lemma ScanDecimal(n: nat, rest: seq<byte>)
    requires rest == [] || !IsDigit(rest[0])
    ensures ScanInt(Decimal(n) + rest) == Number(n, rest)
  {
    DigitsOfDecimal(n, rest);
    var s := Decimal(n) + rest;
    assert s[0] == Decimal(n)[0];
    assert SkipSpaces(s) == s;
  }

  // ---------------------------------------------------------------- the terminal

  datatype Window = Window(width: int, height: int)

  datatype Tty = Tty(editing: Editing, style: Cell, styleCopy: Cell, bold: bool, boldCopy: bool, graphics: bool, hidden: bool)

  /** Fonts and colours: the cell of a character for character set, weight and style, and what SGR makes of style and weight. */
  datatype Look = Look(glyph: (bool, bool, Cell, uint32) -> Cell, colours: (Cell, bool, seq<byte>) -> (Cell, bool))

  function PageFor(t: Tty, w: Window): Page {
    Page(w.width, w.height, t.editing.scrollFrom, t.editing.scrollTo, Filled(t.style + 32))
  }

  function GlyphFor(t: Tty, look: Look): Glyph {
    (graphics: bool, ucode: uint32) => look.glyph(graphics, t.bold, t.style, ucode)
  }

  /** Printing and control codes. */
  function Type(t: Tty, w: Window, look: Look, a: Action): Option<Tty>
    requires a.Print? || a.Control?
  {
    if !ValidPage(PageFor(t, w)) || !ValidPlace(t.editing.place) then None
    else
      var r := Perform(Terminal(t.editing.place, t.graphics), PageFor(t, w), GlyphFor(t, look), a);
      Some(t.(editing := t.editing.(place := r.place), graphics := r.graphics))
  }

  /** ESC M goes up one line, or scrolls the region when the cursor is not below its start; ESC 7 and 8 save and restore. */
  function Escaped(t: Tty, w: Window, c: byte): Option<Tty> {
    var e, p := t.editing, t.editing.place;
    if c == 0x4d then
      if p.line > e.scrollFrom then Some(t.(editing := e.(place := p.(line := p.line - 1))))
      else if 0 <= e.scrollFrom && 0 <= e.scrollTo <= LINES then
        Some(t.(editing := e.(place := p.(view := Region(p.view, w.height, e.scrollFrom, e.scrollTo, 1, Filled(t.style + 32))))))
      else None
    else if c == 0x37 then
      Some(t.(editing := e.(saved := Cursor(p.line, p.column)), styleCopy := t.style, boldCopy := t.bold))
    else if c == 0x38 then
      Some(t.(editing := e.(place := Place(p.view, e.saved.line, e.saved.column)), style := t.styleCopy, bold := t.boldCopy))
    else Some(t)
  }

  /** The numbers for which 32-bit arithmetic on lines and columns does not overflow. */
  const LARGEST := 0x1000_0000

  predicate Small(n: int) { -LARGEST <= n <= LARGEST }

  function Hides(s: seq<byte>, hidden: bool): bool {
    if s == [0x3f, 0x32, 0x35, 0x6c] then true else if s == [0x3f, 0x32, 0x35, 0x68] then false else hidden
  }

  /** ?25l, ?25h, ?0c and ?1c. */
  predicate IsMode(s: seq<byte>) {
    s == [0x3f, 0x32, 0x35, 0x6c] || s == [0x3f, 0x32, 0x35, 0x68] || s == [0x3f, 0x30, 0x63] || s == [0x3f, 0x31, 0x63]
  }

  /** ?1049h and ?1049l change to another frame, ?314e draws the logo: not followed here. */
  predicate IsForeign(s: seq<byte>) {
    || s == [0x3f, 0x31, 0x30, 0x34, 0x39, 0x68] || s == [0x3f, 0x31, 0x30, 0x34, 0x39, 0x6c]
    || s == [0x3f, 0x33, 0x31, 0x34, 0x65]
  }

  function CodeOf(text: seq<byte>): char
    requires text != []
  {
    text[|text| - 1] as char
  }

  /** tty_csi */
  function Sequenced(t: Tty, w: Window, look: Look, text: seq<byte>): Option<Tty>
    requires text != []
  {
    var s, code := CString(text), CodeOf(text);
    var (n, m) := Numbers(s, code, w.height);
    if IsForeign(s) || !Small(n) || !Small(m) || !Fits(t.editing.place, code, n, w.width, w.height) then None
    else
      var e := Commanded(t.editing, code, n, m, IsMode(s), w.width, w.height, t.style + 32);
      var (style, bold) := if code == 'm' then look.colours(t.style, t.bold, s) else (t.style, t.bold);
      Some(t.(editing := e, style := style, bold := bold, hidden := Hides(s, t.hidden)))
  }

  /** One action of the parser; nothing where it leaves the model. */
  function Step(t: Tty, w: Window, look: Look, a: Action): Option<Tty> {
    match a
    case Print(_) => Type(t, w, look, a)
    case Control(_) => Type(t, w, look, a)
    case EscapeCode(c) => Escaped(t, w, c)
    case Sequence(text) => if text == [] then None else Sequenced(t, w, look, text)
  }

  function Steps(t: Tty, w: Window, look: Look, actions: seq<Action>): Option<Tty>
    decreases |actions|
  {
    if actions == [] then Some(t)
    else
      match Step(t, w, look, actions[0])
      case None => None
      case Some(u) => Steps(u, w, look, actions[1..])
  }

  lemma {:induction false} StepsAppend(t: Tty, w: Window, look: Look, a: seq<Action>, b: seq<Action>)
    ensures Steps(t, w, look, a + b) ==
            match Steps(t, w, look, a) case None => None case Some(u) => Steps(u, w, look, b)
    decreases |a|
  {
    hide Step;
    if a == [] {
      assert a + b == b;
    } else {
      assert (a + b)[1..] == a[1..] + b;
      match Step(t, w, look, a[0])
      case None =>
      case Some(u) => StepsAppend(u, w, look, a[1..], b);
    }
  }

  lemma StepsOfOne(t: Tty, w: Window, look: Look, a: Action)
    ensures Steps(t, w, look, [a]) == Step(t, w, look, a)
  {
    hide Step;
    assert [a][1..] == [];
  }

  // ---------------------------------------------------------------- typing

  /** A stretch without escape sequences is typing on the page, so all that is proved about the paper holds of it. */
  lemma {:induction false} TypingSteps(t: Tty, w: Window, look: Look, actions: seq<Action>)
    requires Typing(actions) && ValidPage(PageFor(t, w)) && ValidPlace(t.editing.place)
    ensures var r := PerformAll(Terminal(t.editing.place, t.graphics), PageFor(t, w), GlyphFor(t, look), actions);
            Steps(t, w, look, actions) == Some(t.(editing := t.editing.(place := r.place), graphics := r.graphics))
    decreases |actions|
  {
    hide Perform;
    if actions != [] {
      assert actions[0] in actions;
      var u := Step(t, w, look, actions[0]).value;
      assert GlyphFor(u, look) == GlyphFor(t, look);
      TypingSteps(u, w, look, actions[1..]);
    }
  }

  // ---------------------------------------------------------------- from the bytes of a sequence to the screen

  /** ESC [, the parameters and the final byte. */
  function CsiBytes(body: seq<byte>, last: byte): seq<byte> {
    [ESC, BRACKET] + (body + [last])
  }

  lemma {:induction false} CStringWhole(s: seq<byte>)
    requires 0 !in s
    ensures CString(s) == s
    decreases |s|
  {
    if s != [] {
      CStringWhole(s[1..]);
    }
  }

  lemma SequenceSteps(p: Parser, t: Tty, w: Window, look: Look, body: seq<byte>, last: byte)
    requires p.state == Ground && IsBody(body) && IsFinal(last) && |body| <= CSI_MAX_LEN - 2
    ensures Run(p, CsiBytes(body, last)).0.state == Ground
    ensures Steps(t, w, look, Run(p, CsiBytes(body, last)).1) == Sequenced(t, w, look, body + [last])
  {
    SequenceDelivered(p, body, last);
    StepsOfOne(t, w, look, Sequence(body + [last]));
    hide Run, Sequenced;
  }

  lemma {:induction false} DecimalIsBody(n: nat)
    requires n < 1_000_000_000
    ensures |Decimal(n)| <= 9 && IsBody(Decimal(n)) && 0 !in Decimal(n)
    decreases n
  {
    DecimalLength(n, 9, 1_000_000_000);
    DecimalDigits(n);
  }

  lemma {:induction false} DecimalDigits(n: nat)
    ensures forall i :: 0 <= i < |Decimal(n)| ==> IsDigit(Decimal(n)[i])
    decreases n
  {
    if n >= 10 {
      DecimalDigits(n / 10);
    }
  }

  lemma {:induction false} DecimalLength(n: nat, k: nat, bound: nat)
    requires 1 <= k && n < bound && bound == Tens(k)
    ensures |Decimal(n)| <= k
    decreases k
  {
    if n >= 10 {
      DecimalLength(n / 10, k - 1, bound / 10);
    }
  }

  function Tens(k: nat): nat {
    if k == 0 then 1 else 10 * Tens(k - 1)
  }

  /** The numbers of a sequence with one decimal parameter. */
  lemma DecimalNumbers(n: nat, last: byte, height: int)
    requires n <= LARGEST && IsFinal(last)
    ensures var s := Decimal(n) + [last];
            && CString(s) == s && !IsForeign(s) && !IsMode(s) && CodeOf(s) == last as char && Hides(s, true) && !Hides(s, false)
            && OneInt(s, 0) == OneInt(s, 1) == n && TwoInts(s, 1, height) == (n, height)
  {
    var s := Decimal(n) + [last];
    DecimalIsBody(n);
    CStringWhole(s);
    ScanDecimal(n, [last]);
    DigitsOfDecimal(n, [last]);
    assert s[0] == Decimal(n)[0];
    hide Decimal, ScanInt;
  }

  /** Line commands, as the screen sees them: from the line of the cursor to the bottom of the region, or of the screen. */
  function LinesMoved(t: Tty, w: Window, count: int): Tty
    requires Fits(t.editing.place, 'L', 0, w.width, w.height)
  {
    var p, e := t.editing.place, Entered(Cursor(t.editing.place.line, t.editing.place.column), w.width);
    var to := Bottom(e.line, t.editing.scrollTo, w.height);
    t.(editing := t.editing.(place := Place(Region(p.view, w.height, e.line, to, count, Filled(t.style + 32)), e.line, e.column)))
  }

  /** A sequence that is no question-mark sequence and no SGR only runs its command. */
  lemma PlainSequence(t: Tty, w: Window, look: Look, s: seq<byte>, code: char, n: int, m: int)
    requires s != [] && 0 !in s && s[0] != 0x3f && CodeOf(s) == code && code != 'm'
    requires Numbers(s, code, w.height) == (n, m) && Small(n) && Small(m) && Fits(t.editing.place, code, n, w.width, w.height)
    ensures Sequenced(t, w, look, s) ==
            Some(t.(editing := Commanded(t.editing, code, n, m, false, w.width, w.height, t.style + 32)))
  {
    hide Numbers, Commanded, Fits;
    CStringWhole(s);
    hide CString;
    assert !IsForeign(s) && !IsMode(s) && Hides(s, true) && !Hides(s, false);
    hide IsForeign, IsMode, Hides;
  }

  lemma DecimalStart(n: nat, last: byte)
    requires n <= LARGEST && IsFinal(last)
    ensures var s := Decimal(n) + [last];
            0 !in s && s != [] && s[0] != 0x3f && CodeOf(s) == last as char
  {
    DecimalIsBody(n);
    DigitsOfDecimal(n, [last]);
    assert (Decimal(n) + [last])[0] == Decimal(n)[0];
    hide Decimal;
  }

  lemma LinesSequenced(t: Tty, w: Window, look: Look, n: nat, insert: bool)
    requires n <= LARGEST && Fits(t.editing.place, 'L', 0, w.width, w.height)
    ensures Sequenced(t, w, look, Decimal(n) + [if insert then 0x4c else 0x4d]) == Some(LinesMoved(t, w, Signed(n, insert)))
  {
    var last := if insert then 0x4c else 0x4d;
    var s := Decimal(n) + [last];
    DecimalNumbers(n, last, w.height);
    DecimalStart(n, last);
    assert Numbers(s, last as char, w.height) == (n, 1);
    hide Decimal, Numbers, Sequenced, Region;
    PlainSequence(t, w, look, s, last as char, n, 1);
    hide Bottom, AfterCommand, EditedView;
  }

  /** The bytes of a command that inserts (L) or deletes (M) n lines, n in decimal, do to the screen what scroll_region does;
      `PartialRegionExact` says when that is right. */
  lemma LinesCommand(p: Parser, t: Tty, w: Window, look: Look, n: nat, insert: bool)
    requires p.state == Ground && n <= LARGEST && Fits(t.editing.place, 'L', 0, w.width, w.height)
    ensures Steps(t, w, look, Run(p, CsiBytes(Decimal(n), if insert then 0x4c else 0x4d)).1) == Some(LinesMoved(t, w, Signed(n, insert)))
  {
    hide Decimal, Run, Steps, Sequenced, LinesMoved, Fits;
    DecimalIsBody(n);
    SequenceSteps(p, t, w, look, Decimal(n), if insert then 0x4c else 0x4d);
    LinesSequenced(t, w, look, n, insert);
  }

  /** `CSI 10 M` on line 20 of 24 blanks line 15, above the lines that it is to delete. */
  lemma DeletingTooManyLines(p: Parser, t: Tty, w: Window, look: Look) returns (u: Tty)
    requires p.state == Ground && 1 <= w.width <= COLUMNS && w.height == 24 && t.editing.scrollTo == 24
    requires t.editing.place.line == 20 && 0 <= t.editing.place.column < w.width
    ensures Steps(t, w, look, Run(p, CsiBytes([0x31, 0x30], 0x4d)).1) == Some(u)
    ensures u.editing.place.view[15] == Filled(t.style + 32)
  {
    assert Decimal(10) == [0x31, 0x30];
    u := LinesMoved(t, w, -10);
    BlankAbove(t, w);
    hide Region, Run, Steps, Decimal, LinesMoved, CsiBytes;
    LinesCommand(p, t, w, look, 10, false);
  }

  lemma BlankAbove(t: Tty, w: Window)
    requires 1 <= w.width <= COLUMNS && w.height == 24 && t.editing.scrollTo == 24
    requires t.editing.place.line == 20 && 0 <= t.editing.place.column < w.width
    ensures LinesMoved(t, w, -10).editing.place.view[15] == Filled(t.style + 32)
  {
    RegionAt(t.editing.place.view, 24, 20, 24, -10, Filled(t.style + 32), 15);
    hide Region;
  }

  /** `CSI 0 r` and then `CSI A` take the cursor to the line above the screen. */
  lemma AboveTheScreen(p: Parser, t: Tty, w: Window, look: Look) returns (u: Tty)
    requires p.state == Ground && 1 <= w.width <= COLUMNS && 1 <= w.height <= 254
    requires 0 <= t.editing.place.line && 0 <= t.editing.place.column < w.width
    ensures Steps(t, w, look, Run(p, CsiBytes([0x30], 0x72) + CsiBytes([], 0x41)).1) == Some(u)
    ensures u.editing.place.line == -1
  {
    var first, second := CsiBytes([0x30], 0x72), CsiBytes([], 0x41);
    assert Decimal(0) == [0x30];
    DecimalIsBody(0);
    SequenceSteps(p, t, w, look, [0x30], 0x72);
    DecimalNumbers(0, 0x72, w.height);
    var r := Sequenced(t, w, look, [0x30] + [0x72]).value;
    var q := Run(p, first).0;
    SequenceSteps(q, r, w, look, [], 0x41);
    UpOneLine(r, w, look);
    assert [] + [0x41 as byte] == [0x41];
    u := Sequenced(r, w, look, [0x41]).value;
    RunSplit(p, first, second);
    StepsAppend(t, w, look, Run(p, first).1, Run(q, second).1);
  }

  lemma UpOneLine(r: Tty, w: Window, look: Look)
    requires 1 <= w.width <= COLUMNS && 1 <= w.height <= 254
    requires r.editing.place.line == 0 && r.editing.place.column == 0 && r.editing.scrollFrom == -1 && r.editing.scrollTo == w.height
    ensures var u := Sequenced(r, w, look, [0x41]);
            u.Some? && u.value.editing.place.line == -1
  {
    CStringWhole([0x41]);
    assert ScanInt([0x41]) == NoNumber;
  }

  /** A tab in the last line of a window of 100 columns, from column 96, takes the cursor behind the screen; `CSI J` from there
      blanks the whole of it. */
  lemma TabThenEraseBelow(p: Parser, t: Tty, w: Window, look: Look) returns (u: Tty)
    requires p.state == Ground && w.width == 100 && ValidPage(PageFor(t, w))
    requires t.editing.place.line == w.height - 1 && t.editing.place.column == 96
    ensures Steps(t, w, look, Run(p, [9] + CsiBytes([], 0x4a)).1) == Some(u)
    ensures forall k, c :: 0 <= k < w.height && 0 <= c < COLUMNS ==> u.editing.place.view[k][c] == t.style + 32
  {
    RunOf1(p, 9);
    assert Next(p, 9) == (p, [Control(9)]);
    StepsOfOne(t, w, look, Control(9));
    var r := t.(editing := t.editing.(place := t.editing.place.(column := 104)));
    assert Step(t, w, look, Control(9)) == Some(r);
    u := EraseBelowBehind(r, w, look);
    SequenceSteps(p, r, w, look, [], 0x4a);
    assert [] + [0x4a as byte] == [0x4a];
    RunSplit(p, [9], CsiBytes([], 0x4a));
    hide Run, Steps, Step, Sequenced;
    StepsAppend(t, w, look, [Control(9)], Run(p, CsiBytes([], 0x4a)).1);
  }

  lemma EraseBelowBehind(t: Tty, w: Window, look: Look) returns (u: Tty)
    requires w.width == 100 && 1 <= w.height <= 254 && t.editing.place.line == w.height - 1 && t.editing.place.column == 104
    ensures Sequenced(t, w, look, [0x4a]) == Some(u)
    ensures forall k, c :: 0 <= k < w.height && 0 <= c < COLUMNS ==> u.editing.place.view[k][c] == t.style + 32
  {
    CStringWhole([0x4a]);
    assert ScanInt([0x4a]) == NoNumber;
    var s: seq<byte> := [0x4a];
    assert CodeOf(s) == 'J' && !IsForeign(s) && !IsMode(s);
    u := Sequenced(t, w, look, s).value;
    var a, x := w.height * COLUMNS + 4, t.style + 32;
    assert u.editing.place.view == ViewErased(t.editing.place.view, a, w.height * COLUMNS, x);
    forall k, c | 0 <= k < w.height && 0 <= c < COLUMNS
      ensures u.editing.place.view[k][c] == x
    {
      BehindTheScreen(t.editing.place.view, a, w.height, x, k, c);
    }
  }
}
