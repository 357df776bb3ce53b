/**
  The blinking cursor of the text window manager, drawn into the text buffer itself by the main loop and by a timer
  signal that can arrive between any two statements of the main loop (software/textwm2/textwm.c:371-381, 488-523;
  software/textwm2/tty.c:469-487).
 */
module CursorOverlay {
  import opened MachineTypes

  type Cell = bv32

  const TTY_COUNT := 7

  /** What tty_handler works on: the text memory of the terminal, the cell its cursor points at, the flag that an
      escape sequence sets to hide the cursor, and all other fields, which the cursor code does not look at. */
  datatype CoreFields = CoreFields(cells: seq<Cell>, cursor: nat, hidden: bool, rest: seq<int>)
  type Core = c: CoreFields | c.cursor < |c.cells| witness CoreFields([0], 0, false, [])

  type ByteHandler = (Core, byte) -> Core

  datatype Tty = Tty(core: Core, visible: bool, blink: bool, saved: Cell)

  function SwapFgBg(c: Cell): Cell {
    var bg := c >> 24;
    var fg := (c >> 16) & 15;
    (fg << 24) | ((bg + 16) << 16) | (c & 511)
  }

  // ---------------------------------------------------------------- what inverting a cell means

  /** The fields of a cell: the number of its background, of its foreground, and its character. */
  function Background(c: Cell): bv32 { c >> 24 }

  function Foreground(c: Cell): bv32 { (c >> 16) & 0xff }

  function Character(c: Cell): bv32 { c & 0x1ff }

  /** The cell as the cursor shows it: the foreground, as one of the sixteen background colours, behind the background as
      one of the foreground colours, and the same character. */
  predicate Inverted(c: Cell, d: Cell) {
    && Character(d) == Character(c)
    && (Background(c) < 240 ==> Background(d) == Foreground(c) & 15 && Foreground(d) == Background(c) + 16)
  }

  lemma Inverts(c: Cell)
    ensures Inverted(c, SwapFgBg(c))
  {
    InvertsCharacter(c);
    if Background(c) < 240 {
      InvertsBackground(c);
      InvertsForeground(c);
    }
  }

  lemma InvertsCharacter(c: Cell)
    ensures Character(SwapFgBg(c)) == Character(c)
  {
  }

  lemma InvertsBackground(c: Cell)
    requires Background(c) < 240
    ensures Background(SwapFgBg(c)) == Foreground(c) & 15
  {
  }

  lemma InvertsForeground(c: Cell)
    requires Background(c) < 240
    ensures Foreground(SwapFgBg(c)) == Background(c) + 16
  {
  }

  /** The background comes out right for every cell but those that have a number above 239 and an even foreground: there
      the sum runs into the background. */
  lemma BackgroundExact(c: Cell)
    ensures Background(SwapFgBg(c)) == Foreground(c) & 15 <==> Background(c) < 240 || Foreground(c) & 1 == 1
  {
  }

  /** The styles of coloured text: foreground 16 to 31, background 0 to 15, a character and nothing else. */
  predicate Coloured(c: Cell) {
    16 <= Foreground(c) < 32 && Background(c) < 16 && c & 0xfe00 == 0
  }

  /** For coloured text the two colours change places, and inverting twice gives the cell back. */
  lemma ColoursExchange(c: Cell)
    requires Coloured(c)
    ensures var d := SwapFgBg(c);
            Coloured(d) && Foreground(d) - 16 == Background(c) && Background(d) == Foreground(c) - 16 && SwapFgBg(d) == c
  {
    InvertsBackground(c);
    InvertsForeground(c);
    ColouredAgain(c);
    LowFour(Foreground(c));
    InvertsTwice(c);
    hide SwapFgBg, Foreground, Background;
  }

  lemma ColouredAgain(c: Cell)
    requires Coloured(c)
    ensures Coloured(SwapFgBg(c))
  {
  }

  lemma LowFour(x: bv32)
    requires 16 <= x < 32
    ensures x & 15 == x - 16
  {
  }

  lemma InvertsTwice(c: Cell)
    requires Coloured(c)
    ensures SwapFgBg(SwapFgBg(c)) == c
  {
  }

  /** The cursor cannot be seen on a cell exactly where the text cannot either: where both colours are the same. */
  lemma ShownDiffers(c: Cell)
    ensures SwapFgBg(c) == c <==> Coloured(c) && Foreground(c) == Background(c) + 16
  {
  }

  // ---------------------------------------------------------------- the functions

  function Store(c: Core, v: Cell): Core {
    c.(cells := c.cells[c.cursor := v])
  }

  function HideCursor(t: Tty): Tty {
    if !t.visible then t else t.(core := Store(t.core, t.saved), visible := false)
  }

  function ShowCursor(t: Tty): Tty {
    if t.visible then t
    else
      var at := t.core.cells[t.core.cursor];
      t.(saved := at, core := Store(t.core, SwapFgBg(at)), visible := true)
  }

  // ---------------------------------------------------------------- the main loop, statement by statement

  /** Where the main loop is; every step after Polling works on one terminal. */
  datatype Place =
    | Polling
    | HideTest | HideWrite | HideDone
    | Feeding
    | ShowTest | ShowRead | ShowWrite | ShowDone
    | BlinkOn

  datatype World = World(ttys: seq<Tty>, active: int, counter: int, place: Place, current: int)

  predicate Typed(w: World) {
    |w.ttys| == TTY_COUNT && 0 <= w.active < TTY_COUNT && 0 <= w.current < TTY_COUNT
  }

  datatype Event =
    | Input(tty: int)     // poll says that terminal `tty` has input: cursor_blink = false
    | Statement           // the next statement of hide_cursor, show_cursor or the bracket
    | Handle(c: byte)     // one call of tty_handler
    | AllHandled          // the last byte of the buffer has been handled
    | KeyPress            // blink_counter = 0
    | Activate(tty: int)  // tty_set_active
    | Timer               // the signal

  function Next(h: ByteHandler, w: World, e: Event): (v: World)
    requires Typed(w)
    ensures Typed(v)
  {
    match e
    case Input(i) =>
      if w.place == Polling && 0 <= i < TTY_COUNT then
        w.(ttys := w.ttys[i := w.ttys[i].(blink := false)], place := HideTest, current := i)
      else w
    case Statement => w.(ttys := w.ttys[w.current := Statement1(w.place, w.ttys[w.current])],
                         place := Place1(w.place, w.ttys[w.current]))
    case Handle(c) =>
      if w.place == Feeding then
        w.(ttys := w.ttys[w.current := w.ttys[w.current].(core := h(w.ttys[w.current].core, c))])
      else w
    case AllHandled => if w.place == Feeding then w.(place := ShowTest) else w
    case KeyPress => if w.place == Polling then w.(counter := 0) else w
    case Activate(i) => if w.place == Polling && 0 <= i < TTY_COUNT then w.(active := i) else w
    case Timer => Tick(w)
  }

  function Statement1(p: Place, t: Tty): Tty {
    match p
    case HideWrite => t.(core := Store(t.core, t.saved))
    case HideDone => t.(visible := false)
    case ShowRead => t.(saved := t.core.cells[t.core.cursor])
    case ShowWrite => t.(core := Store(t.core, SwapFgBg(t.core.cells[t.core.cursor])))
    case ShowDone => t.(visible := true)
    case BlinkOn => t.(blink := true)
    case _ => t
  }

  function Place1(p: Place, t: Tty): Place {
    match p
    case Polling => Polling
    case HideTest => if t.visible then HideWrite else Feeding
    case HideWrite => HideDone
    case HideDone => Feeding
    case Feeding => Feeding
    case ShowTest => if t.core.hidden || t.visible then BlinkOn else ShowRead
    case ShowRead => ShowWrite
    case ShowWrite => ShowDone
    case ShowDone => BlinkOn
    case BlinkOn => Polling
  }

  /** timer_handler, up to the drawing of windows. */
  function Tick(w: World): World
    requires Typed(w)
  {
    if !w.ttys[w.active].blink then w
    else
      var counter := (w.counter + 1) % 16;
      w.(counter := counter, ttys := w.ttys[w.active := Blinked(w.ttys[w.active], counter)])
  }

  function Blinked(t: Tty, counter: int): Tty {
    if counter >= 8 then HideCursor(t) else if !t.core.hidden then ShowCursor(t) else t
  }

  function Run(h: ByteHandler, w: World, es: seq<Event>): (v: World)
    requires Typed(w)
    ensures Typed(v)
    decreases |es|
  {
    if es == [] then w else Run(h, Next(h, w, es[0]), es[1..])
  }

  // ---------------------------------------------------------------- the text without its cursor

  /** Between the two assignments of hide_cursor or show_cursor the flag and the cell disagree for a moment. */
  predicate Drawn(p: Place, t: Tty) {
    if p == HideDone then false else if p == ShowDone then true else t.visible
  }

  function Plain(p: Place, t: Tty): Core {
    if Drawn(p, t) then Store(t.core, t.saved) else t.core
  }

  function PlaceOf(w: World, i: int): Place {
    if i == w.current then w.place else Polling
  }

  /** What is true of the terminal the main loop works on when the loop is at `p`. */
  predicate Fits(p: Place, t: Tty) {
    && (p != Polling ==> !t.blink)
    && (p == HideWrite || p == HideDone ==> t.visible)
    && (p == Feeding || p == ShowTest || p == ShowRead || p == ShowWrite || p == ShowDone ==> !t.visible)
    && (p == HideDone ==> t.core.cells[t.core.cursor] == t.saved)
    && (p == ShowRead || p == ShowWrite || p == ShowDone ==> !t.core.hidden)
    && (p == ShowWrite ==> t.core.cells[t.core.cursor] == t.saved)
    && (Drawn(p, t) ==> !t.core.hidden && t.core.cells[t.core.cursor] == SwapFgBg(t.saved))
  }

  predicate Inv(w: World) {
    Typed(w) && forall i :: 0 <= i < TTY_COUNT ==> Fits(PlaceOf(w, i), w.ttys[i])
  }

  /** Before the loop starts no cursor is drawn. */
  predicate Initial(w: World) {
    Typed(w) && w.place == Polling && forall i :: 0 <= i < TTY_COUNT ==> !w.ttys[i].visible
  }

  lemma InitialInv(w: World)
    requires Initial(w)
    ensures Inv(w)
  {
  }

  lemma StatementFits(p: Place, t: Tty)
    requires Fits(p, t)
    ensures Fits(Place1(p, t), Statement1(p, t))
    ensures Plain(Place1(p, t), Statement1(p, t)) == Plain(p, t)
  {
    hide SwapFgBg;
    var q, u := Place1(p, t), Statement1(p, t);
    assert Plain(q, u).cells == Plain(p, t).cells;
  }

  lemma BlinkedFits(t: Tty, counter: int)
    requires Fits(Polling, t)
    ensures Fits(Polling, Blinked(t, counter))
    ensures Plain(Polling, Blinked(t, counter)) == Plain(Polling, t)
  {
    hide SwapFgBg;
    var u := Blinked(t, counter);
    assert Plain(Polling, u).cells == Plain(Polling, t).cells;
  }

  function Expected(h: ByteHandler, w: World, e: Event, i: int): Core
    requires Typed(w) && 0 <= i < TTY_COUNT
  {
    var plain := Plain(PlaceOf(w, i), w.ttys[i]);
    if e.Handle? && w.place == Feeding && i == w.current then h(plain, e.c) else plain
  }

  /** One step on one terminal. */
  lemma NextKeepsTextOf(h: ByteHandler, w: World, e: Event, i: int)
    requires Typed(w) && 0 <= i < TTY_COUNT && Fits(PlaceOf(w, i), w.ttys[i])
    ensures var v := Next(h, w, e);
            Fits(PlaceOf(v, i), v.ttys[i]) && Plain(PlaceOf(v, i), v.ttys[i]) == Expected(h, w, e, i)
  {
    hide SwapFgBg, Statement1, Place1, Blinked;
    if e == Timer {
      if w.ttys[w.active].blink && i == w.active {
        BlinkedFits(w.ttys[i], (w.counter + 1) % 16);
      }
    } else if e == Statement {
      if i == w.current {
        StatementFits(w.place, w.ttys[i]);
      }
    }
  }

  /** One step: the invariant stays, and no text but that of the handled byte changes. */
  lemma NextKeepsText(h: ByteHandler, w: World, e: Event)
    requires Inv(w)
    ensures Inv(Next(h, w, e))
    ensures forall i :: 0 <= i < TTY_COUNT ==>
              Plain(PlaceOf(Next(h, w, e), i), Next(h, w, e).ttys[i]) == Expected(h, w, e, i)
  {
    hide Next, Fits, Plain, PlaceOf, Expected;
    forall i | 0 <= i < TTY_COUNT
      ensures Fits(PlaceOf(Next(h, w, e), i), Next(h, w, e).ttys[i])
      ensures Plain(PlaceOf(Next(h, w, e), i), Next(h, w, e).ttys[i]) == Expected(h, w, e, i)
    {
      NextKeepsTextOf(h, w, e, i);
    }
  }

  /** The bytes that the main loop hands to tty_handler for terminal i. */
  function BytesFor(h: ByteHandler, w: World, es: seq<Event>, i: int): seq<byte>
    requires Typed(w)
    decreases |es|
  {
    if es == [] then []
    else
      (if es[0].Handle? && w.place == Feeding && i == w.current then [es[0].c] else [])
      + BytesFor(h, Next(h, w, es[0]), es[1..], i)
  }

  function Fed(h: ByteHandler, c: Core, input: seq<byte>): Core
    decreases |input|
  {
    if input == [] then c else Fed(h, h(c, input[0]), input[1..])
  }

  /** However the signal falls between the statements: without the cursor, the text is what the bytes alone make. */
  lemma {:induction false} CursorIsTransparent(h: ByteHandler, w: World, es: seq<Event>, i: int)
    requires Typed(w) && Inv(w) && 0 <= i < TTY_COUNT
    ensures Inv(Run(h, w, es))
    ensures var v := Run(h, w, es);
            Plain(PlaceOf(v, i), v.ttys[i]) == Fed(h, Plain(PlaceOf(w, i), w.ttys[i]), BytesFor(h, w, es, i))
    decreases |es|
  {
    hide Next, Inv, Plain, PlaceOf;
    if es != [] {
      NextKeepsText(h, w, es[0]);
      CursorIsTransparent(h, Next(h, w, es[0]), es[1..], i);
      var rest := BytesFor(h, Next(h, w, es[0]), es[1..], i);
      var c := es[0];
      if c.Handle? && w.place == Feeding && i == w.current {
        assert BytesFor(h, w, es, i) == [c.c] + rest;
      } else {
        assert BytesFor(h, w, es, i) == rest;
      }
    }
  }

  /** While the loop waits for input, the memory is the plain text with at most the cursor's own cell inverted, and
      no cursor is drawn that an escape sequence has hidden. */
  lemma DrawnTextAtRest(h: ByteHandler, w: World, es: seq<Event>, i: int)
    requires Initial(w) && 0 <= i < TTY_COUNT && Run(h, w, es).place == Polling
    ensures var t := Run(h, w, es).ttys[i];
            var plain := Fed(h, w.ttys[i].core, BytesFor(h, w, es, i));
            t.core == (if t.visible then Store(plain, SwapFgBg(plain.cells[plain.cursor])) else plain)
            && (t.visible ==> !plain.hidden && Inverted(plain.cells[plain.cursor], t.core.cells[t.core.cursor]))
  {
    hide Run, BytesFor, Fed, SwapFgBg, Inverted;
    InitialInv(w);
    CursorIsTransparent(h, w, es, i);
    var v := Run(h, w, es);
    var t := v.ttys[i];
    assert Fits(PlaceOf(v, i), t);
    var plain := Fed(h, w.ttys[i].core, BytesFor(h, w, es, i));
    if t.visible {
      assert plain.cells[plain.cursor] == t.saved;
      Inverts(t.saved);
      assert t.core.cells == plain.cells[plain.cursor := SwapFgBg(t.saved)];
    }
  }

  /** The cursor blinks: after a signal it is drawn in the first half of the sixteen counts, unless it is hidden. */
  lemma BlinkPhase(w: World)
    requires Inv(w) && w.ttys[w.active].blink
    ensures var v := Tick(w);
            v.counter == (w.counter + 1) % 16
            && (v.ttys[w.active].visible <==> v.counter < 8 && !w.ttys[w.active].core.hidden)
  {
    assert Fits(PlaceOf(w, w.active), w.ttys[w.active]);
  }

  // ---------------------------------------------------------------- the statements make up the functions

  /** The world in which only the current terminal and the place have changed. */
  function With(w: World, p: Place, t: Tty): World
    requires Typed(w)
  {
    w.(ttys := w.ttys[w.current := t], place := p)
  }

  lemma StatementWith(h: ByteHandler, w: World, p: Place, t: Tty)
    requires Typed(w)
    ensures Typed(With(w, p, t))
    ensures Next(h, With(w, p, t), Statement) == With(w, Place1(p, t), Statement1(p, t))
  {
    hide Statement1, Place1;
    assert w.ttys[w.current := t][w.current := Statement1(p, t)] == w.ttys[w.current := Statement1(p, t)];
  }

  lemma WithItself(w: World)
    requires Typed(w)
    ensures With(w, w.place, w.ttys[w.current]) == w
  {
  }

  /** The statements of hide_cursor, run without a signal between them. */
  lemma HideStatements(h: ByteHandler, w: World)
    requires Typed(w) && w.place == HideTest
    ensures Run(h, w, if w.ttys[w.current].visible then [Statement, Statement, Statement] else [Statement])
            == With(w, Feeding, HideCursor(w.ttys[w.current]))
  {
    hide SwapFgBg, Next, With, Run;
    var t0 := w.ttys[w.current];
    WithItself(w);
    StatementWith(h, w, HideTest, t0);
    if t0.visible {
      var t1 := Statement1(HideWrite, t0);
      StatementWith(h, w, HideWrite, t0);
      StatementWith(h, w, HideDone, t1);
      Three(h, w);
    } else {
      One(h, w);
    }
  }

  /** The statements of show_cursor, run without a signal between them. */
  lemma ShowStatements(h: ByteHandler, w: World)
    requires Typed(w) && w.place == ShowTest && !w.ttys[w.current].core.hidden && !w.ttys[w.current].visible
    ensures Run(h, w, [Statement, Statement, Statement, Statement])
            == With(w, BlinkOn, ShowCursor(w.ttys[w.current]))
  {
    hide SwapFgBg, Next, With, Run;
    var t0 := w.ttys[w.current];
    WithItself(w);
    StatementWith(h, w, ShowTest, t0);
    var t1 := Statement1(ShowRead, t0);
    StatementWith(h, w, ShowRead, t0);
    var t2 := Statement1(ShowWrite, t1);
    StatementWith(h, w, ShowWrite, t1);
    StatementWith(h, w, ShowDone, t2);
    Four(h, w);
  }

  lemma {:induction false} RunSplit(h: ByteHandler, w: World, a: seq<Event>, b: seq<Event>)
    requires Typed(w)
    ensures Run(h, w, a + b) == Run(h, Run(h, w, a), b)
    decreases |a|
  {
    hide Next;
    if a == [] {
      assert a + b == b;
    } else {
      assert (a + b)[1..] == a[1..] + b;
      RunSplit(h, Next(h, w, a[0]), a[1..], b);
    }
  }

  lemma RunOne(h: ByteHandler, w: World, e: Event)
    requires Typed(w)
    ensures Run(h, w, [e]) == Next(h, w, e)
  {
    hide Next;
    assert [e][1..] == [];
  }

  /** The terminal after its input has been served: the cursor hidden, the byte handled, the cursor shown unless the byte
      has hidden it. */
  function Served(h: ByteHandler, t: Tty, c: byte): Tty {
    var u := HideCursor(t);
    var v := u.(core := h(u.core, c), blink := false);
    if v.core.hidden then v.(blink := true) else ShowCursor(v).(blink := true)
  }

  function HideEvents(t: Tty): seq<Event> {
    if t.visible then [Statement, Statement, Statement] else [Statement]
  }

  function ShowEvents(t: Tty): seq<Event> {
    if t.core.hidden then [Statement] else [Statement, Statement, Statement, Statement]
  }

  /** The pass from the point where the cursor has been hidden. */
  lemma FeedAndShow(h: ByteHandler, w: World, c: byte)
    requires Typed(w) && w.place == Feeding && !w.ttys[w.current].visible
    ensures var t := w.ttys[w.current];
            var u := t.(core := h(t.core, c));
            Run(h, w, [Handle(c)] + ([AllHandled] + (ShowEvents(u) + [Statement]))) ==
            With(w, Polling, (if u.core.hidden then u else ShowCursor(u)).(blink := true))
  {
    var t := w.ttys[w.current];
    var u := t.(core := h(t.core, c));
    hide Run, Next, ShowCursor, ShowEvents;
    FeedOne(h, w, c);
    Shows(h, With(w, ShowTest, u));
    WithTwice(w, ShowTest, u, Polling, (if u.core.hidden then u else ShowCursor(u)).(blink := true));
    hide With;
    var rest := ShowEvents(u) + [Statement];
    RunSplit(h, w, [Handle(c)], [AllHandled] + rest);
    RunSplit(h, Next(h, w, Handle(c)), [AllHandled], rest);
  }

  lemma WithTwice(w: World, p: Place, t: Tty, q: Place, u: Tty)
    requires Typed(w)
    ensures Typed(With(w, p, t)) && With(w, p, t).ttys[w.current] == t && With(w, p, t).current == w.current
    ensures With(With(w, p, t), q, u) == With(w, q, u)
  {
    assert w.ttys[w.current := t][w.current := u] == w.ttys[w.current := u];
  }

  function PassEvents(h: ByteHandler, t: Tty, c: byte): seq<Event> {
    var u := HideCursor(t).(core := h(HideCursor(t).core, c));
    HideEvents(t) + ([Handle(c)] + ([AllHandled] + (ShowEvents(u) + [Statement])))
  }

  lemma PassFromTest(h: ByteHandler, w: World, c: byte)
    requires Typed(w) && w.place == HideTest
    ensures var t := w.ttys[w.current];
            var u := HideCursor(t).(core := h(HideCursor(t).core, c));
            Run(h, w, PassEvents(h, t, c)) == With(w, Polling, (if u.core.hidden then u else ShowCursor(u)).(blink := true))
  {
    var t := w.ttys[w.current];
    var v := HideCursor(t);
    var u := v.(core := h(v.core, c));
    hide Run, Next, ShowCursor, ShowEvents;
    HideStatements(h, w);
    NotVisible(t);
    AtFeeding(w, v);
    hide HideCursor;
    WithTwice(w, Feeding, v, Polling, (if u.core.hidden then u else ShowCursor(u)).(blink := true));
    hide With;
    FeedAndShow(h, With(w, Feeding, v), c);
    RunSplit(h, w, HideEvents(t), [Handle(c)] + ([AllHandled] + (ShowEvents(u) + [Statement])));
  }

  /** One pass of the main loop for one byte on any terminal, without a signal in between. */
  lemma OnePass(h: ByteHandler, w: World, i: int, c: byte) returns (es: seq<Event>)
    requires Typed(w) && w.place == Polling && 0 <= i < 7
    ensures Handle(c) in es && Timer !in es
    ensures Run(h, w, es) == w.(ttys := w.ttys[i := Served(h, w.ttys[i], c)], current := i)
  {
    var t := w.ttys[i].(blink := false);
    var w1 := Next(h, w, Input(i));
    assert w1 == w.(ttys := w.ttys[i := t], place := HideTest, current := i);
    es := [Input(i)] + PassEvents(h, t, c);
    PassEnds(h, w, i, c);
    PassHandles(h, t, c);
    hide Run, Next, ShowCursor, HideCursor, With, PassEvents, Served;
    assert Handle(c) in es;
    PassFromTest(h, w1, c);
    RunOne(h, w, Input(i));
    RunSplit(h, w, [Input(i)], PassEvents(h, t, c));
  }

  lemma PassHandles(h: ByteHandler, t: Tty, c: byte)
    ensures Handle(c) in PassEvents(h, t, c) && Timer !in PassEvents(h, t, c)
  {
    var u := HideCursor(t).(core := h(HideCursor(t).core, c));
    hide HideCursor;
    assert Timer !in HideEvents(t) && Timer !in ShowEvents(u);
    assert PassEvents(h, t, c)[|HideEvents(t)|] == Handle(c);
  }

  lemma AtFeeding(w: World, t: Tty)
    requires Typed(w)
    ensures With(w, Feeding, t).place == Feeding
  {
  }

  lemma NotVisible(t: Tty)
    ensures !HideCursor(t).visible
  {
  }

  lemma PassEnds(h: ByteHandler, w: World, i: int, c: byte)
    requires Typed(w) && w.place == Polling && 0 <= i < 7
    ensures var t := w.ttys[i].(blink := false);
            var u := HideCursor(t).(core := h(HideCursor(t).core, c));
            (if u.core.hidden then u else ShowCursor(u)).(blink := true) == Served(h, w.ttys[i], c)
    ensures var w1 := w.(ttys := w.ttys[i := w.ttys[i].(blink := false)], place := HideTest, current := i);
            With(w1, Polling, Served(h, w.ttys[i], c)) == w.(ttys := w.ttys[i := Served(h, w.ttys[i], c)], current := i)
  {
    var x := Served(h, w.ttys[i], c);
    assert w.ttys[i := w.ttys[i].(blink := false)][i := x] == w.ttys[i := x];
  }

  lemma FeedOne(h: ByteHandler, w: World, c: byte)
    requires Typed(w) && w.place == Feeding
    ensures var t := w.ttys[w.current];
            && Run(h, w, [Handle(c)]) == Next(h, w, Handle(c)) == With(w, Feeding, t.(core := h(t.core, c)))
            && Run(h, Next(h, w, Handle(c)), [AllHandled]) == With(w, ShowTest, t.(core := h(t.core, c)))
  {
    RunOne(h, w, Handle(c));
    RunOne(h, Next(h, w, Handle(c)), AllHandled);
  }

  /** The end of a pass, from the test whether the cursor is hidden. */
  lemma Shows(h: ByteHandler, w: World)
    requires Typed(w) && w.place == ShowTest && !w.ttys[w.current].visible
    ensures var t := w.ttys[w.current];
            Run(h, w, ShowEvents(t) + [Statement]) ==
            With(w, Polling, (if t.core.hidden then t else ShowCursor(t)).(blink := true))
  {
    hide ShowCursor, Run;
    var t := w.ttys[w.current];
    WithItself(w);
    var u := if t.core.hidden then t else ShowCursor(t);
    if t.core.hidden {
      RunOne(h, w, Statement);
      StatementWith(h, w, ShowTest, t);
    } else {
      ShowStatements(h, w);
    }
    RunSplit(h, w, ShowEvents(t), [Statement]);
    RunOne(h, With(w, BlinkOn, u), Statement);
    StatementWith(h, w, BlinkOn, u);
  }

  /** Choosing any terminal and pressing a key starts the blinking anew: the next signal draws its cursor, unless hidden. */
  lemma KeyShowsCursor(h: ByteHandler, w: World, i: int)
    requires Inv(w) && w.place == Polling && 0 <= i < 7 && w.ttys[i].blink
    ensures var v := Run(h, w, [Activate(i), KeyPress, Timer]);
            v.active == i && v.counter == 1 && (v.ttys[i].visible <==> !v.ttys[i].core.hidden)
  {
    var w1 := w.(active := i, counter := 0);
    BlinkPhase(w1);
    assert Next(h, Next(h, w, Activate(i)), KeyPress) == w1;
    assert Tick(w1).active == i && Tick(w1).ttys[i].core.hidden == w.ttys[i].core.hidden by {
      hide Fits;
    }
    hide Tick, Run, Fits, Inv;
    RunThree(h, w, Activate(i), KeyPress, Timer);
  }

  lemma RunThree(h: ByteHandler, w: World, a: Event, b: Event, c: Event)
    requires Typed(w)
    ensures Run(h, w, [a, b, c]) == Next(h, Next(h, Next(h, w, a), b), c)
  {
    hide Next;
    assert [a, b, c][1..] == [b, c] && [b, c][1..] == [c];
    RunOne(h, Next(h, Next(h, w, a), b), c);
  }

  lemma One(h: ByteHandler, w: World)
    requires Typed(w)
    ensures Run(h, w, [Statement]) == Next(h, w, Statement)
  {
    hide Next;
    assert [Statement][1..] == [];
  }

  lemma Three(h: ByteHandler, w: World)
    requires Typed(w)
    ensures Run(h, w, [Statement, Statement, Statement])
            == Next(h, Next(h, Next(h, w, Statement), Statement), Statement)
  {
    hide Next;
    assert [Statement, Statement, Statement][1..] == [Statement, Statement];
    assert [Statement, Statement][1..] == [Statement];
    One(h, Next(h, Next(h, w, Statement), Statement));
  }

  lemma Four(h: ByteHandler, w: World)
    requires Typed(w)
    ensures Run(h, w, [Statement, Statement, Statement, Statement])
            == Next(h, Next(h, Next(h, Next(h, w, Statement), Statement), Statement), Statement)
  {
    hide Next;
    assert [Statement, Statement, Statement, Statement][1..] == [Statement, Statement, Statement];
    Three(h, Next(h, w, Statement));
  }

  // ---------------------------------------------------------------- the functions on the fields of struct TTY

  class Terminal {
    const cells: array<Cell>
    var cursor: nat
    var cursorHidden: bool
    var cursorVisible: bool
    var cursorBlink: bool
    var cdataAtCursor: Cell
    ghost const rest: seq<int>

    ghost predicate Valid()
      reads this
    {
      cursor < cells.Length
    }

    ghost function Value(): Tty
      reads this, cells
      requires Valid()
    {
      Tty(CoreFields(cells[..], cursor, cursorHidden, rest), cursorVisible, cursorBlink, cdataAtCursor)
    }

    /** hide_cursor */
    method Hide()
      requires Valid()
      modifies this`cursorVisible, cells
      ensures Valid() && Value() == HideCursor(old(Value()))
    {
      if !cursorVisible {
        return;
      }
      cells[cursor] := cdataAtCursor;
      cursorVisible := false;
    }

    /** show_cursor */
    method Show()
      requires Valid()
      modifies this`cursorVisible, this`cdataAtCursor, cells
      ensures Valid() && Value() == ShowCursor(old(Value()))
      ensures !old(cursorVisible) ==> cursorVisible && Inverted(old(cells[cursor]), cells[cursor])
    {
      hide SwapFgBg, Inverted;
      if cursorVisible {
        return;
      }
      Inverts(cells[cursor]);
      cdataAtCursor := cells[cursor];
      cells[cursor] := SwapFgBg(cells[cursor]);
      cursorVisible := true;
    }

    /** The cursor part of timer_handler, on the active terminal. */
    method Timer(blinkCounter: int) returns (counter: int)
      requires Valid() && 0 <= blinkCounter < 16
      modifies this`cursorVisible, this`cdataAtCursor, cells
      ensures Valid()
      ensures counter == if cursorBlink then (blinkCounter + 1) % 16 else blinkCounter
      ensures Value() == if cursorBlink then Blinked(old(Value()), counter) else old(Value())
    {
      hide HideCursor, ShowCursor;
      counter := blinkCounter;
      if cursorBlink {
        counter := (counter + 1) % 16;
        if counter >= 8 {
          Hide();
        } else if !cursorHidden {
          Show();
        }
      }
    }
  }
}
