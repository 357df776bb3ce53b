/**
  The 16-bit command counter of the engine (rtl/src/main/scala/endeavour2/DmaController.scala:354) against the command
  array of the X driver, which takes 256K commands (software/buildroot/xdriver-endeavour2-fbdev/e2fbdev.c:276): what a
  window move of any length does.
 */
module BatchLimit {
  import opened MachineTypes
  import opened DmaEngine
  import opened Arithmetic
  import opened BoxCopy
  import opened LineCopy
  import opened Surfaces
  import opened WindowMove

  // ---------------------------------------------------------------- a program line by line

  /** The k-th line that is copied, as a box of its own. */
  function LineBox(b: Box, dy: int, k: int): Box {
    var y := LineNumber(b, dy, k);
    Box(b.x1, y, b.x2, y + 1)
  }

  function LinesOfBox(b: Box, dy: int, k: nat): seq<Box>
    requires k <= Height(b)
    decreases Height(b) - k
  {
    if k == Height(b) then [] else [LineBox(b, dy, k)] + LinesOfBox(b, dy, k + 1)
  }

  /** All lines in the order in which they are copied. */
  function LinesOf(boxes: seq<Box>, dy: int): seq<Box> {
    if boxes == [] then [] else LinesOfBox(boxes[0], dy, 0) + LinesOf(boxes[1..], dy)
  }

  /** Line l belongs to box b. */
  predicate LineIn(l: Box, b: Box) {
    l.x1 == b.x1 && l.x2 == b.x2 && b.y1 <= l.y1 < b.y2 && l.y2 == l.y1 + 1
  }

  lemma {:induction false} LinesOfOneBox(b: Box, dy: int, k: nat)
    requires k <= Height(b)
    ensures var ls := LinesOfBox(b, dy, k);
            |ls| == Height(b) - k && forall i :: 0 <= i < |ls| ==> ls[i] == LineBox(b, dy, k + i) && LineIn(ls[i], b)
    decreases Height(b) - k
  {
    if k < Height(b) {
      LinesOfOneBox(b, dy, k + 1);
    }
  }

  lemma {:induction false} LineHasBox(boxes: seq<Box>, dy: int, i: nat) returns (j: nat)
    requires i < |LinesOf(boxes, dy)|
    ensures j < |boxes| && LineIn(LinesOf(boxes, dy)[i], boxes[j])
    decreases |boxes|
  {
    hide LineIn;
    LinesOfOneBox(boxes[0], dy, 0);
    var n := |LinesOfBox(boxes[0], dy, 0)|;
    if i < n {
      j := 0;
    } else {
      var j' := LineHasBox(boxes[1..], dy, i - n);
      j := j' + 1;
    }
  }

  lemma LinesMovable(g: Surface, boxes: seq<Box>, dx: int, dy: int)
    requires AllMovable(g, boxes, dx, dy) && NoneEmpty(boxes)
    ensures AllMovable(g, LinesOf(boxes, dy), dx, dy) && NoneEmpty(LinesOf(boxes, dy))
  {
    hide LinesOf;
    forall i | 0 <= i < |LinesOf(boxes, dy)|
      ensures Movable(g, LinesOf(boxes, dy)[i], dx, dy) && LinesOf(boxes, dy)[i].x1 < LinesOf(boxes, dy)[i].x2
    {
      var j := LineHasBox(boxes, dy, i);
      assert Movable(g, boxes[j], dx, dy);
    }
  }

  lemma {:induction false} LinesDisjoint(boxes: seq<Box>, dy: int)
    requires PairwiseDisjoint(boxes)
    ensures PairwiseDisjoint(LinesOf(boxes, dy))
    decreases |boxes|
  {
    hide LineIn;
    if boxes != [] {
      var first, rest := LinesOfBox(boxes[0], dy, 0), LinesOf(boxes[1..], dy);
      LinesDisjoint(boxes[1..], dy);
      LinesOfOneBox(boxes[0], dy, 0);
      var all := LinesOf(boxes, dy);
      assert all == first + rest;
      hide LinesOf;
      forall i, j | 0 <= i < j < |all|
        ensures !Overlap(all[i], all[j])
      {
        if j < |first| {
          RowsDiffer(boxes[0], dy, i, j);
        } else if i < |first| {
          var k := LineHasBox(boxes[1..], dy, j - |first|);
          LinesApart(all[i], boxes[0], all[j], boxes[k + 1]);
        } else {
          assert all[i] == rest[i - |first|] && all[j] == rest[j - |first|];
        }
      }
    }
  }

  lemma RowsDiffer(b: Box, dy: int, i: nat, j: nat)
    requires i < j
    ensures !Overlap(LineBox(b, dy, i), LineBox(b, dy, j))
  {
  }

  lemma LinesApart(l: Box, b: Box, m: Box, c: Box)
    requires LineIn(l, b) && LineIn(m, c) && !Overlap(b, c)
    ensures !Overlap(l, m)
  {
  }

  lemma ProgramOfLine(g: Surface, b: Box, dx: int, dy: int, k: nat)
    requires ValidSurface(g) && Movable(g, b, dx, dy) && b.x1 < b.x2 && k < Height(b)
    requires Movable(g, LineBox(b, dy, k), dx, dy)
    ensures BoxProgram(g, LineBox(b, dy, k), dx, dy, 0) ==
            LineProgram(b, dx, LineAddress(g, LineNumber(b, dy, k)), LineAddress(g, LineNumber(b, dy, k) - dy))
  {
    var l := LineBox(b, dy, k);
    assert Height(l) == 1 && LineNumber(l, dy, 0) == LineNumber(b, dy, k);
    hide LineNumber, LineAddress, Hi;
    BoxProgramLines(g, l, dx, dy, 0);
    BoxProgramLines(g, l, dx, dy, 1);
  }

  lemma BoxLinesMovable(g: Surface, b: Box, dx: int, dy: int, k: nat)
    requires Movable(g, b, dx, dy) && b.x1 < b.x2 && k <= Height(b)
    ensures AllMovable(g, LinesOfBox(b, dy, k), dx, dy) && NoneEmpty(LinesOfBox(b, dy, k))
  {
    LinesOfOneBox(b, dy, k);
  }

  lemma OneMoreLine(g: Surface, b: Box, dx: int, dy: int, k: nat)
    requires ValidSurface(g) && Movable(g, b, dx, dy) && b.x1 < b.x2 && k < Height(b)
    requires AllMovable(g, LinesOfBox(b, dy, k), dx, dy) && AllMovable(g, LinesOfBox(b, dy, k + 1), dx, dy)
    ensures Program(g, LinesOfBox(b, dy, k), dx, dy) ==
            LineProgram(b, dx, LineAddress(g, LineNumber(b, dy, k)), LineAddress(g, LineNumber(b, dy, k) - dy))
            + Program(g, LinesOfBox(b, dy, k + 1), dx, dy)
  {
    hide BoxProgram, LineProgram, Movable, LineNumber, LineAddress, Height, ValidSurface;
    var ls, l := LinesOfBox(b, dy, k), LineBox(b, dy, k);
    assert ls[0] == l && ls[1..] == LinesOfBox(b, dy, k + 1);
    ProgramOfLine(g, b, dx, dy, k);
  }

  lemma {:induction false} ProgramOfBoxLines(g: Surface, b: Box, dx: int, dy: int, k: nat)
    requires ValidSurface(g) && Movable(g, b, dx, dy) && b.x1 < b.x2 && k <= Height(b)
    ensures AllMovable(g, LinesOfBox(b, dy, k), dx, dy) && NoneEmpty(LinesOfBox(b, dy, k))
    ensures Program(g, LinesOfBox(b, dy, k), dx, dy) == BoxProgram(g, b, dx, dy, k)
    decreases Height(b) - k
  {
    hide LineProgram, Movable, LineNumber, LineAddress, Height, ValidSurface;
    BoxLinesMovable(g, b, dx, dy, k);
    BoxProgramLines(g, b, dx, dy, k);
    hide BoxProgram, AllMovable, NoneEmpty;
    if k < Height(b) {
      ProgramOfBoxLines(g, b, dx, dy, k + 1);
      OneMoreLine(g, b, dx, dy, k);
      hide Program;
    }
  }

  lemma {:induction false} ProgramAppend(g: Surface, a: seq<Box>, b: seq<Box>, dx: int, dy: int)
    requires ValidSurface(g) && AllMovable(g, a, dx, dy) && AllMovable(g, b, dx, dy) && NoneEmpty(a)
    ensures AllMovable(g, a + b, dx, dy)
    ensures Program(g, a + b, dx, dy) == Program(g, a, dx, dy) + Program(g, b, dx, dy)
    decreases |a|
  {
    hide BoxProgram, Movable;
    if a == [] {
      assert a + b == b;
    } else {
      assert (a + b)[1..] == a[1..] + b && (a + b)[0] == a[0];
      ProgramAppend(g, a[1..], b, dx, dy);
      var p := BoxProgram(g, a[0], dx, dy, 0);
      assert p + (Program(g, a[1..], dx, dy) + Program(g, b, dx, dy)) == (p + Program(g, a[1..], dx, dy)) + Program(g, b, dx, dy);
    }
  }

  /** The program of the boxes is the program of their lines. */
  lemma {:induction false} ProgramOfLines(g: Surface, boxes: seq<Box>, dx: int, dy: int)
    requires ValidSurface(g) && AllMovable(g, boxes, dx, dy) && NoneEmpty(boxes)
    ensures AllMovable(g, LinesOf(boxes, dy), dx, dy)
    ensures Program(g, LinesOf(boxes, dy), dx, dy) == Program(g, boxes, dx, dy)
    decreases |boxes|
  {
    hide BoxProgram, Movable;
    LinesMovable(g, boxes, dx, dy);
    if boxes != [] {
      ProgramOfLines(g, boxes[1..], dx, dy);
      ProgramOfBoxLines(g, boxes[0], dx, dy, 0);
      ProgramAppend(g, LinesOfBox(boxes[0], dy, 0), LinesOf(boxes[1..], dy), dx, dy);
    }
  }

  // ---------------------------------------------------------------- a program that is cut off

  /** A command that leaves the memory alone. */
  predicate Quiet(c: Cmd) {
    Opcode(c) == OP_READ || Opcode(c) == OP_READ_SYNC || Opcode(c) == OP_COPY
  }

  lemma QuietStep(e: Engine, c: Cmd)
    requires |e.buf| == BUFFER_SIZE && Quiet(c)
    ensures Step(e, c).Some? ==> Step(e, c).value.mem == e.mem
  {
    hide Opcode, From, To, Blit;
  }

  lemma {:induction false} QuietRun(e: Engine, p: seq<Cmd>)
    requires |e.buf| == BUFFER_SIZE && forall i :: 0 <= i < |p| ==> Quiet(p[i])
    ensures Run(e, p).Some? ==> Run(e, p).value.mem == e.mem
    decreases |p|
  {
    hide Step, Quiet;
    if p != [] {
      QuietStep(e, p[0]);
      if Step(e, p[0]).Some? {
        QuietRun(Step(e, p[0]).value, p[1..]);
      }
    }
  }

  lemma HiIsQuiet(op: int, from: int, to: int, lo: uint32)
    requires (op == OP_READ || op == OP_READ_SYNC || op == OP_COPY) && 0 <= from < 8192
    ensures Quiet(Cmd(lo, Hi(op, from, to)))
  {
    DecodeHi(op, from, to, lo);
  }

  /** Only the last command of a line writes. */
  lemma LineIsQuiet(b: Box, dx: int, d: uint32, s: uint32, i: nat)
    requires 0 <= b.x1 < b.x2 <= 2048 && 0 <= b.x1 - dx < b.x2 - dx <= 2048
    requires i + 1 < |LineProgram(b, dx, d, s)|
    ensures Quiet(LineProgram(b, dx, d, s)[i])
  {
    hide Hi, Quiet, U32;
    var ds, de := BlockStart(b.x1), BlockEnd(b.x2);
    var ss, se := BlockStart(b.x1 - dx), BlockEnd(b.x2 - dx);
    hide BlockStart, BlockEnd;
    HiIsQuiet(OP_READ, ds, ds + 64, U32(d + ds));
    HiIsQuiet(OP_READ, de - 64, de, U32(d + de - 64));
    HiIsQuiet(OP_READ_SYNC, ss + 4096, se + 4096, U32(s + ss));
    HiIsQuiet(OP_COPY, b.x1 * 2, b.x2 * 2, U32((b.x1 - dx) * 2 + 4096));
  }

  /** A part of a line's program that stops before its last command leaves the memory alone. */
  lemma PartialLine(g: Surface, l: Box, dx: int, dy: int, r: nat, e: Engine)
    requires ValidSurface(g) && Movable(g, l, dx, dy) && l.x1 < l.x2 && l.y2 == l.y1 + 1 && |e.buf| == BUFFER_SIZE
    requires r < |BoxProgram(g, l, dx, dy, 0)|
    ensures var m := Run(e, BoxProgram(g, l, dx, dy, 0)[..r]);
            m.Some? ==> m.value.mem == e.mem
  {
    hide LineProgram, Quiet, Run, BoxProgram, LineAddress;
    var y := LineNumber(l, dy, 0);
    BoxProgramLines(g, l, dx, dy, 0);
    BoxProgramLines(g, l, dx, dy, 1);
    var p := LineProgram(l, dx, LineAddress(g, y), LineAddress(g, y - dy));
    assert BoxProgram(g, l, dx, dy, 0) == p;
    forall i | 0 <= i < r
      ensures Quiet(p[..r][i])
    {
      LineIsQuiet(l, dx, LineAddress(g, y), LineAddress(g, y - dy), i);
    }
    QuietRun(e, p[..r]);
  }

  predicate SingleLines(ls: seq<Box>) {
    forall i :: 0 <= i < |ls| ==> ls[i].y2 == ls[i].y1 + 1
  }

  lemma LinesAreSingle(boxes: seq<Box>, dy: int)
    ensures SingleLines(LinesOf(boxes, dy))
  {
    hide LinesOf;
    forall i | 0 <= i < |LinesOf(boxes, dy)|
      ensures LinesOf(boxes, dy)[i].y2 == LinesOf(boxes, dy)[i].y1 + 1
    {
      var j := LineHasBox(boxes, dy, i);
    }
  }

  lemma ProgramLast(g: Surface, ls: seq<Box>, dx: int, dy: int)
    requires ValidSurface(g) && AllMovable(g, ls, dx, dy) && NoneEmpty(ls) && ls != []
    ensures var k := |ls| - 1;
            Program(g, ls, dx, dy) == Program(g, ls[..k], dx, dy) + BoxProgram(g, ls[k], dx, dy, 0)
  {
    hide BoxProgram, Movable, Program, ValidSurface;
    var k := |ls| - 1;
    assert ls == ls[..k] + [ls[k]];
    ProgramAppend(g, ls[..k], [ls[k]], dx, dy);
    ProgramOfOne(g, [ls[k]], dx, dy);
  }

  lemma ProgramOfOne(g: Surface, ls: seq<Box>, dx: int, dy: int)
    requires ValidSurface(g) && AllMovable(g, ls, dx, dy) && NoneEmpty(ls) && |ls| == 1
    ensures Program(g, ls, dx, dy) == BoxProgram(g, ls[0], dx, dy, 0)
  {
    hide BoxProgram, Movable, ValidSurface;
    assert ls[1..] == [];
    assert BoxProgram(g, ls[0], dx, dy, 0) + [] == BoxProgram(g, ls[0], dx, dy, 0);
  }

  /** How many whole lines r commands are; what remains of them is a part of the next line. */
  lemma {:induction false} WholeLines(g: Surface, ls: seq<Box>, dx: int, dy: int, r: nat) returns (n: nat, t: nat)
    requires ValidSurface(g) && AllMovable(g, ls, dx, dy) && NoneEmpty(ls) && r < |Program(g, ls, dx, dy)|
    ensures n < |ls| && t < |BoxProgram(g, ls[n], dx, dy, 0)|
    ensures Program(g, ls, dx, dy)[..r] == Program(g, ls[..n], dx, dy) + BoxProgram(g, ls[n], dx, dy, 0)[..t]
    decreases |ls|
  {
    hide BoxProgram, Movable;
    if ls == [] {
      assert false;
    } else {
      var k := |ls| - 1;
      var init := Program(g, ls[..k], dx, dy);
      ProgramLast(g, ls, dx, dy);
      hide Program;
      if r >= |init| {
        n, t := k, r - |init|;
      } else {
        n, t := WholeLines(g, ls[..k], dx, dy, r);
        assert ls[..k][..n] == ls[..n];
        assert Program(g, ls, dx, dy)[..r] == init[..r];
      }
    }
  }

  /** A program that is cut off copies its whole lines and nothing else. */
  lemma CutProgram(g: Surface, ls: seq<Box>, dx: int, dy: int, r: nat, e: Engine) returns (n: nat)
    requires ValidSurface(g) && AllMovable(g, ls, dx, dy) && NoneEmpty(ls) && SingleLines(ls) && MemoryFits(g, |e.mem|)
    requires |e.buf| == BUFFER_SIZE && e.flight.Landed? && r < |Program(g, ls, dx, dy)|
    ensures n < |ls|
    ensures var m := Run(e, Program(g, ls, dx, dy)[..r]);
            m.Some? ==> m.value.mem == CopyInTurn(g, e.mem, ls[..n], Delta(g, dx, dy))
  {
    hide Run, Program, BoxProgram, CopyInTurn, Movable, MemoryFits, Delta, Whole;
    var t;
    n, t := WholeLines(g, ls, dx, dy, r);
    var lines, part := ls[..n], BoxProgram(g, ls[n], dx, dy, 0)[..t];
    RunAppend(e, Program(g, lines, dx, dy), part);
    if SourcesReachable(lines, dx) {
      assert lines[0..] == lines;
      StartOfCopy(g, e.mem, lines, dx, dy);
      var m := ProgramEffect(g, e.mem, lines, dx, dy, 0, e);
      RunKeepsBuffer(e, Program(g, lines, dx, dy));
      PartialLine(g, ls[n], dx, dy, t, m);
    } else {
      ProgramBlocked(g, lines, dx, dy, e);
    }
  }

  lemma RunKeepsBuffer(e: Engine, p: seq<Cmd>)
    requires |e.buf| == BUFFER_SIZE
    ensures Run(e, p).Some? ==> |Run(e, p).value.buf| == BUFFER_SIZE
  {
  }

  lemma StartOfCopy(g: Surface, mem: seq<byte>, ls: seq<Box>, dx: int, dy: int)
    requires 0 < g.stride
    ensures CopyInTurn(g, mem, ls[..0], Delta(g, dx, dy)) == mem
  {
  }

  // ---------------------------------------------------------------- the main result

  lemma NoDisplacement(g: Surface, b: Box, dx: int, dy: int)
    requires ValidSurface(g) && Movable(g, b, dx, dy) && b.x1 < b.x2 && (dx != 0 || dy != 0)
    ensures Delta(g, dx, dy) != 0
  {
    if dy >= 1 {
      MulAtLeast(dy, g.stride);
    } else if dy <= -1 {
      MulAtLeast(-dy, g.stride);
      assert -dy * g.stride == -(dy * g.stride);
    }
  }

  lemma FirstByte(g: Surface, b: Box, dx: int, dy: int, size: int) returns (q: int)
    requires ValidSurface(g) && Movable(g, b, dx, dy) && b.x1 < b.x2 && b.y1 < b.y2 && MemoryFits(g, size)
    ensures q == At(g, b.y1, 2 * b.x1) && InBox(g, b, q) && 0 <= q < size && 0 <= q - Delta(g, dx, dy) < size
  {
    q := At(g, b.y1, 2 * b.x1);
    LineColumn(g, b, b.y1, 2 * b.x1);
    QInMemory(g, b, dx, dy, q, size);
  }

  lemma LineByteInBox(g: Surface, l: Box, b: Box, q: int)
    requires 0 < g.stride && LineIn(l, b) && InBox(g, l, q)
    ensures InBox(g, b, q)
  {
  }

  /** A memory on which a batch shows that it is too long: a single 1 where the last line should have come from. */
  lemma LastLineLost(g: Surface, boxes: seq<Box>, dx: int, dy: int, size: int) returns (mem: seq<byte>, buf: seq<byte>)
    requires ValidSurface(g) && AllMovable(g, boxes, dx, dy) && MemoryFits(g, size) && NoneEmpty(boxes)
    requires PairwiseDisjoint(boxes) && (dx != 0 || dy != 0) && |Program(g, boxes, dx, dy)| >= MAX_BATCH
    ensures |mem| == size && |buf| == BUFFER_SIZE && !Moves(g, boxes, dx, dy, mem, buf)
  {
    hide Run, Program, CopyInTurn, InBox, Overlap, Delta, MemoryFits, Inside, Movable, LinesOf, Origin, Whole;
    var delta, ls, p := Delta(g, dx, dy), LinesOf(boxes, dy), Program(g, boxes, dx, dy);
    LinesMovable(g, boxes, dx, dy);
    LinesAreSingle(boxes, dy);
    LinesDisjoint(boxes, dy);
    ProgramOfLines(g, boxes, dx, dy);
    ProgramOfNothing(g, dx, dy);
    var last := ls[|ls| - 1];
    NoDisplacement(g, last, dx, dy);
    var q := FirstByte(g, last, dx, dy, size);
    mem := seq(size, a => if a == q - delta then 1 else 0);
    buf := seq(BUFFER_SIZE, a => 0);
    var e := Engine(mem, buf, Landed);
    var r := |p| % MAX_BATCH;
    var n := CutProgram(g, ls, dx, dy, r, e);
    LastByteUntouched(g, ls, dx, dy, n, q, mem);
    var j := LineHasBox(boxes, dy, |ls| - 1);
    LineByteInBox(g, last, boxes[j], q);
    assert InAny(g, boxes, q);
    assert CopyBoxes(g, mem, boxes, delta)[q] == 1;
  }

  lemma ProgramOfNothing(g: Surface, dx: int, dy: int)
    requires ValidSurface(g)
    ensures Program(g, [], dx, dy) == []
  {
  }

  lemma LastByteUntouched(g: Surface, ls: seq<Box>, dx: int, dy: int, n: nat, q: int, mem: seq<byte>)
    requires ValidSurface(g) && AllMovable(g, ls, dx, dy) && MemoryFits(g, |mem|) && PairwiseDisjoint(ls)
    requires n < |ls| && InBox(g, ls[|ls| - 1], q) && 0 <= q < |mem|
    ensures CopyInTurn(g, mem, ls[..n], Delta(g, dx, dy))[q] == mem[q]
  {
    hide InBox, Overlap, MemoryFits, Delta, CopyInTurn;
    OnlyIn(g, ls, |ls| - 1, q);
    OriginSkip(g, ls[..n], Delta(g, dx, dy), q, 0);
    InTurnOrigin(g, mem, ls[..n], dx, dy, q);
  }

  /** The batch of a window move is right for every memory and buffer content exactly when no box reads what an earlier
      box has written, every source ends within the first 1984 pixels of its line, and the command counter can hold
      the number of commands. */
  lemma CopyWindowExact(g: Surface, boxes: seq<Box>, dx: int, dy: int, size: int)
    requires ValidSurface(g) && AllMovable(g, boxes, dx, dy) && MemoryFits(g, size)
    requires NoneEmpty(boxes) && PairwiseDisjoint(boxes) && (dx != 0 || dy != 0)
    ensures (forall mem: seq<byte>, buf: seq<byte> | |mem| == size && |buf| == BUFFER_SIZE :: Moves(g, boxes, dx, dy, mem, buf))
            <==> NoHazard(boxes, dx, dy) && SourcesReachable(boxes, dx) && Commands(boxes) < MAX_BATCH
  {
    hide Moves, NoHazard, SourcesReachable, Program, MemoryFits, Commands;
    ProgramLength(g, boxes, dx, dy);
    if Commands(boxes) < MAX_BATCH {
      BatchExact(g, boxes, dx, dy, size);
    } else {
      var mem, buf := LastLineLost(g, boxes, dx, dy, size);
    }
  }

  // ---------------------------------------------------------------- a region that is too long

  /** Sixteen stripes of 1024 lines. */
  function Stripes(n: nat): seq<Box> {
    seq(n, i requires 0 <= i < n => Box(64 * i, 0, 64 * i + 32, 1024))
  }

  lemma {:induction false} StripeCommands(i: nat, n: nat)
    requires i <= n
    ensures Commands(Stripes(n)[i..]) == (n - i) * 4096
    decreases n - i
  {
    if i < n {
      StripeCommands(i + 1, n);
      assert Stripes(n)[i..][1..] == Stripes(n)[i + 1..];
      StripeLength(i);
      hide LineLength, Height;
    }
  }

  lemma StripeLength(i: nat)
    ensures var b := Box(64 * i, 0, 64 * i + 32, 1024);
            LineLength(b) == 4 && Height(b) == 1024
  {
  }

  /** The batch runs and leaves the engine as it is. */
  predicate ChangesNothing(g: Surface, boxes: seq<Box>, dx: int, dy: int, e: Engine)
    requires |e.buf| == BUFFER_SIZE && ValidSurface(g) && AllMovable(g, boxes, dx, dy)
  {
    RunBatch(e, Program(g, boxes, dx, dy)) == Some(e)
  }

  lemma NothingExecuted(g: Surface, boxes: seq<Box>, dx: int, dy: int, e: Engine)
    requires |e.buf| == BUFFER_SIZE && ValidSurface(g) && AllMovable(g, boxes, dx, dy) && NoneEmpty(boxes)
    requires Commands(boxes) % MAX_BATCH == 0
    ensures ChangesNothing(g, boxes, dx, dy, e)
  {
    hide Program, Run, Commands, ValidSurface;
    ProgramLength(g, boxes, dx, dy);
    assert Program(g, boxes, dx, dy)[..0] == [];
    RunNothing(e);
  }

  /** Moved up one line they keep every other condition, but take 65536 commands: the counter is 0, nothing happens. */
  lemma LongMoveDoesNothing(g: Surface, boxes: seq<Box>, e: Engine)
    requires g == Surface(0, 4096, 1025) && boxes == Stripes(16) && |e.buf| == BUFFER_SIZE
    ensures ValidSurface(g) && AllMovable(g, boxes, 0, -1) && Banded(boxes) && NoneEmpty(boxes)
    ensures NoHazard(boxes, 0, -1) && SourcesReachable(boxes, 0)
    ensures 1025 * 4096 <= |e.mem| <= 0x4000_0000 ==> MemoryFits(g, |e.mem|)
    ensures Commands(boxes) == MAX_BATCH && ChangesNothing(g, boxes, 0, -1, e)
  {
    StripesFit();
    StripesCost();
    hide Program, Run, Commands, Stripes, NoHazard, SourcesReachable, ValidSurface, ChangesNothing, Movable, Banded, Height;
    NothingExecuted(g, boxes, 0, -1, e);
  }

  lemma StripesCost()
    ensures Commands(Stripes(16)) == MAX_BATCH && Commands(Stripes(16)) % MAX_BATCH == 0
  {
    hide Commands, Stripes;
    StripeCommands(0, 16);
    assert Stripes(16)[0..] == Stripes(16);
  }

  lemma StripesFit()
    ensures var g, boxes := Surface(0, 4096, 1025), Stripes(16);
            && ValidSurface(g) && AllMovable(g, boxes, 0, -1) && Banded(boxes) && NoneEmpty(boxes)
            && NoHazard(boxes, 0, -1) && SourcesReachable(boxes, 0)
  {
    var g, boxes := Surface(0, 4096, 1025), Stripes(16);
    assert Whole(0) && Whole(4096);
    UpLeftHasNoHazard(boxes, 0, -1);
    hide NoHazard;
  }
}
