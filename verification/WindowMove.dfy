/**
  Moving a window: `FBDevCopyWindow` (software/buildroot/xdriver-endeavour2-fbdev/e2fbdev.c:913-961) compiles
  the boxes of a region, one after another.  The result is the simultaneous copy of all of them for every
  memory content exactly when no box reads pixels that an earlier one has written.
 */
module WindowMove {
  import opened MachineTypes
  import opened DmaEngine
  import opened Arithmetic
  import opened BoxCopy
  import opened LineCopy
  import opened Surfaces

  predicate AllMovable(g: Surface, boxes: seq<Box>, dx: int, dy: int) {
    forall i :: 0 <= i < |boxes| ==> Movable(g, boxes[i], dx, dy)
  }

  /** An empty box is skipped without advancing past it, so it hides every later box as well. */
  function Program(g: Surface, boxes: seq<Box>, dx: int, dy: int): seq<Cmd>
    requires ValidSurface(g) && AllMovable(g, boxes, dx, dy)
    decreases |boxes|
  {
    if boxes == [] || boxes[0].x1 >= boxes[0].x2 then []
    else BoxProgram(g, boxes[0], dx, dy, 0) + Program(g, boxes[1..], dx, dy)
  }

  /** The boxes copied one after another: the last one last. */
  function CopyInTurn(g: Surface, mem: seq<byte>, boxes: seq<Box>, delta: int): (r: seq<byte>)
    requires 0 < g.stride
    ensures |r| == |mem|
    decreases |boxes|
  {
    if boxes == [] then mem
    else CopyBox(g, CopyInTurn(g, mem, boxes[..|boxes| - 1], delta), boxes[|boxes| - 1], delta)
  }

  predicate NoneEmpty(boxes: seq<Box>) {
    forall i :: 0 <= i < |boxes| ==> boxes[i].x1 < boxes[i].x2
  }

  predicate SourcesReachable(boxes: seq<Box>, dx: int) {
    forall i :: 0 <= i < |boxes| && Height(boxes[i]) > 0 ==> boxes[i].x2 - dx <= MAX_SOURCE_X
  }

  lemma OneBoxMore(g: Surface, mem: seq<byte>, boxes: seq<Box>, dx: int, dy: int, k: nat, e: Engine) returns (m: Engine)
    requires ValidSurface(g) && AllMovable(g, boxes, dx, dy) && MemoryFits(g, |mem|) && k < |boxes|
    requires NoneEmpty(boxes) && SourcesReachable(boxes, dx)
    requires |e.buf| == BUFFER_SIZE && e.flight.Landed? && e.mem == CopyInTurn(g, mem, boxes[..k], Delta(g, dx, dy))
    ensures Run(e, BoxProgram(g, boxes[k], dx, dy, 0)) == Some(m)
    ensures |m.buf| == BUFFER_SIZE && m.flight.Landed? && m.mem == CopyInTurn(g, mem, boxes[..k + 1], Delta(g, dx, dy))
  {
    hide Run, BoxProgram, CopyBox, Delta, MemoryFits, ValidSurface, Height;
    assert boxes[..k + 1][..k] == boxes[..k] && boxes[..k + 1][k] == boxes[k];
    m := WholeBoxEffect(g, boxes[k], dx, dy, e);
  }

  lemma ProgramHead(g: Surface, boxes: seq<Box>, dx: int, dy: int, k: nat)
    requires ValidSurface(g) && AllMovable(g, boxes, dx, dy) && NoneEmpty(boxes) && k < |boxes|
    ensures Program(g, boxes[k..], dx, dy) == BoxProgram(g, boxes[k], dx, dy, 0) + Program(g, boxes[k + 1..], dx, dy)
  {
    hide BoxProgram, ValidSurface;
    assert boxes[k..][1..] == boxes[k + 1..] && boxes[k..][0] == boxes[k];
  }

  lemma {:induction false} ProgramEffect(g: Surface, mem: seq<byte>, boxes: seq<Box>, dx: int, dy: int, k: nat, e: Engine)
      returns (m: Engine)
    requires ValidSurface(g) && AllMovable(g, boxes, dx, dy) && MemoryFits(g, |mem|) && k <= |boxes|
    requires NoneEmpty(boxes) && SourcesReachable(boxes, dx)
    requires |e.buf| == BUFFER_SIZE && e.flight.Landed? && e.mem == CopyInTurn(g, mem, boxes[..k], Delta(g, dx, dy))
    ensures Run(e, Program(g, boxes[k..], dx, dy)) == Some(m)
    ensures m.mem == CopyInTurn(g, mem, boxes, Delta(g, dx, dy))
    decreases |boxes| - k
  {
    if k == |boxes| {
      m := e;
      assert boxes[..k] == boxes;
    } else {
      hide Run, BoxProgram, Program, CopyInTurn, Delta, MemoryFits, ValidSurface, Height;
      var e1 := OneBoxMore(g, mem, boxes, dx, dy, k, e);
      m := ProgramEffect(g, mem, boxes, dx, dy, k + 1, e1);
      ProgramHead(g, boxes, dx, dy, k);
      RunAppend(e, BoxProgram(g, boxes[k], dx, dy, 0), Program(g, boxes[k + 1..], dx, dy));
    }
  }

  // ---------------------------------------------------------------- when copying in turn is copying at once

  function Min(x: int, y: int): int { if x < y then x else y }

  predicate Overlap(p: Box, q: Box) {
    Max(p.x1, q.x1) < Min(p.x2, q.x2) && Max(p.y1, q.y1) < Min(p.y2, q.y2)
  }

  predicate PairwiseDisjoint(boxes: seq<Box>) {
    forall i, j :: 0 <= i < j < |boxes| ==> !Overlap(boxes[i], boxes[j])
  }

  /** No box reads pixels that an earlier box has written. */
  predicate NoHazard(boxes: seq<Box>, dx: int, dy: int) {
    forall i, j :: 0 <= i < j < |boxes| ==> !Overlap(boxes[i], Translate(boxes[j], -dx, -dy))
  }

  lemma CommonByte(g: Surface, p: Box, q: Box, a: int)
    requires 0 < g.stride && Inside(g, p) && Inside(g, q) && InBox(g, p, a) && InBox(g, q, a)
    ensures Overlap(p, q)
  {
    var y, c := InBoxPosition(g, p, a);
    LineColumn(g, q, y, c);
  }

  lemma OverlapByte(g: Surface, p: Box, q: Box) returns (a: int)
    requires ValidSurface(g) && Inside(g, p) && Inside(g, q) && Overlap(p, q)
    ensures InBox(g, p, a) && InBox(g, q, a)
  {
    var y, c := Max(p.y1, q.y1), 2 * Max(p.x1, q.x1);
    a := At(g, y, c);
    LineColumn(g, p, y, c);
    LineColumn(g, q, y, c);
  }

  lemma SourceOnSurface(g: Surface, b: Box, dx: int, dy: int, a: int)
    requires ValidSurface(g) && Movable(g, b, dx, dy) && InBox(g, b, a)
    ensures g.base <= a - Delta(g, dx, dy) < g.base + g.height * g.stride
  {
    SourceInBox(g, b, dx, dy, a);
    InSurface(g, Translate(b, -dx, -dy), a - Delta(g, dx, dy));
  }

  lemma InAnyLast(g: Surface, boxes: seq<Box>, a: int)
    requires 0 < g.stride && boxes != []
    ensures InAny(g, boxes, a) <==> InAny(g, boxes[..|boxes| - 1], a) || InBox(g, boxes[|boxes| - 1], a)
  {
    hide InBox;
    var n := |boxes| - 1;
    if InAny(g, boxes[..n], a) {
      var i :| 0 <= i < n && InBox(g, boxes[..n][i], a);
      assert InBox(g, boxes[i], a);
    }
    if InAny(g, boxes, a) && !InBox(g, boxes[n], a) {
      var i :| 0 <= i < |boxes| && InBox(g, boxes[i], a);
      assert InBox(g, boxes[..n][i], a);
    }
  }

  lemma SourceUntouched(g: Surface, boxes: seq<Box>, dx: int, dy: int, a: int)
    requires ValidSurface(g) && AllMovable(g, boxes, dx, dy) && NoHazard(boxes, dx, dy)
    requires boxes != [] && InBox(g, boxes[|boxes| - 1], a)
    ensures !InAny(g, boxes[..|boxes| - 1], a - Delta(g, dx, dy))
  {
    hide InBox;
    var n := |boxes| - 1;
    SourceInBox(g, boxes[n], dx, dy, a);
    if InAny(g, boxes[..n], a - Delta(g, dx, dy)) {
      var i :| 0 <= i < n && InBox(g, boxes[..n][i], a - Delta(g, dx, dy));
      CommonByte(g, boxes[i], Translate(boxes[n], -dx, -dy), a - Delta(g, dx, dy));
    }
  }

  lemma {:induction false} InTurnIsAtOnce(g: Surface, mem: seq<byte>, boxes: seq<Box>, dx: int, dy: int)
    requires ValidSurface(g) && AllMovable(g, boxes, dx, dy) && MemoryFits(g, |mem|) && NoHazard(boxes, dx, dy)
    ensures CopyInTurn(g, mem, boxes, Delta(g, dx, dy)) == CopyBoxes(g, mem, boxes, Delta(g, dx, dy))
    decreases |boxes|
  {
    hide InBox, InAny, Delta, Overlap, Inside;
    var delta := Delta(g, dx, dy);
    if boxes == [] {
      NothingInNone(g, mem, delta);
    } else {
      var init, last := boxes[..|boxes| - 1], boxes[|boxes| - 1];
      InTurnIsAtOnce(g, mem, init, dx, dy);
      forall a | 0 <= a < |mem|
        ensures CopyInTurn(g, mem, boxes, delta)[a] == CopyBoxes(g, mem, boxes, delta)[a]
      {
        InAnyLast(g, boxes, a);
        if InBox(g, last, a) {
          SourceOnSurface(g, last, dx, dy, a);
          SourceUntouched(g, boxes, dx, dy, a);
        }
      }
    }
  }

  lemma NothingInNone(g: Surface, mem: seq<byte>, delta: int)
    requires 0 < g.stride
    ensures CopyBoxes(g, mem, [], delta) == mem
  {
  }

  // ---------------------------------------------------------------- where a byte comes from

  /** The address whose old value byte a holds after the boxes have been copied in turn. */
  function Origin(g: Surface, boxes: seq<Box>, delta: int, a: int): int
    requires 0 < g.stride
    decreases |boxes|
  {
    if boxes == [] then a
    else
      var n := |boxes| - 1;
      Origin(g, boxes[..n], delta, if InBox(g, boxes[n], a) then a - delta else a)
  }

  lemma {:induction false} InTurnOrigin(g: Surface, mem: seq<byte>, boxes: seq<Box>, dx: int, dy: int, a: int)
    requires ValidSurface(g) && AllMovable(g, boxes, dx, dy) && MemoryFits(g, |mem|) && 0 <= a < |mem|
    ensures var o := Origin(g, boxes, Delta(g, dx, dy), a);
            0 <= o < |mem| && CopyInTurn(g, mem, boxes, Delta(g, dx, dy))[a] == mem[o]
    decreases |boxes|
  {
    hide InBox, Delta, Inside;
    if boxes != [] {
      var n := |boxes| - 1;
      if InBox(g, boxes[n], a) {
        SourceOnSurface(g, boxes[n], dx, dy, a);
        InTurnOrigin(g, mem, boxes[..n], dx, dy, a - Delta(g, dx, dy));
      } else {
        InTurnOrigin(g, mem, boxes[..n], dx, dy, a);
      }
    }
  }

  /** Every copy moves a byte the same way, so its origin lies on one side of it. */
  lemma {:induction false} OriginSide(g: Surface, boxes: seq<Box>, delta: int, a: int)
    requires 0 < g.stride
    ensures delta >= 0 ==> Origin(g, boxes, delta, a) <= a
    ensures delta <= 0 ==> Origin(g, boxes, delta, a) >= a
    decreases |boxes|
  {
    hide InBox;
    if boxes != [] {
      var n := |boxes| - 1;
      OriginSide(g, boxes[..n], delta, if InBox(g, boxes[n], a) then a - delta else a);
    }
  }

  /** Boxes after the k-th that do not hold the byte do not matter. */
  lemma {:induction false} OriginSkip(g: Surface, boxes: seq<Box>, delta: int, a: int, k: nat)
    requires 0 < g.stride && k <= |boxes| && forall i :: k <= i < |boxes| ==> !InBox(g, boxes[i], a)
    ensures Origin(g, boxes, delta, a) == Origin(g, boxes[..k], delta, a)
    decreases |boxes|
  {
    hide InBox;
    if k < |boxes| {
      var n := |boxes| - 1;
      assert boxes[..n][..k] == boxes[..k];
      OriginSkip(g, boxes[..n], delta, a, k);
    } else {
      assert boxes[..k] == boxes;
    }
  }

  lemma OnlyIn(g: Surface, boxes: seq<Box>, i: nat, a: int)
    requires 0 < g.stride && i < |boxes| && (forall k :: 0 <= k < |boxes| ==> Inside(g, boxes[k]))
    requires PairwiseDisjoint(boxes) && InBox(g, boxes[i], a)
    ensures forall k :: 0 <= k < |boxes| && k != i ==> !InBox(g, boxes[k], a)
  {
    hide InBox, Overlap, Inside;
    forall k | 0 <= k < |boxes| && k != i
      ensures !InBox(g, boxes[k], a)
    {
      if InBox(g, boxes[k], a) {
        if k < i {
          CommonByte(g, boxes[k], boxes[i], a);
        } else {
          CommonByte(g, boxes[i], boxes[k], a);
        }
      }
    }
  }

  /** A byte copied out of a box that an earlier box has written does not come from where it should. */
  lemma HazardOrigin(g: Surface, boxes: seq<Box>, dx: int, dy: int, i: nat, j: nat) returns (q: int)
    requires ValidSurface(g) && AllMovable(g, boxes, dx, dy) && PairwiseDisjoint(boxes)
    requires i < j < |boxes| && Overlap(boxes[i], Translate(boxes[j], -dx, -dy))
    ensures InBox(g, boxes[j], q) && Origin(g, boxes, Delta(g, dx, dy), q) != q - Delta(g, dx, dy)
  {
    hide InBox, Overlap, Inside, Delta;
    var delta := Delta(g, dx, dy);
    var p := OverlapByte(g, boxes[i], Translate(boxes[j], -dx, -dy));
    q := p + delta;
    SourceInBox(g, boxes[j], dx, dy, q);
    OnlyIn(g, boxes, j, q);
    OnlyIn(g, boxes, i, p);
    OriginSkip(g, boxes, delta, q, j + 1);
    assert boxes[..j + 1][..j] == boxes[..j];
    OriginSkip(g, boxes[..j], delta, p, i + 1);
    assert boxes[..j][..i + 1] == boxes[..i + 1] && boxes[..i + 1][..i] == boxes[..i];
    OriginSide(g, boxes[..i], delta, p - delta);
    assert delta != 0;
  }

  // ---------------------------------------------------------------- sources that the buffer cannot hold

  lemma BoxBlocked(g: Surface, b: Box, dx: int, dy: int, e: Engine)
    requires ValidSurface(g) && Movable(g, b, dx, dy) && b.x1 < b.x2 && MemoryFits(g, |e.mem|)
    requires Height(b) > 0 && b.x2 - dx > MAX_SOURCE_X && |e.buf| == BUFFER_SIZE && e.flight.Landed?
    ensures Run(e, BoxProgram(g, b, dx, dy, 0)) == None
  {
    hide Run, BoxProgram, LineProgram, BlockEnd;
    BoxProgramLines(g, b, dx, dy, 0);
    var y := LineNumber(b, dy, 0);
    LineBounds(y, g.height, g.stride);
    BlocksBelow(b.x2, g.stride);
    WholeLine(g, y);
    SourceTooFar(e, b, dx, LineAddress(g, y), LineAddress(g, y - dy));
    RunAppend(e, LineProgram(b, dx, LineAddress(g, y), LineAddress(g, y - dy)), BoxProgram(g, b, dx, dy, 1));
  }

  lemma {:induction false} ProgramBlocked(g: Surface, boxes: seq<Box>, dx: int, dy: int, e: Engine)
    requires ValidSurface(g) && AllMovable(g, boxes, dx, dy) && MemoryFits(g, |e.mem|)
    requires NoneEmpty(boxes) && !SourcesReachable(boxes, dx) && |e.buf| == BUFFER_SIZE && e.flight.Landed?
    ensures Run(e, Program(g, boxes, dx, dy)) == None
    decreases |boxes|
  {
    hide Run, BoxProgram, Movable, CopyBox, MemoryFits;
    if boxes == [] {
      assert false;
    } else {
      RunAppend(e, BoxProgram(g, boxes[0], dx, dy, 0), Program(g, boxes[1..], dx, dy));
      if Height(boxes[0]) > 0 && boxes[0].x2 - dx > MAX_SOURCE_X {
        BoxBlocked(g, boxes[0], dx, dy, e);
      } else {
        var e1 := WholeBoxEffect(g, boxes[0], dx, dy, e);
        ProgramBlocked(g, boxes[1..], dx, dy, e1);
      }
    }
  }

  // ---------------------------------------------------------------- the main results

  predicate Moves(g: Surface, boxes: seq<Box>, dx: int, dy: int, mem: seq<byte>, buf: seq<byte>)
    requires ValidSurface(g) && AllMovable(g, boxes, dx, dy) && |buf| == BUFFER_SIZE
  {
    var r := RunBatch(Engine(mem, buf, Landed), Program(g, boxes, dx, dy));
    r.Some? && r.value.mem == CopyBoxes(g, mem, boxes, Delta(g, dx, dy))
  }

  lemma MovesWhenNoHazard(g: Surface, boxes: seq<Box>, dx: int, dy: int, mem: seq<byte>, buf: seq<byte>)
    requires ValidSurface(g) && AllMovable(g, boxes, dx, dy) && MemoryFits(g, |mem|) && |buf| == BUFFER_SIZE
    requires NoneEmpty(boxes) && |Program(g, boxes, dx, dy)| < MAX_BATCH
    requires NoHazard(boxes, dx, dy) && SourcesReachable(boxes, dx)
    ensures Moves(g, boxes, dx, dy, mem, buf)
  {
    hide Run, Program, CopyBox, CopyBoxes, NoHazard, MemoryFits;
    var e := Engine(mem, buf, Landed);
    var p := Program(g, boxes, dx, dy);
    assert p[..|p| % MAX_BATCH] == p && boxes[0..] == boxes && boxes[..0] == [];
    var m := ProgramEffect(g, mem, boxes, dx, dy, 0, e);
    InTurnIsAtOnce(g, mem, boxes, dx, dy);
  }

  /** A memory on which a hazard shows: a single 1 where the byte should have come from. */
  lemma HazardShows(g: Surface, boxes: seq<Box>, dx: int, dy: int, size: int) returns (mem: seq<byte>, buf: seq<byte>)
    requires ValidSurface(g) && AllMovable(g, boxes, dx, dy) && MemoryFits(g, size)
    requires NoneEmpty(boxes) && |Program(g, boxes, dx, dy)| < MAX_BATCH && PairwiseDisjoint(boxes)
    requires SourcesReachable(boxes, dx) && !NoHazard(boxes, dx, dy)
    ensures |mem| == size && |buf| == BUFFER_SIZE && !Moves(g, boxes, dx, dy, mem, buf)
  {
    hide Run, Program, CopyBox, InBox, Overlap, Delta, MemoryFits, Inside;
    var delta := Delta(g, dx, dy);
    var i, j :| 0 <= i < j < |boxes| && Overlap(boxes[i], Translate(boxes[j], -dx, -dy));
    var q := HazardOrigin(g, boxes, dx, dy, i, j);
    QInMemory(g, boxes[j], dx, dy, q, size);
    mem := seq(size, a => if a == q - delta then 1 else 0);
    buf := seq(BUFFER_SIZE, a => 0);
    var p := Program(g, boxes, dx, dy);
    assert p[..|p| % MAX_BATCH] == p && boxes[0..] == boxes && boxes[..0] == [];
    var m := ProgramEffect(g, mem, boxes, dx, dy, 0, Engine(mem, buf, Landed));
    InTurnOrigin(g, mem, boxes, dx, dy, q);
    assert m.mem[q] == 0;
    assert InAny(g, boxes, q);
    assert CopyBoxes(g, mem, boxes, delta)[q] == 1;
  }

  lemma QInMemory(g: Surface, b: Box, dx: int, dy: int, q: int, size: int)
    requires ValidSurface(g) && Movable(g, b, dx, dy) && MemoryFits(g, size) && InBox(g, b, q)
    ensures 0 <= size && 0 <= q < size && 0 <= q - Delta(g, dx, dy) < size
  {
    InSurface(g, b, q);
    SourceOnSurface(g, b, dx, dy, q);
  }

  lemma BlockedNeverMoves(g: Surface, boxes: seq<Box>, dx: int, dy: int, mem: seq<byte>, buf: seq<byte>)
    requires ValidSurface(g) && AllMovable(g, boxes, dx, dy) && MemoryFits(g, |mem|) && |buf| == BUFFER_SIZE
    requires NoneEmpty(boxes) && |Program(g, boxes, dx, dy)| < MAX_BATCH && !SourcesReachable(boxes, dx)
    ensures !Moves(g, boxes, dx, dy, mem, buf)
  {
    hide Run, Program, CopyBoxes, SourcesReachable;
    var p := Program(g, boxes, dx, dy);
    assert p[..|p| % MAX_BATCH] == p;
    ProgramBlocked(g, boxes, dx, dy, Engine(mem, buf, Landed));
  }

  /** The batch moves the window right for every memory and buffer content exactly when no box reads what an
      earlier box has written and every source ends within the first 1984 pixels of its line. */
  lemma BatchExact(g: Surface, boxes: seq<Box>, dx: int, dy: int, size: int)
    requires ValidSurface(g) && AllMovable(g, boxes, dx, dy) && MemoryFits(g, size)
    requires NoneEmpty(boxes) && PairwiseDisjoint(boxes) && |Program(g, boxes, dx, dy)| < MAX_BATCH
    ensures (forall mem: seq<byte>, buf: seq<byte> | |mem| == size && |buf| == BUFFER_SIZE :: Moves(g, boxes, dx, dy, mem, buf))
            <==> NoHazard(boxes, dx, dy) && SourcesReachable(boxes, dx)
  {
    hide Moves, NoHazard, SourcesReachable, Program, MemoryFits;
    if NoHazard(boxes, dx, dy) && SourcesReachable(boxes, dx) {
      forall mem: seq<byte>, buf: seq<byte> | |mem| == size && |buf| == BUFFER_SIZE
        ensures Moves(g, boxes, dx, dy, mem, buf)
      {
        MovesWhenNoHazard(g, boxes, dx, dy, mem, buf);
      }
    } else if SourcesReachable(boxes, dx) {
      var mem, buf := HazardShows(g, boxes, dx, dy, size);
    } else {
      assert 0 <= size by { SizeNotNegative(g, size); }
      var mem: seq<byte>, buf: seq<byte> := seq(size, a => 0), seq(BUFFER_SIZE, a => 0);
      BlockedNeverMoves(g, boxes, dx, dy, mem, buf);
    }
  }

  lemma SizeNotNegative(g: Surface, size: int)
    requires ValidSurface(g) && MemoryFits(g, size)
    ensures 0 <= size
  {
  }

  /** One box may move anywhere, however source and destination overlap. */
  lemma OneBoxHasNoHazard(b: Box, dx: int, dy: int)
    ensures NoHazard([b], dx, dy)
  {
  }

  /** The order of an X region: bands from top to bottom, within a band from left to right. */
  predicate Banded(boxes: seq<Box>) {
    forall i, j :: 0 <= i < j < |boxes| ==>
      || boxes[i].y2 <= boxes[j].y1
      || (boxes[i].y1 == boxes[j].y1 && boxes[i].y2 == boxes[j].y2 && boxes[i].x2 <= boxes[j].x1)
  }

  /** Moving a region up and to the left never reads what was written, and a region's boxes are disjoint. */
  lemma UpLeftHasNoHazard(boxes: seq<Box>, dx: int, dy: int)
    requires Banded(boxes) && dx <= 0 && dy <= 0
    ensures NoHazard(boxes, dx, dy) && PairwiseDisjoint(boxes)
  {
  }

  /** Moving down is different: two bands, one line down, and the second band copies the first one's new content. */
  lemma DownGoesWrong() returns (g: Surface, boxes: seq<Box>, mem: seq<byte>, buf: seq<byte>)
    ensures Banded(boxes) && NoneEmpty(boxes) && |boxes| == 2 && |buf| == BUFFER_SIZE
    ensures ValidSurface(g) && AllMovable(g, boxes, 0, 1) && MemoryFits(g, |mem|)
    ensures PairwiseDisjoint(boxes) && SourcesReachable(boxes, 0) && |Program(g, boxes, 0, 1)| < MAX_BATCH
    ensures !Moves(g, boxes, 0, 1, mem, buf)
  {
    hide Program, CopyBoxes, Moves, Whole;
    g := Surface(0, 4096, 3);
    assert Whole(0) && Whole(4096) by { WholeNumbers(); }
    var upper, lower := Box(0, 1, 64, 2), Box(0, 2, 32, 3);
    boxes := [upper, lower];
    UpLeftHasNoHazard(boxes, 0, 0);
    assert Overlap(boxes[0], Translate(boxes[1], 0, -1));
    ProgramLength(g, boxes, 0, 1);
    assert boxes[1..] == [lower] && [lower][1..] == [];
    assert Commands([lower]) == 4 && Commands(boxes) == 9;
    mem, buf := HazardShows(g, boxes, 0, 1, 3 * 4096);
  }

  lemma WholeNumbers()
    ensures Whole(0) && Whole(4096)
  {
  }

  function LineLength(b: Box): int {
    if BlockStart(b.x1) == BlockEnd(b.x2) - 64 then 4 else 5
  }

  function Commands(boxes: seq<Box>): int {
    if boxes == [] then 0 else Height(boxes[0]) * LineLength(boxes[0]) + Commands(boxes[1..])
  }

  /** How many commands a list of boxes costs; the engine counts them in 16 bits. */
  lemma {:induction false} ProgramLength(g: Surface, boxes: seq<Box>, dx: int, dy: int)
    requires ValidSurface(g) && AllMovable(g, boxes, dx, dy) && NoneEmpty(boxes)
    ensures |Program(g, boxes, dx, dy)| == Commands(boxes)
    decreases |boxes|
  {
    if boxes != [] {
      BoxLength(g, boxes[0], dx, dy, 0);
      ProgramLength(g, boxes[1..], dx, dy);
    }
  }

  lemma {:induction false} BoxLength(g: Surface, b: Box, dx: int, dy: int, k: nat)
    requires ValidSurface(g) && Movable(g, b, dx, dy) && b.x1 < b.x2 && k <= Height(b)
    ensures |BoxProgram(g, b, dx, dy, k)| == (Height(b) - k) * LineLength(b)
    decreases Height(b) - k
  {
    hide LineProgram, BoxProgram;
    BoxProgramLines(g, b, dx, dy, k);
    if k < Height(b) {
      var y := LineNumber(b, dy, k);
      OneLineLength(b, dx, LineAddress(g, y), LineAddress(g, y - dy));
      BoxLength(g, b, dx, dy, k + 1);
      assert (Height(b) - k) * LineLength(b) == (Height(b) - k - 1) * LineLength(b) + LineLength(b);
    }
  }

  lemma OneLineLength(b: Box, dx: int, d: uint32, s: uint32)
    requires 0 <= b.x1 < b.x2 <= 2048 && 0 <= b.x1 - dx < b.x2 - dx <= 2048
    ensures |LineProgram(b, dx, d, s)| == LineLength(b)
  {
    BlocksAround(b.x1, b.x2);
    SameEdge(BlockStart(b.x1), BlockEnd(b.x2));
    hide BlockStart, BlockEnd, Hi;
  }

  /** An empty box is skipped without advancing, so nothing after it is copied. */
  lemma {:induction false} EmptyBoxHidesRest(g: Surface, boxes: seq<Box>, dx: int, dy: int, i: nat)
    requires ValidSurface(g) && AllMovable(g, boxes, dx, dy)
    requires i < |boxes| && boxes[i].x1 >= boxes[i].x2
    ensures Program(g, boxes, dx, dy) == Program(g, boxes[..i], dx, dy)
    decreases |boxes|
  {
    hide BoxProgram;
    if i > 0 && boxes[0].x1 < boxes[0].x2 {
      assert boxes[..i][1..] == boxes[1..][..i - 1];
      EmptyBoxHidesRest(g, boxes[1..], dx, dy, i - 1);
    }
  }
}
