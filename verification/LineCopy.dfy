/**
  One line of a window move: the four or five DMA commands that `FBDevCopyWindow` emits for it
  (software/buildroot/xdriver-endeavour2-fbdev/e2fbdev.c:919-956) and what they do to any memory.
 */
module LineCopy {
  import opened MachineTypes
  import opened DmaEngine
  import opened Surfaces

  /** The largest right edge a source may have: 4096 bytes below it and 64-byte blocks leave 3968 bytes. */
  const MAX_SOURCE_X := 1984

  /** The byte offset of the 64-byte block that holds pixel x of a line. */
  function BlockStart(x: int): (r: int)
    ensures Whole(r) && r <= 2 * x < r + BLOCK
  {
    x / 32 * 64
  }

  /** The byte offset just after the last block that holds a pixel left of x. */
  function BlockEnd(x: int): (r: int)
    ensures Whole(r) && r - BLOCK < 2 * x <= r
  {
    (x + 31) / 32 * 64
  }

  /** The four or five commands that copy one line of a box. */
  function LineProgram(b: Box, dx: int, dstLine: uint32, srcLine: uint32): seq<Cmd>
    requires 0 <= b.x1 < b.x2 <= 2048 && 0 <= b.x1 - dx < b.x2 - dx <= 2048
  {
    var ds, de := BlockStart(b.x1), BlockEnd(b.x2);
    EdgeReads(ds, de, dstLine)
    + MoveCommands(ds, de, BlockStart(b.x1 - dx), BlockEnd(b.x2 - dx), b.x1 * 2, b.x2 * 2, (b.x1 - dx) * 2 + 4096, dstLine, srcLine)
  }

  lemma CopyStep(e: Engine, lo: uint32, from: int, to: int)
    requires |e.buf| == BUFFER_SIZE && e.flight.Landed?
    requires 0 <= from < to <= 4096 <= lo && lo + (to - from) <= USABLE_SIZE
    ensures Step(e, Cmd(lo, Hi(OP_COPY, from, to))) == Some(e.(buf := Blit(e.buf, from, e.buf, lo, to - from)))
  {
    var c := Cmd(lo, Hi(OP_COPY, from, to));
    assert Opcode(c) == OP_COPY && From(c) == from && To(c) == to by {
      DecodeHi(OP_COPY, from, to, lo);
    }
    hide Opcode, From, To, Hi, Blit;
  }

  /** The commands that fetch the first and the last block [ds, ds+64) and [de-64, de) of a destination line. */
  function EdgeReads(ds: int, de: int, dstLine: uint32): seq<Cmd>
    requires 0 <= ds && ds + BLOCK <= de <= 4096
  {
    var left, right := Hi(OP_READ, ds, ds + 64), Hi(OP_READ, de - 64, de);
    [Cmd(U32(dstLine + ds), left)] + if left != right then [Cmd(U32(dstLine + de - 64), right)] else []
  }

  lemma SameEdge(ds: int, de: int)
    requires 0 <= ds && ds + BLOCK <= de <= 4096
    ensures Hi(OP_READ, ds, ds + 64) == Hi(OP_READ, de - 64, de) <==> ds == de - 64
  {
  }

  lemma EdgesWhole(ds: int, de: int, dstLine: int)
    requires Whole(ds) && Whole(de) && Whole(dstLine + ds)
    ensures Whole(ds + 64) && Whole(de - 64) && Whole(dstLine + de - 64)
  {
  }

  lemma EdgesRun(e: Engine, ds: int, de: int, dstLine: uint32) returns (m: Engine)
    requires e.flight.Landed? && 0 <= ds && ds + BLOCK <= de <= 4096 && Aligned(e, dstLine + ds, ds, de)
    ensures Run(e, EdgeReads(ds, de, dstLine)) == Some(m)
    ensures var b1 := Blit(e.buf, ds, e.mem, dstLine + ds, 64);
            if ds == de - 64 then m == Engine(e.mem, b1, Flight(false, dstLine + ds, ds, 64))
            else m == Engine(e.mem, Blit(b1, de - 64, e.mem, dstLine + de - 64, 64), Flight(false, dstLine + de - 64, de - 64, 64))
  {
    hide Step, Hi, Blit, Opcode, From, To, U32, Whole;
    SameEdge(ds, de);
    EdgesWhole(ds, de, dstLine);
    ReadStep(e, OP_READ, dstLine + ds, ds, ds + 64);
    var first := Cmd(dstLine + ds, Hi(OP_READ, ds, ds + 64));
    var e1 := Engine(e.mem, Blit(e.buf, ds, e.mem, dstLine + ds, 64), Flight(false, dstLine + ds, ds, 64));
    if ds == de - 64 {
      m := e1;
      RunFirst(e, first, []);
      assert [first] + [] == [first];
    } else {
      ReadStep(e1, OP_READ, dstLine + de - 64, de - 64, de);
      var second := Cmd(dstLine + de - 64, Hi(OP_READ, de - 64, de));
      m := Engine(e1.mem, Blit(e1.buf, de - 64, e.mem, dstLine + de - 64, 64), Flight(false, dstLine + de - 64, de - 64, 64));
      RunFirst(e1, second, []);
      RunFirst(e, first, [second]);
      assert [second] + [] == [second];
    }
  }

  lemma EdgesData(e: Engine, ds: int, de: int, dstLine: int, m: Engine)
    requires |e.buf| == BUFFER_SIZE && 0 <= ds && ds + BLOCK <= de <= 4096 && 0 <= dstLine + ds && dstLine + de <= |e.mem|
    requires var b1 := Blit(e.buf, ds, e.mem, dstLine + ds, 64);
            if ds == de - 64 then m == Engine(e.mem, b1, Flight(false, dstLine + ds, ds, 64))
            else m == Engine(e.mem, Blit(b1, de - 64, e.mem, dstLine + de - 64, 64), Flight(false, dstLine + de - 64, de - 64, 64))
    ensures m.mem == e.mem && |m.buf| == BUFFER_SIZE
    ensures m.flight.Flight? && !m.flight.write && 0 <= m.flight.from && m.flight.from + m.flight.len <= 4096
    ensures forall i :: ds <= i < ds + 64 || de - 64 <= i < de ==> m.buf[i] == e.mem[dstLine + i]
  {
  }

  lemma EdgesEffect(e: Engine, ds: int, de: int, dstLine: uint32) returns (m: Engine)
    requires e.flight.Landed? && 0 <= ds && ds + BLOCK <= de <= 4096 && Aligned(e, dstLine + ds, ds, de)
    ensures Run(e, EdgeReads(ds, de, dstLine)) == Some(m)
    ensures m.mem == e.mem && |m.buf| == BUFFER_SIZE
    ensures m.flight.Flight? && !m.flight.write && 0 <= m.flight.from && m.flight.from + m.flight.len <= 4096
    ensures forall i :: ds <= i < ds + 64 || de - 64 <= i < de ==> m.buf[i] == e.mem[dstLine + i]
  {
    hide Run, EdgeReads, Whole, Blit;
    m := EdgesRun(e, ds, de, dstLine);
    EdgesData(e, ds, de, dstLine, m);
  }

  /** Fetch the source blocks next to the destination, shift the pixels over, write the destination blocks. */
  function MoveCommands(ds: int, de: int, ss: int, se: int, from: int, to: int, arg: int, dstLine: uint32, srcLine: uint32): seq<Cmd>
    requires 0 <= ds < 8192 && 0 <= ss + 4096 < 8192 && 0 <= from < 8192
  {
    [Cmd(U32(srcLine + ss), Hi(OP_READ_SYNC, ss + 4096, se + 4096)),
     Cmd(U32(arg), Hi(OP_COPY, from, to)),
     Cmd(U32(dstLine + ds), Hi(OP_WRITE_SYNC, ds, de))]
  }

  lemma MoveRun(e: Engine, ds: int, de: int, ss: int, se: int, from: int, to: int, s: int, dstLine: uint32, srcLine: uint32)
    requires Aligned(e, dstLine + ds, ds, de) && de <= 4096 && Aligned(e, srcLine + ss, ss + 4096, se + 4096) && 0 <= ss
    requires e.flight.Flight? && !e.flight.write && 0 <= e.flight.from && e.flight.from + e.flight.len <= 4096
    requires ds <= from < to <= de && ss <= s && s + (to - from) <= se
    ensures var b1 := Blit(e.buf, ss + 4096, e.mem, srcLine + ss, se - ss);
            var b2 := Blit(b1, from, b1, s + 4096, to - from);
            Run(e, MoveCommands(ds, de, ss, se, from, to, s + 4096, dstLine, srcLine))
            == Some(Engine(Blit(e.mem, dstLine + ds, b2, ds, de - ds), b2, Landed))
  {
    hide Step, Hi, Blit, Opcode, From, To, U32, Whole;
    var b1 := Blit(e.buf, ss + 4096, e.mem, srcLine + ss, se - ss);
    var e1 := Engine(e.mem, b1, Landed);
    var b2 := Blit(b1, from, b1, s + 4096, to - from);
    var e2 := Engine(e.mem, b2, Landed);
    var e3 := Engine(Blit(e.mem, dstLine + ds, b2, ds, de - ds), b2, Landed);
    var c1 := Cmd(srcLine + ss, Hi(OP_READ_SYNC, ss + 4096, se + 4096));
    var c2 := Cmd(s + 4096, Hi(OP_COPY, from, to));
    var c3 := Cmd(dstLine + ds, Hi(OP_WRITE_SYNC, ds, de));
    assert Step(e, c1) == Some(e1) by { ReadStep(e, OP_READ_SYNC, srcLine + ss, ss + 4096, se + 4096); }
    assert Step(e1, c2) == Some(e2) by { CopyStep(e1, s + 4096, from, to); }
    assert Step(e2, c3) == Some(e3) by { WriteStep(e2, dstLine + ds, ds, de); }
    RunFirst(e2, c3, []);
    RunFirst(e1, c2, [c3]);
    RunFirst(e, c1, [c2, c3]);
    assert [c1] + [c2, c3] == [c1, c2, c3] && [c2] + [c3] == [c2, c3] && [c3] + [] == [c3];
  }

  lemma MoveEffect(e: Engine, ds: int, de: int, ss: int, se: int, from: int, to: int, s: int, dstLine: uint32, srcLine: uint32)
      returns (m: Engine)
    requires Aligned(e, dstLine + ds, ds, de) && de <= 4096 && Aligned(e, srcLine + ss, ss + 4096, se + 4096) && 0 <= ss
    requires e.flight.Flight? && !e.flight.write && 0 <= e.flight.from && e.flight.from + e.flight.len <= 4096
    requires ds <= from < to <= de && ss <= s && s + (to - from) <= se
    requires forall i :: ds <= i < from || to <= i < de ==> e.buf[i] == e.mem[dstLine + i]
    ensures Run(e, MoveCommands(ds, de, ss, se, from, to, s + 4096, dstLine, srcLine)) == Some(m)
    ensures m.flight.Landed? && |m.buf| == BUFFER_SIZE
    ensures m.mem == Blit(e.mem, dstLine + from, e.mem, srcLine + s, to - from)
  {
    MoveRun(e, ds, de, ss, se, from, to, s, dstLine, srcLine);
    var b1 := Blit(e.buf, ss + 4096, e.mem, srcLine + ss, se - ss);
    var b2 := Blit(b1, from, b1, s + 4096, to - from);
    m := Engine(Blit(e.mem, dstLine + ds, b2, ds, de - ds), b2, Landed);
    hide Run, MoveCommands, Aligned;
  }

  lemma BlocksAround(x1: int, x2: int)
    requires x1 < x2
    ensures Whole(BlockStart(x1)) && Whole(BlockEnd(x2)) && BlockStart(x1) + BLOCK <= BlockEnd(x2)
  {
  }

  lemma WholeSum(x: int, y: int)
    requires Whole(x) && Whole(y)
    ensures Whole(x + y)
  {
  }

  lemma BlocksBelow(x: int, limit: int)
    requires 2 * x <= limit && Whole(limit)
    ensures BlockEnd(x) <= limit
  {
  }

  predicate LineFits(b: Box, dx: int, dstLine: int, srcLine: int, size: int) {
    && 0 <= b.x1 < b.x2 <= 2048 && 0 <= b.x1 - dx && b.x2 - dx <= MAX_SOURCE_X
    && 0 <= dstLine && Whole(dstLine) && dstLine + BlockEnd(b.x2) <= size
    && 0 <= srcLine && Whole(srcLine) && srcLine + BlockEnd(b.x2 - dx) <= size
    && size <= 0x4000_0000
  }

  /** One line: exactly the pixels of the box change, and they take the bytes of the source line. */
  lemma LineEffect(e: Engine, b: Box, dx: int, dstLine: uint32, srcLine: uint32) returns (m: Engine)
    requires |e.buf| == BUFFER_SIZE && e.flight.Landed? && LineFits(b, dx, dstLine, srcLine, |e.mem|)
    ensures Run(e, LineProgram(b, dx, dstLine, srcLine)) == Some(m)
    ensures m.flight.Landed? && |m.buf| == BUFFER_SIZE
    ensures m.mem == Blit(e.mem, dstLine + b.x1 * 2, e.mem, srcLine + (b.x1 - dx) * 2, (b.x2 - b.x1) * 2)
  {
    hide Run, Whole, Blit, EdgeReads, MoveCommands, BlockStart, BlockEnd;
    var ds, de := BlockStart(b.x1), BlockEnd(b.x2);
    var ss, se := BlockStart(b.x1 - dx), BlockEnd(b.x2 - dx);
    BlocksAround(b.x1, b.x2);
    BlocksAround(b.x1 - dx, b.x2 - dx);
    LineLimits(b, dx);
    WholeSum(dstLine, ds);
    WholeSum(srcLine, ss);
    WholeSum(ss, 4096);
    WholeSum(se, 4096);
    var e0 := EdgesEffect(e, ds, de, dstLine);
    m := MoveEffect(e0, ds, de, ss, se, b.x1 * 2, b.x2 * 2, (b.x1 - dx) * 2, dstLine, srcLine);
    RunAppend(e, EdgeReads(ds, de, dstLine),
              MoveCommands(ds, de, ss, se, b.x1 * 2, b.x2 * 2, (b.x1 - dx) * 2 + 4096, dstLine, srcLine));
  }

  lemma LineLimits(b: Box, dx: int)
    requires 0 <= b.x1 < b.x2 <= 2048 && 0 <= b.x1 - dx && b.x2 - dx <= MAX_SOURCE_X
    ensures Whole(4096) && 0 <= BlockStart(b.x1) && BlockEnd(b.x2) <= 4096
    ensures 0 <= BlockStart(b.x1 - dx) && BlockEnd(b.x2 - dx) + 4096 <= USABLE_SIZE
  {
    BlocksBelow(b.x2, 4096);
    BlocksBelow(b.x2 - dx, 3968);
  }

  /** A source that ends beyond the usable buffer: the engine has no result. */
  lemma SourceTooFar(e: Engine, b: Box, dx: int, dstLine: uint32, srcLine: uint32)
    requires |e.buf| == BUFFER_SIZE && e.flight.Landed? && |e.mem| <= 0x4000_0000
    requires 0 <= b.x1 < b.x2 <= 2048 && 0 <= b.x1 - dx && MAX_SOURCE_X < b.x2 - dx <= 2048
    requires Whole(dstLine) && dstLine + BlockEnd(b.x2) <= |e.mem|
    ensures Run(e, LineProgram(b, dx, dstLine, srcLine)) == None
  {
    hide Whole, EdgeReads, Run, Step;
    var ds, de := BlockStart(b.x1), BlockEnd(b.x2);
    var ss, se := BlockStart(b.x1 - dx), BlockEnd(b.x2 - dx);
    BlocksAround(b.x1, b.x2);
    WholeSum(dstLine, ds);
    assert 0 <= ds && de <= 4096 && ss + 4096 < 8192;
    hide BlockStart, BlockEnd;
    var e0 := EdgesEffect(e, ds, de, dstLine);
    var c := Cmd(U32(srcLine + ss), Hi(OP_READ_SYNC, ss + 4096, se + 4096));
    StepIsMemOp(e0, OP_READ_SYNC, U32(srcLine + ss), ss + 4096, se + 4096);
    TooFar(e0, U32(srcLine + ss), b.x1 - dx, b.x2 - dx);
    var moves := MoveCommands(ds, de, ss, se, b.x1 * 2, b.x2 * 2, (b.x1 - dx) * 2 + 4096, dstLine, srcLine);
    assert moves == [c] + moves[1..];
    RunFault(e0, c, moves[1..]);
    RunAppend(e, EdgeReads(ds, de, dstLine), moves);
  }

  lemma TooFar(e: Engine, lo: uint32, x1: int, x2: int)
    requires |e.buf| == BUFFER_SIZE && 0 <= x1 < x2 && MAX_SOURCE_X < x2 <= 2048
    ensures MemOp(e, OP_READ_SYNC, lo, BlockStart(x1) + 4096, (BlockEnd(x2) + 4096) % 8192) == None
  {
    hide Blit;
  }
}
