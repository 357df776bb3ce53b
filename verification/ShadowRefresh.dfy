/**
  Refreshing the visible frame from the shadow frame: the DMA program of `fbdevUpdatePacked`
  (software/buildroot/xdriver-endeavour2-fbdev/e2fbdev.c:784-803) for a list of damaged boxes.
 */
module ShadowRefresh {
  import opened MachineTypes
  import opened DmaEngine
  import opened Arithmetic
  import opened BoxCopy
  import opened LineCopy
  import opened Surfaces

  /** Both frames, in one memory, one after the other. */
  datatype Frames = Frames(front: Surface, shadow: Surface)

  predicate ValidFrames(f: Frames, size: int) {
    && ValidSurface(f.front) && ValidSurface(f.shadow) && f.front.height == f.shadow.height
    && f.front.base + f.front.height * f.front.stride <= f.shadow.base
    && MemoryFits(f.shadow, size)
  }

  /** A damaged box: on both frames, and not wider than the DMA buffer. */
  predicate Refreshable(f: Frames, b: Box) {
    Inside(f.front, b) && Inside(f.shadow, b) && b.x1 < b.x2
  }

  predicate AllRefreshable(f: Frames, boxes: seq<Box>) {
    forall i :: 0 <= i < |boxes| ==> Refreshable(f, boxes[i])
  }

  /** The box rounded outwards to 32-pixel columns. */
  function Hull(b: Box): Box {
    b.(x1 := BlockStart(b.x1) / 2, x2 := BlockEnd(b.x2) / 2)
  }

  function LineCommands(b: Box, src: uint32, dst: uint32): seq<Cmd>
    requires 0 <= BlockStart(b.x1) < 8192
  {
    var from, to := BlockStart(b.x1), BlockEnd(b.x2);
    [Cmd(src, Hi(OP_READ_SYNC, from, to)), Cmd(dst, Hi(OP_WRITE_SYNC, from, to))]
  }

  function LineStart(g: Surface, b: Box, y: int): uint32 {
    U32(g.base + y * g.stride + BlockStart(b.x1))
  }

  function BoxCommands(f: Frames, b: Box, k: nat): seq<Cmd>
    requires k <= Height(b) && 0 <= BlockStart(b.x1) < 8192
    decreases Height(b) - k
  {
    if k == Height(b) then []
    else LineCommands(b, LineStart(f.shadow, b, b.y1 + k), LineStart(f.front, b, b.y1 + k)) + BoxCommands(f, b, k + 1)
  }

  lemma HullFits(f: Frames, b: Box, size: int)
    requires ValidFrames(f, size) && Refreshable(f, b)
    ensures 0 <= BlockStart(b.x1) <= BlockEnd(b.x2) <= 4096
    ensures BlockEnd(b.x2) <= f.front.stride && BlockEnd(b.x2) <= f.shadow.stride
    ensures Hull(b).x1 * 2 == BlockStart(b.x1) && Hull(b).x2 * 2 == BlockEnd(b.x2)
  {
    BlocksBelow(b.x2, f.front.stride);
    BlocksBelow(b.x2, f.shadow.stride);
  }

  function RefreshProgram(f: Frames, boxes: seq<Box>, ghost size: int): seq<Cmd>
    requires ValidFrames(f, size) && AllRefreshable(f, boxes)
  {
    if boxes == [] then []
    else
      HullFits(f, boxes[0], size);
      BoxCommands(f, boxes[0], 0) + RefreshProgram(f, boxes[1..], size)
  }

  // ---------------------------------------------------------------- the meaning

  /** The address of the shadow pixel that belongs to an address of the front frame. */
  function ShadowOf(f: Frames, a: int): int
    requires 0 < f.front.stride
  {
    At(f.shadow, (a - f.front.base) / f.front.stride, (a - f.front.base) % f.front.stride)
  }

  function HullCopied(f: Frames, mem: seq<byte>, b: Box): (r: seq<byte>)
    requires 0 < f.front.stride
    ensures |r| == |mem|
  {
    seq(|mem|, a requires 0 <= a < |mem| =>
      if InBox(f.front, Hull(b), a) && 0 <= ShadowOf(f, a) < |mem| then mem[ShadowOf(f, a)] else mem[a])
  }

  predicate InHulls(f: Frames, boxes: seq<Box>, a: int)
    requires 0 < f.front.stride
  {
    exists i :: 0 <= i < |boxes| && InBox(f.front, Hull(boxes[i]), a)
  }

  /** The specification: every byte of the front frame under a hull takes its shadow byte, nothing else changes. */
  function Refreshed(f: Frames, mem: seq<byte>, boxes: seq<Box>): (r: seq<byte>)
    requires 0 < f.front.stride
    ensures |r| == |mem|
  {
    seq(|mem|, a requires 0 <= a < |mem| =>
      if InHulls(f, boxes, a) && 0 <= ShadowOf(f, a) < |mem| then mem[ShadowOf(f, a)] else mem[a])
  }

  lemma ShadowAddress(f: Frames, b: Box, a: int, size: int)
    requires ValidFrames(f, size) && Refreshable(f, b) && InBox(f.front, Hull(b), a)
    ensures a < f.shadow.base <= ShadowOf(f, a) < size
  {
    HullFits(f, b, size);
    InSurface(f.front, Hull(b), a);
    var y, c := InBoxPosition(f.front, Hull(b), a);
    DivUnique(a - f.front.base, f.front.stride, y, c);
    LineBounds(y, f.shadow.height, f.shadow.stride);
  }

  // ---------------------------------------------------------------- one box

  function Refreshing(b: Box, k: int): Box { b.(y2 := b.y1 + k) }

  lemma LineRefresh(e: Engine, from: int, to: int, src: uint32, dst: uint32) returns (m: Engine)
    requires e.flight.Landed? && Aligned(e, src, from, to) && Aligned(e, dst, from, to)
    ensures Run(e, [Cmd(src, Hi(OP_READ_SYNC, from, to)), Cmd(dst, Hi(OP_WRITE_SYNC, from, to))]) == Some(m)
    ensures |m.buf| == BUFFER_SIZE && m.flight.Landed? && m.mem == Blit(e.mem, dst, e.mem, src, to - from)
  {
    hide Step, Hi, Opcode, From, To, U32, Whole;
    var c1, c2 := Cmd(src, Hi(OP_READ_SYNC, from, to)), Cmd(dst, Hi(OP_WRITE_SYNC, from, to));
    var e1 := Engine(e.mem, Blit(e.buf, from, e.mem, src, to - from), Landed);
    assert Step(e, c1) == Some(e1) by { ReadStep(e, OP_READ_SYNC, src, from, to); }
    m := Engine(Blit(e1.mem, dst, e1.buf, from, to - from), e1.buf, Landed);
    assert Step(e1, c2) == Some(m) by { WriteStep(e1, dst, from, to); }
    RunFirst(e1, c2, []);
    RunFirst(e, c1, [c2]);
    assert [c1] + [c2] == [c1, c2] && [c2] + [] == [c2];
    RunNothing(m);
    BlitThrough(e.mem, e.buf, from, to - from, src, dst);
  }

  lemma BlitThrough(mem: seq<byte>, buf: seq<byte>, from: int, n: int, src: int, dst: int)
    requires 0 <= from && 0 <= n && from + n <= |buf| && 0 <= src && src + n <= |mem| && 0 <= dst && dst + n <= |mem|
    ensures Blit(mem, dst, Blit(buf, from, mem, src, n), from, n) == Blit(mem, dst, mem, src, n)
  {
  }

  lemma LineAligned(f: Frames, b: Box, y: int, e: Engine)
    requires ValidFrames(f, |e.mem|) && Refreshable(f, b) && b.y1 <= y < b.y2 && |e.buf| == BUFFER_SIZE
    ensures 0 <= BlockStart(b.x1) <= BlockEnd(b.x2) <= 4096
    ensures LineStart(f.shadow, b, y) == At(f.shadow, y, BlockStart(b.x1))
    ensures LineStart(f.front, b, y) == At(f.front, y, BlockStart(b.x1))
    ensures Aligned(e, At(f.shadow, y, BlockStart(b.x1)), BlockStart(b.x1), BlockEnd(b.x2))
    ensures Aligned(e, At(f.front, y, BlockStart(b.x1)), BlockStart(b.x1), BlockEnd(b.x2))
  {
    hide BlockStart, BlockEnd, Whole;
    HullFits(f, b, |e.mem|);
    LineBounds(y, f.shadow.height, f.shadow.stride);
    LineBounds(y, f.front.height, f.front.stride);
    WholeLine(f.shadow, y);
    WholeLine(f.front, y);
    WholeSum(At(f.shadow, y, 0), BlockStart(b.x1));
    WholeSum(At(f.front, y, 0), BlockStart(b.x1));
  }

  lemma LineExtendsHull(f: Frames, b: Box, k: nat, y: int, d: int, a: int, size: int)
    requires ValidFrames(f, size) && Refreshable(f, b) && k < Height(b) && y == b.y1 + k
    requires d == At(f.front, y, BlockStart(b.x1))
    ensures d <= a < d + (BlockEnd(b.x2) - BlockStart(b.x1)) ==>
              && InBox(f.front, Hull(Refreshing(b, k + 1)), a)
              && ShadowOf(f, a) == At(f.shadow, y, BlockStart(b.x1)) + a - d
              && !InBox(f.front, Hull(Refreshing(b, k)), ShadowOf(f, a))
    ensures !(d <= a < d + (BlockEnd(b.x2) - BlockStart(b.x1))) ==>
              (InBox(f.front, Hull(Refreshing(b, k + 1)), a) <==> InBox(f.front, Hull(Refreshing(b, k)), a))
  {
    hide InBox, BlockStart, BlockEnd;
    HullFits(f, b, size);
    var before, after := Hull(Refreshing(b, k)), Hull(Refreshing(b, k + 1));
    if d <= a < d + (BlockEnd(b.x2) - BlockStart(b.x1)) {
      var c := BlockStart(b.x1) + a - d;
      LineColumn(f.front, after, y, c);
      DivUnique(y * f.front.stride + c, f.front.stride, y, c);
      LineBounds(y, f.shadow.height, f.shadow.stride);
      if InBox(f.front, before, ShadowOf(f, a)) {
        InSurface(f.front, before, ShadowOf(f, a));
      }
    } else if InBox(f.front, after, a) {
      var y', c := InBoxPosition(f.front, after, a);
      LineColumn(f.front, before, y', c);
    } else if InBox(f.front, before, a) {
      var y', c := InBoxPosition(f.front, before, a);
      LineColumn(f.front, after, y', c);
    }
  }

  predicate Progress(f: Frames, mem: seq<byte>, b: Box, k: int, e: Engine)
    requires 0 < f.front.stride
  {
    |e.buf| == BUFFER_SIZE && e.flight.Landed? && e.mem == HullCopied(f, mem, Refreshing(b, k))
  }

  lemma NextLineRefresh(f: Frames, mem: seq<byte>, b: Box, k: nat, y: int, e: Engine) returns (m: Engine)
    requires ValidFrames(f, |mem|) && Refreshable(f, b) && k < Height(b) && y == b.y1 + k && Progress(f, mem, b, k, e)
    requires 0 <= BlockStart(b.x1) < 8192
    ensures Run(e, LineCommands(b, LineStart(f.shadow, b, y), LineStart(f.front, b, y))) == Some(m)
    ensures Progress(f, mem, b, k + 1, m)
  {
    hide Run, InBox, Whole, BlockStart, BlockEnd, LineStart, ShadowOf, Inside, Hi, Aligned, At;
    var from, to := BlockStart(b.x1), BlockEnd(b.x2);
    LineAligned(f, b, y, e);
    var s, d := LineStart(f.shadow, b, y), LineStart(f.front, b, y);
    assert 0 <= d && d + (to - from) <= |mem| && 0 <= s && s + (to - from) <= |mem| by {
      AlignedBounds(e, s, from, to);
      AlignedBounds(e, d, from, to);
    }
    m := LineRefresh(e, from, to, s, d);
    forall a | 0 <= a < |mem|
      ensures m.mem[a] == HullCopied(f, mem, Refreshing(b, k + 1))[a]
    {
      LineExtendsHull(f, b, k, y, d, a, |mem|);
    }
  }

  lemma AlignedBounds(e: Engine, lo: int, from: int, to: int)
    requires Aligned(e, lo, from, to)
    ensures 0 <= lo && lo + (to - from) <= |e.mem|
  {
  }

  lemma {:induction false} BoxRefresh(f: Frames, mem: seq<byte>, b: Box, k: nat, e: Engine) returns (m: Engine)
    requires ValidFrames(f, |mem|) && Refreshable(f, b) && k <= Height(b) && Progress(f, mem, b, k, e)
    requires 0 <= BlockStart(b.x1) < 8192
    ensures Run(e, BoxCommands(f, b, k)) == Some(m) && Progress(f, mem, b, Height(b), m)
    decreases Height(b) - k
  {
    hide Run, HullCopied, Whole, Inside, BlockStart, BlockEnd, LineStart, LineCommands;
    if k == Height(b) {
      m := e;
      RunNothing(e);
    } else {
      var y := b.y1 + k;
      var e1 := NextLineRefresh(f, mem, b, k, y, e);
      RunAppend(e, LineCommands(b, LineStart(f.shadow, b, y), LineStart(f.front, b, y)), BoxCommands(f, b, k + 1));
      m := BoxRefresh(f, mem, b, k + 1, e1);
    }
  }

  lemma WholeBoxRefresh(f: Frames, b: Box, e: Engine) returns (m: Engine)
    requires ValidFrames(f, |e.mem|) && Refreshable(f, b) && |e.buf| == BUFFER_SIZE && e.flight.Landed?
    requires 0 <= BlockStart(b.x1) < 8192
    ensures Run(e, BoxCommands(f, b, 0)) == Some(m)
    ensures |m.buf| == BUFFER_SIZE && m.flight.Landed? && m.mem == HullCopied(f, e.mem, b)
  {
    assert HullCopied(f, e.mem, Refreshing(b, 0)) == e.mem;
    hide Run, BoxCommands, Whole;
    m := BoxRefresh(f, e.mem, b, 0, e);
    SameHull(f, e.mem, b);
  }

  lemma SameHull(f: Frames, mem: seq<byte>, b: Box)
    requires 0 < f.front.stride
    ensures HullCopied(f, mem, Refreshing(b, Height(b))) == HullCopied(f, mem, b)
  {
  }

  // ---------------------------------------------------------------- all boxes

  lemma {:induction false} RefreshEffect(f: Frames, mem: seq<byte>, boxes: seq<Box>, k: nat, e: Engine) returns (m: Engine)
    requires ValidFrames(f, |mem|) && AllRefreshable(f, boxes) && k <= |boxes|
    requires |e.buf| == BUFFER_SIZE && e.flight.Landed? && e.mem == Refreshed(f, mem, boxes[..k])
    ensures Run(e, RefreshProgram(f, boxes[k..], |mem|)) == Some(m)
    ensures m.mem == Refreshed(f, mem, boxes)
    decreases |boxes| - k
  {
    hide Run, BoxCommands, Refreshed, HullCopied, Whole, Refreshable, BlockStart;
    if k == |boxes| {
      m := e;
      RunNothing(e);
      assert boxes[..k] == boxes;
    } else {
      assert boxes[k..][1..] == boxes[k + 1..] && boxes[k..][0] == boxes[k];
      HullFits(f, boxes[k], |mem|);
      var e1 := WholeBoxRefresh(f, boxes[k], e);
      NextHull(f, mem, boxes, k);
      RunAppend(e, BoxCommands(f, boxes[k], 0), RefreshProgram(f, boxes[k + 1..], |mem|));
      m := RefreshEffect(f, mem, boxes, k + 1, e1);
    }
  }

  lemma NextHull(f: Frames, mem: seq<byte>, boxes: seq<Box>, k: nat)
    requires ValidFrames(f, |mem|) && AllRefreshable(f, boxes) && k < |boxes|
    ensures HullCopied(f, Refreshed(f, mem, boxes[..k]), boxes[k]) == Refreshed(f, mem, boxes[..k + 1])
  {
    hide InBox, ShadowOf, Whole, Inside, BlockStart, BlockEnd;
    var before := Refreshed(f, mem, boxes[..k]);
    forall a | 0 <= a < |mem|
      ensures HullCopied(f, before, boxes[k])[a] == Refreshed(f, mem, boxes[..k + 1])[a]
    {
      HullsGrow(f, boxes, k, a);
      if InBox(f.front, Hull(boxes[k]), a) {
        ShadowAddress(f, boxes[k], a, |mem|);
        ShadowNotInHulls(f, boxes[..k], ShadowOf(f, a), |mem|);
      }
    }
  }

  lemma HullsGrow(f: Frames, boxes: seq<Box>, k: nat, a: int)
    requires 0 < f.front.stride && k < |boxes|
    ensures InHulls(f, boxes[..k + 1], a) <==> InHulls(f, boxes[..k], a) || InBox(f.front, Hull(boxes[k]), a)
  {
    hide InBox, BlockStart, BlockEnd;
    if InHulls(f, boxes[..k], a) {
      var i :| 0 <= i < k && InBox(f.front, Hull(boxes[..k][i]), a);
      assert InBox(f.front, Hull(boxes[..k + 1][i]), a);
    }
    if InBox(f.front, Hull(boxes[k]), a) {
      assert InBox(f.front, Hull(boxes[..k + 1][k]), a);
    }
    if InHulls(f, boxes[..k + 1], a) && !InBox(f.front, Hull(boxes[k]), a) {
      var i :| 0 <= i < k + 1 && InBox(f.front, Hull(boxes[..k + 1][i]), a);
      assert InBox(f.front, Hull(boxes[..k][i]), a);
    }
  }

  lemma ShadowNotInHulls(f: Frames, boxes: seq<Box>, a: int, size: int)
    requires ValidFrames(f, size) && AllRefreshable(f, boxes) && f.shadow.base <= a
    ensures !InHulls(f, boxes, a)
  {
    hide InBox, Whole, BlockStart, BlockEnd;
    if InHulls(f, boxes, a) {
      var i :| 0 <= i < |boxes| && InBox(f.front, Hull(boxes[i]), a);
      HullFits(f, boxes[i], size);
      InSurface(f.front, Hull(boxes[i]), a);
    }
  }

  // ---------------------------------------------------------------- the main results

  predicate Refreshes(f: Frames, boxes: seq<Box>, mem: seq<byte>, buf: seq<byte>)
    requires ValidFrames(f, |mem|) && AllRefreshable(f, boxes) && |buf| == BUFFER_SIZE
  {
    var r := RunBatch(Engine(mem, buf, Landed), RefreshProgram(f, boxes, |mem|));
    r.Some? && r.value.mem == Refreshed(f, mem, boxes)
  }

  /** The program of a damage list refreshes exactly the hulls of its boxes, whatever their order or overlap. */
  lemma BatchRefreshes(f: Frames, boxes: seq<Box>, mem: seq<byte>, buf: seq<byte>)
    requires ValidFrames(f, |mem|) && AllRefreshable(f, boxes) && |buf| == BUFFER_SIZE
    requires |RefreshProgram(f, boxes, |mem|)| < MAX_BATCH
    ensures Refreshes(f, boxes, mem, buf)
  {
    hide Run, RefreshProgram, Refreshed, Whole;
    var p := RefreshProgram(f, boxes, |mem|);
    assert p[..|p| % MAX_BATCH] == p && boxes[0..] == boxes && boxes[..0] == [];
    NothingDamaged(f, mem);
    var m := RefreshEffect(f, mem, boxes, 0, Engine(mem, buf, Landed));
  }

  lemma NothingDamaged(f: Frames, mem: seq<byte>)
    requires 0 < f.front.stride
    ensures Refreshed(f, mem, []) == mem
  {
  }

  /** Pixel byte c of line y shows the same in both frames. */
  predicate InStep(f: Frames, mem: seq<byte>, y: int, c: int) {
    && 0 <= At(f.front, y, c) < |mem| && 0 <= At(f.shadow, y, c) < |mem|
    && mem[At(f.front, y, c)] == mem[At(f.shadow, y, c)]
  }

  predicate Damaged(boxes: seq<Box>, y: int, c: int) {
    exists i :: 0 <= i < |boxes| && boxes[i].y1 <= y < boxes[i].y2 && 2 * boxes[i].x1 <= c < 2 * boxes[i].x2
  }

  /** If the frames agree outside the damage before the refresh, they agree everywhere after it. */
  lemma RefreshKeepsInStep(f: Frames, boxes: seq<Box>, mem: seq<byte>, y: int, c: int)
    requires ValidFrames(f, |mem|) && AllRefreshable(f, boxes)
    requires 0 <= y < f.front.height && 0 <= c < f.front.stride && c < f.shadow.stride
    requires !Damaged(boxes, y, c) ==> InStep(f, mem, y, c)
    ensures InStep(f, Refreshed(f, mem, boxes), y, c)
  {
    hide InBox, BlockStart, BlockEnd, ShadowOf;
    var a, s := At(f.front, y, c), At(f.shadow, y, c);
    LineBounds(y, f.front.height, f.front.stride);
    LineBounds(y, f.shadow.height, f.shadow.stride);
    ShadowNotInHulls(f, boxes, s, |mem|);
    ShadowOfAt(f, y, c);
    if Damaged(boxes, y, c) {
      var i :| 0 <= i < |boxes| && boxes[i].y1 <= y < boxes[i].y2 && 2 * boxes[i].x1 <= c < 2 * boxes[i].x2;
      HullFits(f, boxes[i], |mem|);
      LineColumn(f.front, Hull(boxes[i]), y, c);
      assert InHulls(f, boxes, a);
    }
  }

  lemma ShadowOfAt(f: Frames, y: int, c: int)
    requires 0 <= c < f.front.stride
    ensures ShadowOf(f, At(f.front, y, c)) == At(f.shadow, y, c)
  {
    DivUnique(y * f.front.stride + c, f.front.stride, y, c);
  }
}
