/**
  The two code generators of the X driver, in the loops of the source: they store commands one after another
  into the command array and advance line addresses step by step modulo 2^32
  (software/buildroot/xdriver-endeavour2-fbdev/e2fbdev.c:784-801 and 913-959).
 */
module FbDriver {
  import opened MachineTypes
  import opened DmaEngine
  import opened BoxCopy
  import opened LineCopy
  import opened ShadowRefresh
  import opened Surfaces
  import opened WindowMove

  lemma StepAddress(x: int, s: int)
    ensures U32(U32(x) + U32(s)) == U32(x + s)
  {
  }

  /** Advancing a line address by `line_step` reaches the next line, up or down. */
  lemma StepLine(g: Surface, y: int, down: bool)
    ensures U32(LineAddress(g, y) + U32(if down then g.stride else -g.stride)) == LineAddress(g, if down then y + 1 else y - 1)
  {
    StepAddress(g.base + y * g.stride, if down then g.stride else -g.stride);
    assert (y + 1) * g.stride == y * g.stride + g.stride && (y - 1) * g.stride == y * g.stride - g.stride;
    hide U32;
  }

  /** The commands of one line, stored at cmds[n..]. */
  method EmitLine(b: Box, dx: int, dstLine: uint32, srcLine: uint32, cmds: array<Cmd>, n: nat) returns (next: nat)
    requires 0 <= b.x1 < b.x2 <= 2048 && 0 <= b.x1 - dx < b.x2 - dx <= 2048
    requires n + |LineProgram(b, dx, dstLine, srcLine)| <= cmds.Length
    modifies cmds
    ensures next == n + |LineProgram(b, dx, dstLine, srcLine)|
    ensures cmds[..next] == old(cmds[..n]) + LineProgram(b, dx, dstLine, srcLine)
    ensures cmds[next..] == old(cmds[next..])
  {
    hide U32, Hi, BlockStart, BlockEnd;
    BlocksAround(b.x1, b.x2);
    LineReaches(b, dx);
    var dstStart, dstEnd := BlockStart(b.x1), BlockEnd(b.x2);
    var srcStart, srcEnd := BlockStart(b.x1 - dx), BlockEnd(b.x2 - dx);
    var readL := Hi(OP_READ, dstStart, dstStart + 64);
    var readR := Hi(OP_READ, dstEnd - 64, dstEnd);
    next := n;
    cmds[next] := Cmd(U32(dstLine + dstStart), readL);
    next := next + 1;
    if readL != readR {
      cmds[next] := Cmd(U32(dstLine + dstEnd - 64), readR);
      next := next + 1;
    }
    assert cmds[..next] == old(cmds[..n]) + EdgeReads(dstStart, dstEnd, dstLine);
    cmds[next] := Cmd(U32(srcLine + srcStart), Hi(OP_READ_SYNC, srcStart + 4096, srcEnd + 4096));
    cmds[next + 1] := Cmd(U32((b.x1 - dx) * 2 + 4096), Hi(OP_COPY, b.x1 * 2, b.x2 * 2));
    cmds[next + 2] := Cmd(U32(dstLine + dstStart), Hi(OP_WRITE_SYNC, dstStart, dstEnd));
    next := next + 3;
  }

  lemma LineReaches(b: Box, dx: int)
    requires 0 <= b.x1 < b.x2 <= 2048 && 0 <= b.x1 - dx < b.x2 - dx <= 2048
    ensures 0 <= BlockStart(b.x1) && BlockEnd(b.x2) <= 4096 && 0 <= BlockStart(b.x1 - dx) < 4096
  {
  }

  method EmitBox(g: Surface, b: Box, dx: int, dy: int, cmds: array<Cmd>, n: nat) returns (next: nat)
    requires ValidSurface(g) && Movable(g, b, dx, dy) && b.x1 < b.x2
    requires n + |BoxProgram(g, b, dx, dy, 0)| <= cmds.Length
    modifies cmds
    ensures next == n + |BoxProgram(g, b, dx, dy, 0)|
    ensures cmds[..next] == old(cmds[..n]) + BoxProgram(g, b, dx, dy, 0)
    ensures cmds[next..] == old(cmds[next..])
  {
    hide U32, LineProgram, BoxProgram;
    var dstLine, srcLine, lineStep: uint32;
    if dy <= 0 {
      dstLine := LineAddress(g, b.y1);
      srcLine := LineAddress(g, b.y1 - dy);
      lineStep := U32(g.stride);
    } else {
      dstLine := LineAddress(g, b.y2 - 1);
      srcLine := LineAddress(g, b.y2 - dy - 1);
      lineStep := U32(-g.stride);
    }
    next := n;
    ghost var k := 0;
    var i := b.y1;
    while i < b.y2
      invariant 0 <= k <= Height(b) && (i < b.y2 ==> k < Height(b)) && i == b.y1 + k
      invariant i >= b.y2 ==> k == Height(b)
      invariant dstLine == LineAddress(g, LineNumber(b, dy, k)) && srcLine == LineAddress(g, LineNumber(b, dy, k) - dy)
      invariant n <= next && next + |BoxProgram(g, b, dx, dy, k)| == n + |BoxProgram(g, b, dx, dy, 0)|
      invariant cmds[..next] + BoxProgram(g, b, dx, dy, k) == old(cmds[..n]) + BoxProgram(g, b, dx, dy, 0)
      invariant cmds[n + |BoxProgram(g, b, dx, dy, 0)|..] == old(cmds[n + |BoxProgram(g, b, dx, dy, 0)|..])
    {
      BoxProgramLines(g, b, dx, dy, k);
      ghost var was := cmds[..next];
      ghost var p := next;
      next := EmitLine(b, dx, dstLine, srcLine, cmds, next);
      assert cmds[..next] + BoxProgram(g, b, dx, dy, k + 1) == was + BoxProgram(g, b, dx, dy, k);
      StepLine(g, LineNumber(b, dy, k), dy <= 0);
      StepLine(g, LineNumber(b, dy, k) - dy, dy <= 0);
      dstLine := U32(dstLine + lineStep);
      srcLine := U32(srcLine + lineStep);
      i := i + 1;
      k := k + 1;
    }
    BoxProgramLines(g, b, dx, dy, k);
  }

  /** The command list of a window move; `continue` on an empty box does not advance to the next one. */
  method FBDevCopyWindow(g: Surface, boxes: seq<Box>, dx: int, dy: int, cmds: array<Cmd>) returns (count: nat)
    requires ValidSurface(g) && AllMovable(g, boxes, dx, dy)
    requires |Program(g, boxes, dx, dy)| <= cmds.Length
    modifies cmds
    ensures count == |Program(g, boxes, dx, dy)| && cmds[..count] == Program(g, boxes, dx, dy)
    ensures cmds[count..] == old(cmds[count..])
  {
    hide BoxProgram, Movable, ValidSurface;
    count := 0;
    var nbox, p := |boxes|, 0;
    assert boxes[0..] == boxes;
    while nbox > 0
      invariant 0 <= nbox && 0 <= p <= |boxes| && (nbox == |boxes| - p || (p < |boxes| && boxes[p].x1 >= boxes[p].x2))
      invariant count + |Program(g, boxes[p..], dx, dy)| == |Program(g, boxes, dx, dy)|
      invariant cmds[..count] + Program(g, boxes[p..], dx, dy) == Program(g, boxes, dx, dy)
      invariant cmds[|Program(g, boxes, dx, dy)|..] == old(cmds[|Program(g, boxes, dx, dy)|..])
    {
      nbox := nbox - 1;
      if boxes[p].x1 >= boxes[p].x2 { continue; }
      assert boxes[p..][0] == boxes[p] && boxes[p..][1..] == boxes[p + 1..];
      ghost var was := cmds[..count];
      count := EmitBox(g, boxes[p], dx, dy, cmds, count);
      assert cmds[..count] + Program(g, boxes[p + 1..], dx, dy) == was + Program(g, boxes[p..], dx, dy);
      p := p + 1;
    }
    assert Program(g, boxes[p..], dx, dy) == [];
  }

  lemma StepStart(g: Surface, b: Box, y: int)
    ensures U32(LineStart(g, b, y) + U32(g.stride)) == LineStart(g, b, y + 1)
  {
    StepAddress(g.base + y * g.stride + BlockStart(b.x1), g.stride);
    assert (y + 1) * g.stride == y * g.stride + g.stride;
    hide U32, BlockStart;
  }

  method EmitRefresh(f: Frames, b: Box, ghost size: int, cmds: array<Cmd>, n: nat) returns (next: nat)
    requires ValidFrames(f, size) && Refreshable(f, b) && 0 <= BlockStart(b.x1) < 8192
    requires n + |BoxCommands(f, b, 0)| <= cmds.Length
    modifies cmds
    ensures next == n + |BoxCommands(f, b, 0)|
    ensures cmds[..next] == old(cmds[..n]) + BoxCommands(f, b, 0)
    ensures cmds[next..] == old(cmds[next..])
  {
    hide U32, Hi, BlockStart, BlockEnd, Whole, Inside;
    var from, to := BlockStart(b.x1), BlockEnd(b.x2);
    var cmdRead, cmdWrite := Hi(OP_READ_SYNC, from, to), Hi(OP_WRITE_SYNC, from, to);
    var src, dst := LineStart(f.shadow, b, b.y1), LineStart(f.front, b, b.y1);
    next := n;
    ghost var k := 0;
    var y := b.y1;
    while y < b.y2
      invariant 0 <= k <= Height(b) && y == b.y1 + k && (y < b.y2 ==> k < Height(b)) && (y >= b.y2 ==> k == Height(b))
      invariant src == LineStart(f.shadow, b, y) && dst == LineStart(f.front, b, y)
      invariant n <= next && next + |BoxCommands(f, b, k)| == n + |BoxCommands(f, b, 0)|
      invariant cmds[..next] + BoxCommands(f, b, k) == old(cmds[..n]) + BoxCommands(f, b, 0)
      invariant cmds[n + |BoxCommands(f, b, 0)|..] == old(cmds[n + |BoxCommands(f, b, 0)|..])
    {
      ghost var was := cmds[..next];
      cmds[next] := Cmd(src, cmdRead);
      cmds[next + 1] := Cmd(dst, cmdWrite);
      StepStart(f.shadow, b, y);
      StepStart(f.front, b, y);
      src := U32(src + f.shadow.stride);
      dst := U32(dst + f.front.stride);
      next := next + 2;
      assert cmds[..next] + BoxCommands(f, b, k + 1) == was + BoxCommands(f, b, k);
      y := y + 1;
      k := k + 1;
    }
  }

  /** The command list that refreshes every damaged box. */
  method FbdevUpdatePacked(f: Frames, boxes: seq<Box>, ghost size: int, cmds: array<Cmd>) returns (count: nat)
    requires ValidFrames(f, size) && AllRefreshable(f, boxes)
    requires |RefreshProgram(f, boxes, size)| <= cmds.Length
    modifies cmds
    ensures count == |RefreshProgram(f, boxes, size)| && cmds[..count] == RefreshProgram(f, boxes, size)
    ensures cmds[count..] == old(cmds[count..])
  {
    hide BoxCommands, Whole, Refreshable, BlockStart;
    count := 0;
    var nbox, p := |boxes|, 0;
    assert boxes[0..] == boxes;
    while nbox > 0
      invariant 0 <= nbox && nbox == |boxes| - p && 0 <= p
      invariant count + |RefreshProgram(f, boxes[p..], size)| == |RefreshProgram(f, boxes, size)|
      invariant cmds[..count] + RefreshProgram(f, boxes[p..], size) == RefreshProgram(f, boxes, size)
      invariant cmds[|RefreshProgram(f, boxes, size)|..] == old(cmds[|RefreshProgram(f, boxes, size)|..])
    {
      nbox := nbox - 1;
      HullFits(f, boxes[p], size);
      assert boxes[p..][0] == boxes[p] && boxes[p..][1..] == boxes[p + 1..];
      ghost var was := cmds[..count];
      count := EmitRefresh(f, boxes[p], size, cmds, count);
      assert cmds[..count] + RefreshProgram(f, boxes[p + 1..], size) == was + RefreshProgram(f, boxes[p..], size);
      p := p + 1;
    }
  }
}
