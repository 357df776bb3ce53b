/**
  One box of a window move (software/buildroot/xdriver-endeavour2-fbdev/e2fbdev.c:918-957): its lines are
  copied downwards when the window moves up and upwards when it moves down, so that the box is copied as a
  whole even where source and destination overlap.
 */
module BoxCopy {
  import opened MachineTypes
  import opened DmaEngine
  import opened Arithmetic
  import opened LineCopy
  import opened Surfaces

  function Height(b: Box): nat {
    if b.y1 < b.y2 then b.y2 - b.y1 else 0
  }

  /** The k-th line that is copied: downwards when moving up, upwards when moving down. */
  function LineNumber(b: Box, dy: int, k: int): int {
    if dy <= 0 then b.y1 + k else b.y2 - 1 - k
  }

  function LineAddress(g: Surface, y: int): uint32 {
    U32(g.base + y * g.stride)
  }

  function BoxProgram(g: Surface, b: Box, dx: int, dy: int, k: nat): seq<Cmd>
    requires ValidSurface(g) && Movable(g, b, dx, dy) && b.x1 < b.x2 && k <= Height(b)
    decreases Height(b) - k
  {
    if k == Height(b) then []
    else
      var y := LineNumber(b, dy, k);
      LineProgram(b, dx, LineAddress(g, y), LineAddress(g, y - dy)) + BoxProgram(g, b, dx, dy, k + 1)
  }

  /** The part of the box copied after k lines. */
  function Done(b: Box, dy: int, k: int): Box {
    if dy <= 0 then b.(y2 := b.y1 + k) else b.(y1 := b.y2 - k)
  }

  /** Which bytes the k-th line adds to the finished part, and that its source bytes are still the old ones. */
  lemma LineExtendsBox(g: Surface, b: Box, dx: int, dy: int, k: nat, y: int, dst: int, a: int)
    requires ValidSurface(g) && Movable(g, b, dx, dy) && b.x1 < b.x2 && k < Height(b)
    requires y == LineNumber(b, dy, k) && dst == At(g, y, 2 * b.x1)
    ensures dst <= a < dst + 2 * (b.x2 - b.x1) ==>
              InBox(g, Done(b, dy, k + 1), a) && !InBox(g, Done(b, dy, k), a - Delta(g, dx, dy))
    ensures !(dst <= a < dst + 2 * (b.x2 - b.x1)) ==>
              (InBox(g, Done(b, dy, k + 1), a) <==> InBox(g, Done(b, dy, k), a))
  {
    hide InBox;
    var before, after := Done(b, dy, k), Done(b, dy, k + 1);
    if dst <= a < dst + 2 * (b.x2 - b.x1) {
      var c := 2 * b.x1 + a - dst;
      Moved(g, y, c, dx, dy);
      LineColumn(g, after, y, c);
      LineColumn(g, before, y - dy, c - 2 * dx);
    } else if InBox(g, after, a) {
      var y', c := InBoxPosition(g, after, a);
      LineColumn(g, before, y', c);
    } else if InBox(g, before, a) {
      var y', c := InBoxPosition(g, before, a);
      LineColumn(g, after, y', c);
    }
  }

  predicate MemoryFits(g: Surface, size: int) {
    g.base + g.height * g.stride <= size <= 0x4000_0000
  }

  lemma LineAddresses(g: Surface, b: Box, dx: int, dy: int, k: nat, size: int)
    requires ValidSurface(g) && Movable(g, b, dx, dy) && b.x1 < b.x2 && k < Height(b) && MemoryFits(g, size)
    requires b.x2 - dx <= MAX_SOURCE_X
    ensures var y := LineNumber(b, dy, k);
            && LineAddress(g, y) == At(g, y, 0) && LineAddress(g, y - dy) == At(g, y - dy, 0)
            && LineFits(b, dx, At(g, y, 0), At(g, y - dy, 0), size)
  {
    var y := LineNumber(b, dy, k);
    LineBounds(y, g.height, g.stride);
    LineBounds(y - dy, g.height, g.stride);
    BlocksBelow(b.x2, g.stride);
    BlocksBelow(b.x2 - dx, g.stride);
    WholeLine(g, y);
    WholeLine(g, y - dy);
    hide BlockEnd, BlockStart, Whole;
  }

  lemma {:induction false} WholeLine(g: Surface, y: int)
    requires ValidSurface(g) && 0 <= y
    ensures Whole(At(g, y, 0))
    decreases y
  {
    if y > 0 {
      WholeLine(g, y - 1);
      assert (y - 1) * g.stride + g.stride == y * g.stride;
      WholeSum(At(g, y - 1, 0), g.stride);
      hide Whole;
    }
  }

  lemma LineExtends(g: Surface, mem: seq<byte>, b: Box, dx: int, dy: int, k: nat, y: int, dst: int, src: int,
                    before: seq<byte>, after: seq<byte>)
    requires ValidSurface(g) && Movable(g, b, dx, dy) && b.x1 < b.x2 && k < Height(b)
    requires y == LineNumber(b, dy, k) && dst == At(g, y, 2 * b.x1) && src == At(g, y - dy, 2 * (b.x1 - dx))
    requires var n := 2 * (b.x2 - b.x1);
             && 0 <= dst && dst + n <= |mem| && 0 <= src && src + n <= |mem| == |before|
             && after == Blit(before, dst, before, src, n)
    requires before == CopyBox(g, mem, Done(b, dy, k), Delta(g, dx, dy))
    ensures after == CopyBox(g, mem, Done(b, dy, k + 1), Delta(g, dx, dy))
  {
    hide InBox;
    Moved(g, y, 2 * b.x1, dx, dy);
    forall a | 0 <= a < |mem|
      ensures after[a] == CopyBox(g, mem, Done(b, dy, k + 1), Delta(g, dx, dy))[a]
    {
      LineExtendsBox(g, b, dx, dy, k, y, dst, a);
      hide At, Delta, Done;
    }
  }

  predicate Copying(g: Surface, mem: seq<byte>, b: Box, dx: int, dy: int, k: int, e: Engine)
    requires 0 < g.stride
  {
    |e.buf| == BUFFER_SIZE && e.flight.Landed? && e.mem == CopyBox(g, mem, Done(b, dy, k), Delta(g, dx, dy))
  }

  lemma NextLine(g: Surface, mem: seq<byte>, b: Box, dx: int, dy: int, k: nat, e: Engine, y: int, d: uint32, s: uint32)
      returns (m: Engine)
    requires ValidSurface(g) && Movable(g, b, dx, dy) && b.x1 < b.x2 && k < Height(b) && MemoryFits(g, |mem|)
    requires b.x2 - dx <= MAX_SOURCE_X && Copying(g, mem, b, dx, dy, k, e)
    requires y == LineNumber(b, dy, k) && d == LineAddress(g, y) && s == LineAddress(g, y - dy)
    ensures Run(e, LineProgram(b, dx, d, s)) == Some(m) && Copying(g, mem, b, dx, dy, k + 1, m)
  {
    hide LineProgram, Blit, CopyBox, Whole, Run, LineAddress, InBox, BlockEnd;
    LineAddresses(g, b, dx, dy, k, |mem|);
    m := LineEffect(e, b, dx, d, s);
    AtColumn(g, y, 2 * b.x1);
    AtColumn(g, y - dy, 2 * (b.x1 - dx));
    LineExtends(g, mem, b, dx, dy, k, y, d + b.x1 * 2, s + (b.x1 - dx) * 2, e.mem, m.mem);
  }

  /** The lines still to be copied complete the box, whatever part of it has been copied already. */
  lemma {:induction false} BoxEffect(g: Surface, mem: seq<byte>, b: Box, dx: int, dy: int, k: nat, e: Engine) returns (m: Engine)
    requires ValidSurface(g) && Movable(g, b, dx, dy) && b.x1 < b.x2 && k <= Height(b) && MemoryFits(g, |mem|)
    requires Height(b) > 0 ==> b.x2 - dx <= MAX_SOURCE_X
    requires Copying(g, mem, b, dx, dy, k, e)
    ensures Run(e, BoxProgram(g, b, dx, dy, k)) == Some(m) && Copying(g, mem, b, dx, dy, Height(b), m)
    decreases Height(b) - k
  {
    hide Run, BoxProgram, LineProgram, CopyBox, LineAddress, LineNumber, MemoryFits, Delta;
    BoxProgramLines(g, b, dx, dy, k);
    if k == Height(b) {
      m := e;
      RunNothing(e);
    } else {
      var y := LineNumber(b, dy, k);
      var d, s := LineAddress(g, y), LineAddress(g, y - dy);
      var e1 := NextLine(g, mem, b, dx, dy, k, e, y, d, s);
      RunAppend(e, LineProgram(b, dx, d, s), BoxProgram(g, b, dx, dy, k + 1));
      m := BoxEffect(g, mem, b, dx, dy, k + 1, e1);
    }
  }

  lemma BoxProgramLines(g: Surface, b: Box, dx: int, dy: int, k: nat)
    requires ValidSurface(g) && Movable(g, b, dx, dy) && b.x1 < b.x2 && k <= Height(b)
    ensures k == Height(b) ==> BoxProgram(g, b, dx, dy, k) == []
    ensures k < Height(b) ==>
              var y := LineNumber(b, dy, k);
              BoxProgram(g, b, dx, dy, k)
              == LineProgram(b, dx, LineAddress(g, y), LineAddress(g, y - dy)) + BoxProgram(g, b, dx, dy, k + 1)
  {
    hide LineProgram, LineAddress, LineNumber;
  }

  lemma AtColumn(g: Surface, y: int, c: int)
    ensures At(g, y, c) == At(g, y, 0) + c
  {
  }

  /** Running the program of one box is the simultaneous copy of that box. */
  lemma WholeBoxEffect(g: Surface, b: Box, dx: int, dy: int, e: Engine) returns (m: Engine)
    requires ValidSurface(g) && Movable(g, b, dx, dy) && b.x1 < b.x2 && MemoryFits(g, |e.mem|)
    requires Height(b) > 0 ==> b.x2 - dx <= MAX_SOURCE_X
    requires |e.buf| == BUFFER_SIZE && e.flight.Landed?
    ensures Run(e, BoxProgram(g, b, dx, dy, 0)) == Some(m)
    ensures |m.buf| == BUFFER_SIZE && m.flight.Landed?
    ensures m.mem == CopyBox(g, e.mem, b, Delta(g, dx, dy))
  {
    assert e.mem == CopyBox(g, e.mem, Done(b, dy, 0), Delta(g, dx, dy));
    m := BoxEffect(g, e.mem, b, dx, dy, 0, e);
    hide Run, BoxProgram;
  }
}
