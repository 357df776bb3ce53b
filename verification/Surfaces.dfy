/** Boxes of 16-bit pixels on a byte-addressed surface: which byte belongs to which box. */
module Surfaces {
  import opened MachineTypes
  import opened DmaEngine
  import opened Arithmetic

  /** Pixels x1 <= x < x2, y1 <= y < y2. */
  datatype Box = Box(x1: int, y1: int, x2: int, y2: int)

  /** `height` lines of `stride` bytes, two bytes a pixel. */
  datatype Surface = Surface(base: int, stride: int, height: int)

  predicate ValidSurface(g: Surface) {
    && 0 <= g.base && Whole(g.base)
    && 0 < g.stride <= 4096 && Whole(g.stride)
    && 0 <= g.height && g.base + g.height * g.stride <= 0x4000_0000
  }

  predicate Inside(g: Surface, b: Box) {
    0 <= b.x1 && b.x2 * 2 <= g.stride && 0 <= b.y1 && b.y2 <= g.height
  }

  function Translate(b: Box, dx: int, dy: int): Box {
    Box(b.x1 + dx, b.y1 + dy, b.x2 + dx, b.y2 + dy)
  }

  /** A destination box of the move by (dx, dy): it and its source lie on the surface. */
  predicate Movable(g: Surface, b: Box, dx: int, dy: int) {
    Inside(g, b) && Inside(g, Translate(b, -dx, -dy))
  }

  predicate InBox(g: Surface, b: Box, a: int)
    requires 0 < g.stride
  {
    var o := a - g.base;
    o >= 0 && b.y1 <= o / g.stride < b.y2 && b.x1 * 2 <= o % g.stride < b.x2 * 2
  }

  function Delta(g: Surface, dx: int, dy: int): int { dy * g.stride + 2 * dx }

  predicate InAny(g: Surface, boxes: seq<Box>, a: int)
    requires 0 < g.stride
  {
    exists i :: 0 <= i < |boxes| && InBox(g, boxes[i], a)
  }

  /** The specification: every byte of every box takes the OLD value of the byte it comes from. */
  function CopyBoxes(g: Surface, mem: seq<byte>, boxes: seq<Box>, delta: int): (r: seq<byte>)
    requires 0 < g.stride
  {
    seq(|mem|, a requires 0 <= a < |mem| => if InAny(g, boxes, a) && 0 <= a - delta < |mem| then mem[a - delta] else mem[a])
  }

  function CopyBox(g: Surface, mem: seq<byte>, b: Box, delta: int): (r: seq<byte>)
    requires 0 < g.stride
    ensures |r| == |mem|
  {
    seq(|mem|, a requires 0 <= a < |mem| => if InBox(g, b, a) && 0 <= a - delta < |mem| then mem[a - delta] else mem[a])
  }

  /** The byte at column c of line y. */
  function At(g: Surface, y: int, c: int): int { g.base + y * g.stride + c }

  lemma LineColumn(g: Surface, b: Box, y: int, c: int)
    requires 0 < g.stride && 0 <= c < g.stride && 0 <= y
    ensures InBox(g, b, At(g, y, c)) <==> b.y1 <= y < b.y2 && b.x1 * 2 <= c < b.x2 * 2
  {
    var o := y * g.stride + c;
    DivUnique(o, g.stride, y, c);
    LineBounds(y, y + 1, g.stride);
  }

  lemma InBoxPosition(g: Surface, b: Box, a: int) returns (y: int, c: int)
    requires 0 < g.stride && InBox(g, b, a) && Inside(g, b)
    ensures a == At(g, y, c) && b.y1 <= y < b.y2 && b.x1 * 2 <= c < b.x2 * 2 && 0 <= c < g.stride
  {
    y, c := (a - g.base) / g.stride, (a - g.base) % g.stride;
  }

  lemma Moved(g: Surface, y: int, c: int, dx: int, dy: int)
    ensures At(g, y, c) - Delta(g, dx, dy) == At(g, y - dy, c - 2 * dx)
  {
    assert (y - dy) * g.stride == y * g.stride - dy * g.stride;
  }

  /** A byte is in a box exactly when the byte it is copied from is in the source box. */
  lemma SourceInBox(g: Surface, b: Box, dx: int, dy: int, a: int)
    requires 0 < g.stride && Movable(g, b, dx, dy)
    ensures InBox(g, b, a) <==> InBox(g, Translate(b, -dx, -dy), a - Delta(g, dx, dy))
  {
    var t := Translate(b, -dx, -dy);
    var s := a - Delta(g, dx, dy);
    if InBox(g, b, a) {
      var y, c := InBoxPosition(g, b, a);
      Moved(g, y, c, dx, dy);
      LineColumn(g, t, y - dy, c - 2 * dx);
    }
    if InBox(g, t, s) {
      var y, c := InBoxPosition(g, t, s);
      Moved(g, y + dy, c + 2 * dx, dx, dy);
      LineColumn(g, b, y + dy, c + 2 * dx);
    }
  }

  lemma InSurface(g: Surface, b: Box, a: int)
    requires ValidSurface(g) && Inside(g, b) && InBox(g, b, a)
    ensures g.base <= a < g.base + g.height * g.stride
  {
    var y, c := InBoxPosition(g, b, a);
    LineBounds(y, g.height, g.stride);
  }
}
