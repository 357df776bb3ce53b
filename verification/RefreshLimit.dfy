/**
  Refreshing the visible frame with a command list of any length: the 16-bit command counter of the engine
  (rtl/src/main/scala/endeavour2/DmaController.scala:354) cuts it off after a whole number of lines
  (software/buildroot/xdriver-endeavour2-fbdev/e2fbdev.c:784-803).
 */
module RefreshLimit {
  import opened MachineTypes
  import opened DmaEngine
  import opened BoxCopy
  import opened LineCopy
  import opened Surfaces
  import opened WindowMove
  import opened ShadowRefresh
  import opened BatchLimit

  /** The damaged lines, from the top of each box down. */
  function Damage(boxes: seq<Box>): seq<Box> {
    LinesOf(boxes, 0)
  }

  lemma LinesRefreshable(f: Frames, boxes: seq<Box>)
    requires AllRefreshable(f, boxes)
    ensures AllRefreshable(f, Damage(boxes))
  {
    hide LinesOf;
    forall i | 0 <= i < |Damage(boxes)|
      ensures Refreshable(f, Damage(boxes)[i])
    {
      var j := LineHasBox(boxes, 0, i);
      assert Refreshable(f, boxes[j]);
    }
  }

  lemma CommandsOfLine(f: Frames, b: Box, k: nat)
    requires k < Height(b) && 0 <= BlockStart(b.x1) < 8192
    ensures BoxCommands(f, LineBox(b, 0, k), 0) ==
            LineCommands(b, LineStart(f.shadow, b, b.y1 + k), LineStart(f.front, b, b.y1 + k))
  {
    hide Hi, BlockStart, BlockEnd;
    var l := LineBox(b, 0, k);
    assert Height(l) == 1 && BoxCommands(f, l, 1) == [];
  }

  lemma OneMoreRow(f: Frames, b: Box, k: nat, size: int)
    requires ValidFrames(f, size) && Refreshable(f, b) && k < Height(b) && 0 <= BlockStart(b.x1) < 8192
    requires AllRefreshable(f, LinesOfBox(b, 0, k)) && AllRefreshable(f, LinesOfBox(b, 0, k + 1))
    ensures RefreshProgram(f, LinesOfBox(b, 0, k), size) ==
            LineCommands(b, LineStart(f.shadow, b, b.y1 + k), LineStart(f.front, b, b.y1 + k))
            + RefreshProgram(f, LinesOfBox(b, 0, k + 1), size)
  {
    hide BoxCommands, LineCommands, LineStart, Whole, Refreshable, BlockStart, Height;
    var ls := LinesOfBox(b, 0, k);
    assert ls[0] == LineBox(b, 0, k) && ls[1..] == LinesOfBox(b, 0, k + 1);
    CommandsOfLine(f, b, k);
  }

  lemma RowsRefreshable(f: Frames, b: Box, k: nat)
    requires Refreshable(f, b) && k <= Height(b)
    ensures AllRefreshable(f, LinesOfBox(b, 0, k))
  {
    LinesOfOneBox(b, 0, k);
  }

  lemma {:induction false} RefreshOfRows(f: Frames, b: Box, k: nat, size: int)
    requires ValidFrames(f, size) && Refreshable(f, b) && k <= Height(b) && 0 <= BlockStart(b.x1) < 8192
    ensures AllRefreshable(f, LinesOfBox(b, 0, k))
    ensures RefreshProgram(f, LinesOfBox(b, 0, k), size) == BoxCommands(f, b, k)
    decreases Height(b) - k
  {
    hide LineCommands, LineStart, Whole, Refreshable, BlockStart, Height;
    RowsRefreshable(f, b, k);
    if k < Height(b) {
      RefreshOfRows(f, b, k + 1, size);
      OneMoreRow(f, b, k, size);
      hide RefreshProgram;
    }
  }

  lemma {:induction false} RefreshAppend(f: Frames, a: seq<Box>, b: seq<Box>, size: int)
    requires ValidFrames(f, size) && AllRefreshable(f, a) && AllRefreshable(f, b)
    ensures AllRefreshable(f, a + b)
    ensures RefreshProgram(f, a + b, size) == RefreshProgram(f, a, size) + RefreshProgram(f, b, size)
    decreases |a|
  {
    hide BoxCommands, Refreshable, Whole, BlockStart;
    if a == [] {
      assert a + b == b;
    } else {
      assert (a + b)[1..] == a[1..] + b && (a + b)[0] == a[0];
      RefreshAppend(f, a[1..], b, size);
      HullFits(f, a[0], size);
      var p, q := BoxCommands(f, a[0], 0), RefreshProgram(f, a[1..], size);
      assert p + (q + RefreshProgram(f, b, size)) == (p + q) + RefreshProgram(f, b, size);
    }
  }

  /** The refresh of the boxes is the refresh of their lines, two commands for each. */
  lemma {:induction false} RefreshOfLines(f: Frames, boxes: seq<Box>, size: int)
    requires ValidFrames(f, size) && AllRefreshable(f, boxes)
    ensures AllRefreshable(f, Damage(boxes))
    ensures RefreshProgram(f, Damage(boxes), size) == RefreshProgram(f, boxes, size)
    decreases |boxes|
  {
    hide BoxCommands, Refreshable, Whole, BlockStart, Height;
    LinesRefreshable(f, boxes);
    if boxes != [] {
      HullFits(f, boxes[0], size);
      RefreshOfLines(f, boxes[1..], size);
      RefreshOfRows(f, boxes[0], 0, size);
      RefreshAppend(f, LinesOfBox(boxes[0], 0, 0), Damage(boxes[1..]), size);
    }
  }

  lemma {:induction false} RefreshLength(f: Frames, ls: seq<Box>, size: int)
    requires ValidFrames(f, size) && AllRefreshable(f, ls) && SingleLines(ls)
    ensures |RefreshProgram(f, ls, size)| == 2 * |ls|
    decreases |ls|
  {
    hide Refreshable, Whole, BlockStart;
    if ls != [] {
      HullFits(f, ls[0], size);
      TwoCommands(f, ls[0]);
      RefreshLength(f, ls[1..], size);
    }
  }

  lemma TwoCommands(f: Frames, l: Box)
    requires l.y2 == l.y1 + 1 && 0 <= BlockStart(l.x1) < 8192
    ensures |BoxCommands(f, l, 0)| == 2
  {
    hide Hi, BlockStart, BlockEnd, LineStart;
    assert Height(l) == 1 && BoxCommands(f, l, 1) == [];
  }

  // ---------------------------------------------------------------- what a batch refreshes

  /** The lines that the counter lets through. */
  function Executed(boxes: seq<Box>): seq<Box> {
    var ls := Damage(boxes);
    ls[..|ls| % (MAX_BATCH / 2)]
  }

  lemma ExecutedCommands(f: Frames, boxes: seq<Box>, size: int)
    requires ValidFrames(f, size) && AllRefreshable(f, boxes)
    ensures AllRefreshable(f, Executed(boxes))
    ensures var p := RefreshProgram(f, boxes, size);
            p[..|p| % MAX_BATCH] == RefreshProgram(f, Executed(boxes), size)
  {
    hide RefreshProgram, Damage, Refreshable, Whole;
    var ls := Damage(boxes);
    TwiceModulo(|ls|);
    var n := |ls| % (MAX_BATCH / 2);
    RefreshOfLines(f, boxes, size);
    DamageIsSingle(boxes);
    RefreshLength(f, ls, size);
    RefreshLength(f, ls[..n], size);
    RefreshAppend(f, ls[..n], ls[n..], size);
    assert ls[..n] + ls[n..] == ls;
  }

  lemma DamageIsSingle(boxes: seq<Box>)
    ensures SingleLines(Damage(boxes))
  {
    LinesAreSingle(boxes, 0);
  }

  lemma TwiceModulo(n: nat)
    ensures 2 * n % MAX_BATCH == 2 * (n % (MAX_BATCH / 2))
    ensures n % (MAX_BATCH / 2) <= n
  {
    var q, r := n / 32768, n % 32768;
    assert MAX_BATCH == 65536 && n == 32768 * q + r;
    assert 2 * n == 65536 * q + 2 * r;
  }

  /** Whatever its length, a batch refreshes exactly the lines that the counter lets through. */
  lemma BatchRefreshesExecuted(f: Frames, boxes: seq<Box>, mem: seq<byte>, buf: seq<byte>)
    requires ValidFrames(f, |mem|) && AllRefreshable(f, boxes) && |buf| == BUFFER_SIZE
    ensures var r := RunBatch(Engine(mem, buf, Landed), RefreshProgram(f, boxes, |mem|));
            r.Some? && r.value.mem == Refreshed(f, mem, Executed(boxes))
  {
    hide Run, RefreshProgram, Refreshed, Whole, Executed, Refreshable;
    var ls := Executed(boxes);
    ExecutedCommands(f, boxes, |mem|);
    assert ls[0..] == ls && ls[..0] == [];
    NothingDamaged(f, mem);
    var m := RefreshEffect(f, mem, ls, 0, Engine(mem, buf, Landed));
  }

  // ---------------------------------------------------------------- when that is everything

  lemma RowByte(g: Surface, l: Box, b: Box, a: int)
    requires 0 < g.stride && LineIn(l, b) && InBox(g, Hull(l), a)
    ensures InBox(g, Hull(b), a)
  {
    hide BlockStart, BlockEnd;
  }

  lemma ByteRow(g: Surface, b: Box, a: int) returns (k: nat)
    requires 0 < g.stride && InBox(g, Hull(b), a)
    ensures k < Height(b) && InBox(g, Hull(LineBox(b, 0, k)), a)
  {
    hide BlockStart, BlockEnd;
    k := (a - g.base) / g.stride - b.y1;
  }

  lemma {:induction false} LineOfBox(boxes: seq<Box>, j: nat, k: nat) returns (i: nat)
    requires j < |boxes| && k < Height(boxes[j])
    ensures i < |Damage(boxes)| && Damage(boxes)[i] == LineBox(boxes[j], 0, k)
    decreases |boxes|
  {
    hide Height, LineBox;
    LinesOfOneBox(boxes[0], 0, 0);
    if j == 0 {
      i := k;
    } else {
      var i' := LineOfBox(boxes[1..], j - 1, k);
      i := |LinesOfBox(boxes[0], 0, 0)| + i';
    }
  }

  /** The lines cover what the boxes cover. */
  lemma LinesCover(f: Frames, boxes: seq<Box>, a: int)
    requires 0 < f.front.stride
    ensures InHulls(f, Damage(boxes), a) <==> InHulls(f, boxes, a)
  {
    hide InBox, Hull, Damage, LineIn, LineBox;
    if InHulls(f, Damage(boxes), a) {
      var i :| 0 <= i < |Damage(boxes)| && InBox(f.front, Hull(Damage(boxes)[i]), a);
      var j := DamageHasBox(boxes, i);
      RowByte(f.front, Damage(boxes)[i], boxes[j], a);
    }
    if InHulls(f, boxes, a) {
      var j :| 0 <= j < |boxes| && InBox(f.front, Hull(boxes[j]), a);
      var k := ByteRow(f.front, boxes[j], a);
      var i := LineOfBox(boxes, j, k);
    }
  }

  lemma DamageHasBox(boxes: seq<Box>, i: nat) returns (j: nat)
    requires i < |Damage(boxes)|
    ensures j < |boxes| && LineIn(Damage(boxes)[i], boxes[j])
  {
    j := LineHasBox(boxes, 0, i);
  }

  /** Every byte under the hull of a damaged line lies under one that is let through. */
  ghost predicate Covered(f: Frames, boxes: seq<Box>)
    requires 0 < f.front.stride
  {
    forall a :: InHulls(f, boxes, a) ==> InHulls(f, Executed(boxes), a)
  }

  lemma ExecutedWithin(f: Frames, boxes: seq<Box>, a: int)
    requires 0 < f.front.stride && InHulls(f, Executed(boxes), a)
    ensures InHulls(f, boxes, a)
  {
    hide InBox, Hull, Damage;
    var ls := Damage(boxes);
    var i :| 0 <= i < |Executed(boxes)| && InBox(f.front, Hull(Executed(boxes)[i]), a);
    assert InBox(f.front, Hull(ls[i]), a);
    LinesCover(f, boxes, a);
  }

  lemma HullAddress(f: Frames, boxes: seq<Box>, a: int, size: int)
    requires ValidFrames(f, size) && AllRefreshable(f, boxes) && InHulls(f, boxes, a)
    ensures 0 <= a < f.shadow.base <= ShadowOf(f, a) < size
  {
    hide InBox, Hull, Whole, Refreshable, Inside;
    var i :| 0 <= i < |boxes| && InBox(f.front, Hull(boxes[i]), a);
    ShadowAddress(f, boxes[i], a, size);
    InBoxIsAfter(f, boxes[i], a, size);
  }

  lemma InBoxIsAfter(f: Frames, b: Box, a: int, size: int)
    requires ValidFrames(f, size) && InBox(f.front, Hull(b), a)
    ensures 0 <= a
  {
  }

  /** The exact condition for any list of boxes: a refresh shows the damage for every memory content exactly when the lines
      that the counter lets through cover it. */
  lemma RefreshExact(f: Frames, boxes: seq<Box>, size: int)
    requires ValidFrames(f, size) && AllRefreshable(f, boxes)
    ensures (forall mem: seq<byte>, buf: seq<byte> | |mem| == size && |buf| == BUFFER_SIZE :: Refreshes(f, boxes, mem, buf))
            <==> Covered(f, boxes)
  {
    hide RefreshProgram, Run, InHulls, Executed, Whole, Refreshable, ShadowOf;
    if Covered(f, boxes) {
      forall mem: seq<byte>, buf: seq<byte> | |mem| == size && |buf| == BUFFER_SIZE
        ensures Refreshes(f, boxes, mem, buf)
      {
        BatchRefreshesExecuted(f, boxes, mem, buf);
        forall a | 0 <= a < |mem|
          ensures Refreshed(f, mem, boxes)[a] == Refreshed(f, mem, Executed(boxes))[a]
        {
          if InHulls(f, Executed(boxes), a) {
            ExecutedWithin(f, boxes, a);
          }
        }
      }
    } else {
      var a :| InHulls(f, boxes, a) && !InHulls(f, Executed(boxes), a);
      HullAddress(f, boxes, a, size);
      var mem: seq<byte> := seq(size, i => if i == ShadowOf(f, a) then 1 else 0);
      var buf: seq<byte> := seq(BUFFER_SIZE, i => 0);
      BatchRefreshesExecuted(f, boxes, mem, buf);
      assert Refreshed(f, mem, boxes)[a] == 1 && Refreshed(f, mem, Executed(boxes))[a] == 0;
      assert !Refreshes(f, boxes, mem, buf);
    }
  }

  // ---------------------------------------------------------------- hulls that do not overlap

  function Hulls(boxes: seq<Box>): seq<Box> {
    if boxes == [] then [] else [Hull(boxes[0])] + Hulls(boxes[1..])
  }

  lemma {:induction false} HullsAt(boxes: seq<Box>)
    ensures |Hulls(boxes)| == |boxes| && forall i :: 0 <= i < |boxes| ==> Hulls(boxes)[i] == Hull(boxes[i])
    decreases |boxes|
  {
    hide Hull;
    if boxes != [] {
      HullsAt(boxes[1..]);
    }
  }

  lemma {:induction false} HullsAppend(a: seq<Box>, b: seq<Box>)
    ensures Hulls(a + b) == Hulls(a) + Hulls(b)
    decreases |a|
  {
    hide Hull;
    if a == [] {
      assert a + b == b;
    } else {
      assert (a + b)[1..] == a[1..] + b;
      HullsAppend(a[1..], b);
    }
  }

  lemma {:induction false} HullRows(b: Box, k: nat)
    requires k <= Height(b)
    ensures LinesOfBox(Hull(b), 0, k) == Hulls(LinesOfBox(b, 0, k))
    decreases Height(b) - k
  {
    hide BlockStart, BlockEnd;
    if k < Height(b) {
      HullRows(b, k + 1);
      assert LineBox(Hull(b), 0, k) == Hull(LineBox(b, 0, k));
      assert LinesOfBox(b, 0, k)[1..] == LinesOfBox(b, 0, k + 1);
    }
  }

  lemma {:induction false} HullLines(boxes: seq<Box>)
    ensures LinesOf(Hulls(boxes), 0) == Hulls(LinesOf(boxes, 0))
    decreases |boxes|
  {
    hide LinesOfBox, Height, Hull;
    if boxes != [] {
      HullLines(boxes[1..]);
      HeightOfHull(boxes[0]);
      HullRows(boxes[0], 0);
      assert Hulls(boxes)[1..] == Hulls(boxes[1..]);
      HullsAppend(LinesOfBox(boxes[0], 0, 0), LinesOf(boxes[1..], 0));
    }
  }

  lemma HeightOfHull(b: Box)
    ensures Height(Hull(b)) == Height(b)
  {
  }

  function TotalLines(boxes: seq<Box>): nat {
    if boxes == [] then 0 else Height(boxes[0]) + TotalLines(boxes[1..])
  }

  lemma {:induction false} LinesCounted(boxes: seq<Box>)
    ensures |Damage(boxes)| == TotalLines(boxes)
    decreases |boxes|
  {
    hide Height;
    if boxes != [] {
      LinesOfOneBox(boxes[0], 0, 0);
      LinesCounted(boxes[1..]);
    }
  }

  lemma HullsInside(f: Frames, ls: seq<Box>, size: int)
    requires ValidFrames(f, size) && AllRefreshable(f, ls)
    ensures forall i :: 0 <= i < |Hulls(ls)| ==> Inside(f.front, Hulls(ls)[i])
    ensures forall i :: 0 <= i < |Hulls(ls)| ==> Hulls(ls)[i].x1 < Hulls(ls)[i].x2
  {
    hide Hulls, Whole, BlockStart, BlockEnd;
    HullsAt(ls);
    forall i | 0 <= i < |Hulls(ls)|
      ensures Inside(f.front, Hulls(ls)[i]) && Hulls(ls)[i].x1 < Hulls(ls)[i].x2
    {
      assert Refreshable(f, ls[i]);
      HullFits(f, ls[i], size);
      BlocksAround(ls[i].x1, ls[i].x2);
    }
  }

  /** The first byte of the last line lies under no other line. */
  lemma LastLineNotCovered(f: Frames, boxes: seq<Box>, size: int)
    requires ValidFrames(f, size) && AllRefreshable(f, boxes) && PairwiseDisjoint(Hulls(boxes))
    requires |Executed(boxes)| < |Damage(boxes)|
    ensures !Covered(f, boxes)
  {
    hide InBox, Hull, Hulls, LinesOf, Overlap, Inside, Whole;
    var ls := Damage(boxes);
    var hs := Hulls(ls);
    HullLines(boxes);
    HullsAt(ls);
    LinesDisjoint(Hulls(boxes), 0);
    LinesRefreshable(f, boxes);
    HullsInside(f, ls, size);
    LinesAreSingle(Hulls(boxes), 0);
    var last := hs[|hs| - 1];
    var a := At(f.front, last.y1, 2 * last.x1);
    FirstColumn(f.front, last, a);
    OnlyIn(f.front, hs, |hs| - 1, a);
    assert InHulls(f, Damage(boxes), a);
    LinesCover(f, boxes, a);
    forall i | 0 <= i < |Executed(boxes)|
      ensures !InBox(f.front, Hull(Executed(boxes)[i]), a)
    {
      assert i != |hs| - 1 && hs[i] == Hull(ls[i]);
    }
  }

  lemma FirstColumn(g: Surface, l: Box, a: int)
    requires 0 < g.stride && Inside(g, l) && l.x1 < l.x2 && l.y2 == l.y1 + 1 && a == At(g, l.y1, 2 * l.x1)
    ensures InBox(g, l, a)
  {
    LineColumn(g, l, l.y1, 2 * l.x1);
  }

  /** Where no two hulls overlap, a refresh is right for every memory content exactly when the command counter can hold two
      commands for every line. */
  lemma RefreshCounted(f: Frames, boxes: seq<Box>, size: int)
    requires ValidFrames(f, size) && AllRefreshable(f, boxes) && PairwiseDisjoint(Hulls(boxes))
    ensures (forall mem: seq<byte>, buf: seq<byte> | |mem| == size && |buf| == BUFFER_SIZE :: Refreshes(f, boxes, mem, buf))
            <==> 2 * TotalLines(boxes) < MAX_BATCH
  {
    hide Refreshes, Hulls, Damage, TotalLines, InHulls, PairwiseDisjoint;
    RefreshExact(f, boxes, size);
    LinesCounted(boxes);
    if 2 * TotalLines(boxes) < MAX_BATCH {
      EverythingExecuted(f, boxes);
    } else {
      LastLineNotCovered(f, boxes, size);
    }
  }

  lemma EverythingExecuted(f: Frames, boxes: seq<Box>)
    requires 0 < f.front.stride && 2 * |Damage(boxes)| < MAX_BATCH
    ensures Covered(f, boxes)
  {
    hide InBox, Hull, Damage, InHulls;
    assert Executed(boxes) == Damage(boxes);
    forall a | InHulls(f, boxes, a)
      ensures InHulls(f, Executed(boxes), a)
    {
      LinesCover(f, boxes, a);
    }
  }

  /** The batch runs and leaves the memory as it is. */
  predicate ChangesNothing(f: Frames, boxes: seq<Box>, mem: seq<byte>, buf: seq<byte>)
    requires ValidFrames(f, |mem|) && AllRefreshable(f, boxes) && |buf| == BUFFER_SIZE
  {
    var r := RunBatch(Engine(mem, buf, Landed), RefreshProgram(f, boxes, |mem|));
    r.Some? && r.value.mem == mem
  }

  lemma NothingExecuted(f: Frames, boxes: seq<Box>, mem: seq<byte>, buf: seq<byte>)
    requires ValidFrames(f, |mem|) && AllRefreshable(f, boxes) && |buf| == BUFFER_SIZE
    requires 2 * |Damage(boxes)| % MAX_BATCH == 0
    ensures ChangesNothing(f, boxes, mem, buf)
  {
    hide RefreshProgram, Run, Damage, Whole, Refreshable;
    BatchRefreshesExecuted(f, boxes, mem, buf);
    assert Executed(boxes) == [];
    NothingDamaged(f, mem);
  }

  /** Thirty-two stripes of 1024 lines take 65536 commands: the counter is 0 and nothing is refreshed. */
  lemma LongRefreshDoesNothing(f: Frames, mem: seq<byte>, buf: seq<byte>)
    requires f == Frames(Surface(0, 4096, 1024), Surface(1024 * 4096, 4096, 1024))
    requires 2 * 1024 * 4096 <= |mem| <= 0x4000_0000 && |buf| == BUFFER_SIZE
    ensures ValidFrames(f, |mem|) && AllRefreshable(f, Stripes(32)) && 2 * TotalLines(Stripes(32)) == MAX_BATCH
    ensures ChangesNothing(f, Stripes(32), mem, buf)
  {
    StripesRefreshable(f, |mem|);
    hide RefreshProgram, Run, Stripes, Damage, TotalLines, ValidFrames, Refreshable, Height, LineBox, ChangesNothing;
    StripeLines(0, 32);
    assert Stripes(32)[0..] == Stripes(32);
    LinesCounted(Stripes(32));
    NothingExecuted(f, Stripes(32), mem, buf);
  }

  lemma StripesRefreshable(f: Frames, size: int)
    requires f == Frames(Surface(0, 4096, 1024), Surface(1024 * 4096, 4096, 1024))
    requires 2 * 1024 * 4096 <= size <= 0x4000_0000
    ensures ValidFrames(f, size) && AllRefreshable(f, Stripes(32))
  {
    assert Whole(0) && Whole(4096) && Whole(1024 * 4096);
  }

  lemma {:induction false} StripeLines(i: nat, n: nat)
    requires i <= n
    ensures TotalLines(Stripes(n)[i..]) == (n - i) * 1024
    decreases n - i
  {
    if i < n {
      StripeLines(i + 1, n);
      assert Stripes(n)[i..][1..] == Stripes(n)[i + 1..];
    }
  }
}
