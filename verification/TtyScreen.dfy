/**
  Scrolling in the text window manager (software/textwm2/tty.c:13-76): a frame of 256 lines used as a ring, in
  which line i of the screen is the line at `frame_start` plus i.
 */
module TtyScreen {
  import opened Arithmetic

  type Cell = int

  const COLUMNS := 256
  const LINES := 256
  const CELLS := 65536

  type Line = s: seq<Cell> | |s| == COLUMNS witness seq(COLUMNS, _ => 0)

  /** All 256 lines in the order of the screen, beginning with its first line. */
  type View = s: seq<Line> | |s| == LINES witness seq(LINES, _ => Filled(0))

  function Filled(v: Cell): Line {
    seq(COLUMNS, _ => v)
  }

  // ---------------------------------------------------------------- what scrolling means

  /** Moving the start of the ring by `count` lines. */
  function Rotated(v: View, count: int): View {
    seq(LINES, k requires 0 <= k < LINES => v[(k + count) % LINES])
  }

  /** Line k of the ring is one of the lines lo up to hi, counted round the ring. */
  predicate InRange(k: int, lo: int, hi: int) {
    (k - lo) % LINES < hi - lo
  }

  lemma InRangeIsPlain(k: int, lo: int, hi: int)
    requires 0 <= k < LINES && 0 <= lo && hi <= LINES
    ensures InRange(k, lo, hi) <==> lo <= k < hi
  {
  }

  function Blanked(v: View, lo: int, hi: int, blank: Line): View {
    seq(LINES, k requires 0 <= k < LINES => if InRange(k, lo, hi) then blank else v[k])
  }

  /** What the loops leave when lines move down: those of the region that still have a place in it, and blank lines from
      `from` on, however many. */
  function Inserted(v: View, from: int, to: int, count: int, blank: Line): View
    requires 0 <= from && 0 <= count
  {
    seq(LINES, k requires 0 <= k < LINES =>
      if from + count <= k < to then (if k - count >= 0 then v[k - count] else blank)
      else if InRange(k, from, from + count) then blank else v[k])
  }

  /** The same when lines move up: the blank lines end before `to`. */
  function Deleted(v: View, from: int, to: int, count: int, blank: Line): View
    requires 0 <= from && 0 <= count
  {
    seq(LINES, k requires 0 <= k < LINES =>
      if from <= k < to - count then (if k + count < LINES then v[k + count] else blank)
      else if InRange(k, to - count, to) then blank else v[k])
  }

  /** With no more lines than the region has these are operations on the list of lines. */
  lemma InsertedIsList(v: View, from: nat, to: nat, count: nat, blank: Line)
    requires from + count <= to <= LINES
    ensures Inserted(v, from, to, count, blank) ==
            v[..from] + seq(count, _ => blank) + v[from..to - count] + v[to..]
  {
    assert |v[..from] + seq(count, _ => blank) + v[from..to - count] + v[to..]| == LINES;
  }

  lemma DeletedIsList(v: View, from: nat, to: nat, count: nat, blank: Line)
    requires from + count <= to <= LINES
    ensures Deleted(v, from, to, count, blank) ==
            v[..from] + v[from + count..to] + seq(count, _ => blank) + v[to..]
  {
    assert |v[..from] + v[from + count..to] + seq(count, _ => blank) + v[to..]| == LINES;
  }

  /** scroll_region as a whole: the full screen is scrolled by moving the start of the ring. */
  function Region(v: View, height: int, from: int, to: int, count: int, blank: Line): View
    requires 0 <= from
  {
    if from == 0 && to == height then
      if count > 0 then Blanked(Rotated(v, count), 0, count, blank) else Blanked(Rotated(v, count), to + count, to, blank)
    else if count > 0 then Inserted(v, from, to, count, blank)
    else Deleted(v, from, to, -count, blank)
  }

  /** What scroll_region is for: `count` blank lines come in at the top of the region, or at its bottom if `count` is not
      positive; as many lines leave at the other end, and no line outside the region changes. */
  function ListScrolled(v: View, from: nat, to: nat, count: int, blank: Line): (r: View)
    requires from <= to <= LINES
  {
    var m := Least(if count > 0 then count else -count, to - from);
    var r := if count > 0 then v[..from] + seq(m, _ => blank) + v[from..to - m] + v[to..]
             else v[..from] + v[from + m..to] + seq(m, _ => blank) + v[to..];
    assert |r| == LINES;
    r
  }

  lemma ListScrolledAt(v: View, from: nat, to: nat, count: int, blank: Line, k: nat)
    requires from <= to <= LINES && k < LINES
    ensures var m := Least(if count > 0 then count else -count, to - from);
            ListScrolled(v, from, to, count, blank)[k] ==
            (if k < from || to <= k then v[k]
             else if count > 0 then (if k < from + m then blank else v[k - m])
             else (if k < to - m then v[k + m] else blank))
  {
  }

  predicate ScrollsRegion(v: View, height: int, from: int, to: int, count: int, blank: Line)
    requires 0 <= from <= to <= height <= LINES
  {
    forall k :: 0 <= k < height ==>
      Region(v, height, from, to, count, blank)[k] == ListScrolled(v, from, to, count, blank)[k]
  }

  /** On the full screen the start of the ring moves the wrong way.  Some content shows it, unless no line stays
      or the two directions meet half way round the ring. */
  lemma FullScreenGoesTheWrongWay(height: int, count: int, blank: Line)
    requires 1 <= height <= 254
    ensures (forall v: View :: ScrollsRegion(v, height, 0, height, count, blank))
            <==> count >= height || count <= -height || count % 128 == 0
  {
    hide Region, ListScrolled;
    if count >= height || count <= -height || count % 128 == 0 {
      forall v: View
        ensures ScrollsRegion(v, height, 0, height, count, blank)
      {
        FullScreenAgrees(v, height, count, blank);
      }
    } else {
      var v := FullScreenDisagrees(height, count, blank);
    }
  }

  lemma HalfWay(count: int)
    requires -254 <= count <= 254 && count % 128 == 0 && count != 0
    ensures count == 128 || count == -128
  {
  }

  lemma FullScreenAgrees(v: View, height: int, count: int, blank: Line)
    requires 1 <= height <= 254
    requires count >= height || count <= -height || count % 128 == 0
    ensures ScrollsRegion(v, height, 0, height, count, blank)
  {
    hide Region, ListScrolled;
    if count >= height || count <= -height {
      EverythingBlank(v, height, count, blank);
    } else if count == 0 {
      NothingMoves(v, height, blank);
    } else {
      HalfWay(count);
      HalfWayAgrees(v, height, count, blank);
    }
  }

  lemma EverythingBlank(v: View, height: int, count: int, blank: Line)
    requires 1 <= height <= 254 && (count >= height || count <= -height)
    ensures ScrollsRegion(v, height, 0, height, count, blank)
  {
    hide Rotated, ListScrolled;
    forall k | 0 <= k < height
      ensures InRange(k, 0, count) || count <= 0
      ensures InRange(k, height + count, height) || count > 0
    {
    }
    forall k | 0 <= k < height
      ensures Region(v, height, 0, height, count, blank)[k] == ListScrolled(v, 0, height, count, blank)[k]
    {
      ListScrolledAt(v, 0, height, count, blank, k);
    }
  }

  lemma NothingMoves(v: View, height: int, blank: Line)
    requires 1 <= height <= 254
    ensures ScrollsRegion(v, height, 0, height, 0, blank)
  {
    hide ListScrolled;
    forall k | 0 <= k < height
      ensures Region(v, height, 0, height, 0, blank)[k] == ListScrolled(v, 0, height, 0, blank)[k]
    {
      ListScrolledAt(v, 0, height, 0, blank, k);
    }
  }

  lemma HalfWayAgrees(v: View, height: int, count: int, blank: Line)
    requires 128 < height <= 254 && (count == 128 || count == -128)
    ensures ScrollsRegion(v, height, 0, height, count, blank)
  {
    hide ListScrolled;
    forall k | 0 <= k < height
      ensures Region(v, height, 0, height, count, blank)[k] == ListScrolled(v, 0, height, count, blank)[k]
    {
      ListScrolledAt(v, 0, height, count, blank, k);
    }
  }

  lemma FullScreenDisagrees(height: int, count: int, blank: Line) returns (v: View)
    requires 1 <= height <= 254 && -height < count < height && count % 128 != 0
    ensures !ScrollsRegion(v, height, 0, height, count, blank)
  {
    v := Numbered();
    Opposite(count);
    hide Numbered, Region, ListScrolled;
    if count > 0 {
      ShowsDown(v, height, count, blank);
      NumberedDiffer(2 * count % LINES, 0);
    } else {
      ShowsUp(v, height, count, blank);
      NumberedDiffer(count % LINES, -count);
    }
  }

  function Numbered(): View {
    seq(LINES, k requires 0 <= k < LINES => Filled(k))
  }

  lemma NumberedDiffer(j: int, k: int)
    requires 0 <= j < LINES && 0 <= k < LINES && j != k
    ensures Numbered()[j] != Numbered()[k]
  {
    assert Numbered()[j][0] == j && Numbered()[k][0] == k;
  }

  lemma ShowsDown(v: View, height: int, count: int, blank: Line)
    requires 0 < count < height <= 254
    ensures Region(v, height, 0, height, count, blank)[count] == v[2 * count % LINES]
    ensures ListScrolled(v, 0, height, count, blank)[count] == v[0]
  {
    ListScrolledAt(v, 0, height, count, blank, count);
    hide ListScrolled;
  }

  lemma ShowsUp(v: View, height: int, count: int, blank: Line)
    requires -height < count < 0 && height <= 254
    ensures Region(v, height, 0, height, count, blank)[0] == v[count % LINES]
    ensures ListScrolled(v, 0, height, count, blank)[0] == v[-count]
  {
    ListScrolledAt(v, 0, height, count, blank, 0);
    hide ListScrolled;
  }

  lemma Opposite(count: int)
    requires -254 < count < 254 && count % 128 != 0
    ensures count > 0 ==> 0 < 2 * count % LINES < LINES
    ensures count < 0 ==> 0 <= count % LINES < LINES && count % LINES != -count
  {
  }

  // ---------------------------------------------------------------- regions that are not the full screen

  /** The blank lines stay inside the region, or run out of it only below the last line of the screen and not so far round
      the ring that they come back at its top. */
  predicate BlanksFit(height: int, from: int, to: int, count: int) {
    if count > 0 then count <= to - from || (to == height && from + count <= LINES)
    else -count <= to - from || (from == 0 && -count <= LINES + to - height)
  }

  /** On every other region scroll_region is the list operation, for every content, exactly when the blank lines fit. */
  lemma PartialRegionExact(height: int, from: int, to: int, count: int, blank: Line)
    requires 0 <= from <= to <= height <= 254 && (from != 0 || to != height)
    ensures (forall v: View :: ScrollsRegion(v, height, from, to, count, blank)) <==> BlanksFit(height, from, to, count)
  {
    hide Region, ListScrolled, InRange;
    if BlanksFit(height, from, to, count) {
      forall v: View
        ensures ScrollsRegion(v, height, from, to, count, blank)
      {
        forall k | 0 <= k < height
          ensures Region(v, height, from, to, count, blank)[k] == ListScrolled(v, from, to, count, blank)[k]
        {
          ListScrolledAt(v, from, to, count, blank, k);
          RegionAt(v, height, from, to, count, blank, k);
          BlanksInside(height, from, to, count, k);
        }
      }
    } else {
      var v: View := seq(LINES, _ => Filled(blank[0] + 1));
      var k := LineLost(height, from, to, count);
      ListScrolledAt(v, from, to, count, blank, k);
      RegionAt(v, height, from, to, count, blank, k);
      assert v[k] == Filled(blank[0] + 1);
      assert v[k][0] != blank[0];
      assert !ScrollsRegion(v, height, from, to, count, blank);
    }
  }

  /** What the copying loops and the blanking loop leave in line k. */
  lemma RegionAt(v: View, height: int, from: int, to: int, count: int, blank: Line, k: nat)
    requires 0 <= from <= to <= height <= 254 && (from != 0 || to != height) && k < height
    ensures Region(v, height, from, to, count, blank)[k] ==
            (if count > 0 && from + count <= k < to then v[k - count]
             else if count <= 0 && from <= k < to + count then v[k - count]
             else if Blanks(from, to, count, k) then blank else v[k])
  {
    hide InRange, Inserted, Deleted;
    if count > 0 {
      LinesInsertedAt(v, from, to, count, blank, k);
    } else {
      LinesDeletedAt(v, from, to, -count, blank, k);
    }
  }

  lemma LinesInsertedAt(v: View, from: nat, to: int, count: nat, blank: Line, k: nat)
    requires to <= LINES && k < LINES
    ensures Inserted(v, from, to, count, blank)[k] ==
            (if from + count <= k < to then v[k - count] else if InRange(k, from, from + count) then blank else v[k])
  {
    hide InRange;
  }

  lemma LinesDeletedAt(v: View, from: nat, to: int, count: nat, blank: Line, k: nat)
    requires to <= LINES && k < LINES
    ensures Deleted(v, from, to, count, blank)[k] ==
            (if from <= k < to - count then v[k + count] else if InRange(k, to - count, to) then blank else v[k])
  {
    hide InRange;
  }

  predicate Blanks(from: int, to: int, count: int, k: int) {
    if count > 0 then InRange(k, from, from + count) else InRange(k, to + count, to)
  }

  lemma BlanksInside(height: int, from: int, to: int, count: int, k: int)
    requires 0 <= from <= to <= height <= 254 && (from != 0 || to != height) && 0 <= k < height
    requires BlanksFit(height, from, to, count)
    ensures from <= k < to && !(count > 0 && from + count <= k) && !(count <= 0 && k < to + count) ==> Blanks(from, to, count, k)
    ensures Blanks(from, to, count, k) ==> from <= k < to
  {
  }

  /** A line outside the region that is blanked. */
  lemma LineLost(height: int, from: int, to: int, count: int) returns (k: nat)
    requires 0 <= from <= to <= height <= 254 && (from != 0 || to != height) && !BlanksFit(height, from, to, count)
    ensures k < height && !(from <= k < to) && Blanks(from, to, count, k)
  {
    if count > 0 {
      k := if to < height then to else 0;
    } else {
      k := if from > 0 then from - 1 else height - 1;
    }
  }

  // ---------------------------------------------------------------- moving the start of the ring alone

  /** What a command that scrolls the whole screen is for (section 8.3 of ECMA-48, SU and SD): the list operation. */
  predicate ScrollsScreen(v: View, height: int, count: int, blank: Line)
    requires 1 <= height <= 254
  {
    forall k :: 0 <= k < height ==> Rotated(v, count)[k] == ListScrolled(v, 0, height, count, blank)[k]
  }

  /** Moving the start of the ring without blanking any line does that only where nothing is scrolled at all. */
  lemma TurningIsNotScrolling(height: int, count: int, blank: Line)
    requires 1 <= height <= 254
    ensures (forall v: View :: ScrollsScreen(v, height, count, blank)) <==> count == 0
  {
    hide ListScrolled;
    if count == 0 {
      forall v: View, k | 0 <= k < height
        ensures Rotated(v, 0)[k] == ListScrolled(v, 0, height, 0, blank)[k]
      {
        ListScrolledAt(v, 0, height, 0, blank, k);
      }
    } else {
      var v: View := seq(LINES, _ => Filled(blank[0] + 1));
      var k := if count > 0 then 0 else height - 1;
      ListScrolledAt(v, 0, height, count, blank, k);
      assert Rotated(v, count)[k] == Filled(blank[0] + 1);
      assert Rotated(v, count)[k][0] != blank[0];
      assert !ScrollsScreen(v, height, count, blank);
    }
  }

  /** A line that stays on the screen comes to the place it should have. */
  predicate KeepsLine(v: View, height: int, count: int, k: int)
    requires 1 <= height <= 254
  {
    0 <= k < height && 0 <= k - count < height ==> Rotated(v, count)[k] == v[k - count]
  }

  /** The lines that stay do so only where none stays, or the two directions meet half way round the ring: the ring turns
      the other way. */
  lemma TurnsTheOtherWay(height: int, count: int)
    requires 1 <= height <= 254
    ensures (forall v: View, k: int :: KeepsLine(v, height, count, k)) <==> count >= height || count <= -height || count % 128 == 0
  {
    if count >= height || count <= -height || count % 128 == 0 {
      forall v: View, k: int
        ensures KeepsLine(v, height, count, k)
      {
        if 0 <= k < height && 0 <= k - count < height && count != 0 {
          HalfWay(count);
        }
      }
    } else {
      var v := Numbered();
      Opposite(count);
      var k := if count > 0 then count else 0;
      NumberedDiffer((k + count) % LINES, k - count);
      assert !KeepsLine(v, height, count, k);
    }
  }

  /** After the cursor has passed the last line n times: n lines have left at the top, n blank ones have come. */
  function Scrolled(v: View, height: int, n: nat, blank: Line): View
    decreases n
  {
    if n == 0 then v else Rotated(Blanked(Scrolled(v, height, n - 1, blank), height, height + 2, blank), 1)
  }

  lemma ScrolledOnce(v: View, height: nat, blank: Line, k: nat)
    requires height + 2 <= LINES && k <= height
    ensures Rotated(Blanked(v, height, height + 2, blank), 1)[k] == if k + 1 < height then v[k + 1] else blank
  {
    InRangeIsPlain(k + 1, height, height + 2);
  }

  lemma {:induction false} ScrolledLines(v: View, height: nat, n: nat, blank: Line, k: nat)
    requires 1 <= height && height + 2 <= LINES && k < height
    ensures Scrolled(v, height, n, blank)[k] == if k + n < height then v[k + n] else blank
    ensures n > 0 ==> Scrolled(v, height, n, blank)[height] == blank
    decreases n
  {
    if n > 0 {
      hide Rotated, Blanked;
      var w := Scrolled(v, height, n - 1, blank);
      ScrolledOnce(w, height, blank, k);
      ScrolledOnce(w, height, blank, height);
      if k + 1 < height {
        ScrolledLines(v, height, n - 1, blank, k + 1);
      }
    }
  }

  /** The screen shows the end of a paper that grows for ever. */
  predicate Shows(v: View, height: nat, paper: seq<Line>)
    requires height <= LINES
  {
    |paper| >= height && forall k :: 0 <= k < height ==> v[k] == paper[|paper| - height + k]
  }

  /** Scrolling is feeding blank paper: nothing that was printed changes, whatever the ring does. */
  lemma ScrollingFeedsPaper(v: View, height: nat, n: nat, blank: Line, paper: seq<Line>)
    requires 1 <= height && height + 2 <= LINES && Shows(v, height, paper)
    ensures Shows(Scrolled(v, height, n, blank), height, paper + seq(n, _ => blank))
  {
    hide Scrolled;
    var fed := paper + seq(n, _ => blank);
    forall k | 0 <= k < height
      ensures Scrolled(v, height, n, blank)[k] == fed[|fed| - height + k]
    {
      ScrolledLines(v, height, n, blank, k);
    }
  }
}
