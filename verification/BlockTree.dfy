/** The accesses a block iterator still has to make, and how each of its steps shortens them. */
module BlockTree {
  import opened MachineTypes
  import opened Ext2Layout

  /** A block of pointers that the iterator loads by itself, or a block that it returns to its caller. */
  datatype Access = Load(block: uint32) | Data(block: uint32)

  function Datas(ps: seq<uint32>): seq<Access> {
    if ps == [] then [] else (if ps[0] != 0 then [Data(ps[0])] else []) + Datas(ps[1..])
  }

  /** Counters and the contents of the three shared pointer buffers. */
  datatype Position = Position(i0: nat, i1: nat, i2: nat, i3: nat, p1: seq<uint32>, p2: seq<uint32>, p3: seq<uint32>)

  predicate Fits(fs: Fs, inode: Inode, s: Position)
  {
    var n := PointersPerBlock(fs);
    && |inode.direct| == 12 && |s.p1| == |s.p2| == |s.p3| == n
    && s.i0 <= 12 && s.i1 <= n && s.i2 <= n && s.i3 <= n
  }

  // ---------------------------------------------------------------- the accesses below each level

  /** Data pointers are only used while the inode has a first-level pointer. */
  function Visits1(inode: Inode, ps: seq<uint32>): seq<Access> {
    if inode.indirect1 == 0 then [] else Datas(ps)
  }

  function Visits2(fs: Fs, inode: Inode, ps: seq<uint32>): seq<Access> {
    if inode.indirect2 == 0 || ps == [] then []
    else [Load(ps[0])] + Visits1(inode, PointersOf(fs, ps[0])) + Visits2(fs, inode, ps[1..])
  }

  function Visits3(fs: Fs, inode: Inode, ps: seq<uint32>): seq<Access> {
    if inode.indirect3 == 0 || ps == [] then []
    else [Load(ps[0])] + Visits2(fs, inode, PointersOf(fs, ps[0])) + Visits3(fs, inode, ps[1..])
  }

  /** What is left to do.  The buffers for the first two levels hold what is left of the current subtree. */
  function Rest(fs: Fs, inode: Inode, s: Position): seq<Access>
    requires Fits(fs, inode, s)
  {
    Datas(inode.direct[s.i0..])
    + (Visits1(inode, s.p1[s.i1..]) + (Visits2(fs, inode, s.p2[s.i2..]) + Visits3(fs, inode, s.p3[s.i3..])))
  }

  /** All accesses after the three buffers have been loaded for the first time. */
  function Visits(fs: Fs, inode: Inode): seq<Access> {
    Datas(inode.direct)
    + (Visits1(inode, PointersOf(fs, inode.indirect1))
       + (Visits2(fs, inode, PointersOf(fs, inode.indirect2)) + Visits3(fs, inode, PointersOf(fs, inode.indirect3))))
  }

  function FirstLoad(pointer: uint32): seq<Access> {
    if pointer == 0 then [] else [Load(pointer)]
  }

  /** The loads with which an iteration begins. */
  function FirstLoads(inode: Inode): seq<Access> {
    FirstLoad(inode.indirect1) + (FirstLoad(inode.indirect2) + FirstLoad(inode.indirect3))
  }

  /** The blocks among the accesses that the caller gets. */
  function BlocksOf(plan: seq<Access>): seq<uint32> {
    if plan == [] then [] else (if plan[0].Data? then [plan[0].block] else []) + BlocksOf(plan[1..])
  }

  // ---------------------------------------------------------------- the blocks are those of the tree

  lemma {:induction false} BlocksOfAppend(a: seq<Access>, b: seq<Access>)
    ensures BlocksOf(a + b) == BlocksOf(a) + BlocksOf(b)
    decreases |a|
  {
    if a == [] {
      assert a + b == b;
    } else {
      var first := if a[0].Data? then [a[0].block] else [];
      assert (a + b)[1..] == a[1..] + b && (a + b)[0] == a[0];
      BlocksOfAppend(a[1..], b);
      assert BlocksOf(a + b) == first + BlocksOf(a[1..] + b);
      assert first + (BlocksOf(a[1..]) + BlocksOf(b)) == (first + BlocksOf(a[1..])) + BlocksOf(b);
    }
  }

  lemma {:induction false} BlocksOfDatas(ps: seq<uint32>)
    ensures BlocksOf(Datas(ps)) == NonZero(ps)
    decreases |ps|
  {
    if ps != [] {
      BlocksOfDatas(ps[1..]);
      BlocksOfAppend(if ps[0] != 0 then [Data(ps[0])] else [], Datas(ps[1..]));
      if ps[0] != 0 {
        OneBlock(Data(ps[0]));
      }
    }
  }

  lemma OneBlock(a: Access)
    ensures BlocksOf([a]) == if a.Data? then [a.block] else []
  {
    assert [a][1..] == [];
  }

  lemma {:induction false} BlocksOfVisits2(fs: Fs, inode: Inode, ps: seq<uint32>)
    ensures BlocksOf(Visits2(fs, inode, ps)) ==
            if inode.indirect1 == 0 || inode.indirect2 == 0 then [] else NonZero(Leaves(fs, ps))
    decreases |ps|
  {
    hide PointersOf, NonZero, Datas;
    if ps != [] && inode.indirect2 != 0 {
      var head, below := [Load(ps[0])], Visits1(inode, PointersOf(fs, ps[0]));
      BlocksOfVisits2(fs, inode, ps[1..]);
      BlocksOfAppend(head + below, Visits2(fs, inode, ps[1..]));
      BlocksOfAppend(head, below);
      OneBlock(head[0]);
      BlocksOfDatas(PointersOf(fs, ps[0]));
      NonZeroAppend(PointersOf(fs, ps[0]), Leaves(fs, ps[1..]));
    } else {
      NonZeroNone();
    }
  }

  lemma {:induction false} BlocksOfVisits3(fs: Fs, inode: Inode, ps: seq<uint32>)
    ensures BlocksOf(Visits3(fs, inode, ps)) ==
            if inode.indirect1 == 0 || inode.indirect2 == 0 || inode.indirect3 == 0 then [] else NonZero(Leaves2(fs, ps))
    decreases |ps|
  {
    hide PointersOf, NonZero, Datas, Leaves, Visits2;
    if ps != [] && inode.indirect3 != 0 {
      var head, below := [Load(ps[0])], Visits2(fs, inode, PointersOf(fs, ps[0]));
      BlocksOfVisits3(fs, inode, ps[1..]);
      BlocksOfAppend(head + below, Visits3(fs, inode, ps[1..]));
      BlocksOfAppend(head, below);
      OneBlock(head[0]);
      BlocksOfVisits2(fs, inode, PointersOf(fs, ps[0]));
      NonZeroAppend(Leaves(fs, PointersOf(fs, ps[0])), Leaves2(fs, ps[1..]));
    } else {
      NonZeroNone();
    }
  }

  lemma NonZeroNone()
    ensures NonZero([]) == []
  {
  }

  /** The blocks that an iteration returns are the non-null pointers of the tree, in order. */
  lemma VisitsTheTree(fs: Fs, inode: Inode)
    ensures BlocksOf(Visits(fs, inode)) == BlocksRead(fs, inode)
  {
    hide PointersOf, NonZero, Datas, Leaves, Leaves2, Visits2, Visits3, BlocksOf, Tree;
    var p1, p2, p3 := PointersOf(fs, inode.indirect1), PointersOf(fs, inode.indirect2), PointersOf(fs, inode.indirect3);
    var v0, v1, v2, v3 := Datas(inode.direct), Visits1(inode, p1), Visits2(fs, inode, p2), Visits3(fs, inode, p3);
    BlocksOfAppend(v0, v1 + (v2 + v3));
    BlocksOfAppend(v1, v2 + v3);
    BlocksOfAppend(v2, v3);
    BlocksOfDatas(inode.direct);
    BlocksOfDatas(p1);
    BlocksOfNone();
    BlocksOfVisits2(fs, inode, p2);
    BlocksOfVisits3(fs, inode, p3);
    NonZeroTree(fs, inode);
  }

  lemma BlocksOfNone()
    ensures BlocksOf([]) == []
  {
  }

  lemma NonZeroTree(fs: Fs, inode: Inode)
    ensures var t3 := if inode.indirect3 == 0 then [] else NonZero(Leaves2(fs, PointersOf(fs, inode.indirect3)));
            var t2 := if inode.indirect2 == 0 then [] else NonZero(Leaves(fs, PointersOf(fs, inode.indirect2))) + t3;
            var t1 := if inode.indirect1 == 0 then [] else NonZero(PointersOf(fs, inode.indirect1)) + t2;
            BlocksRead(fs, inode) == NonZero(inode.direct) + t1
  {
    hide PointersOf, Leaves, Leaves2, NonZero;
    var p1, p2, p3 := PointersOf(fs, inode.indirect1), PointersOf(fs, inode.indirect2), PointersOf(fs, inode.indirect3);
    var t3 := if inode.indirect3 == 0 then [] else Leaves2(fs, p3);
    var t2 := if inode.indirect2 == 0 then [] else Leaves(fs, p2) + t3;
    var t1 := if inode.indirect1 == 0 then [] else p1 + t2;
    NonZeroAppend(inode.direct, t1);
    NonZeroAppend(p1, t2);
    NonZeroAppend(Leaves(fs, p2), t3);
    NonZeroNone();
  }

  // ---------------------------------------------------------------- the steps of the iterator

  lemma RestAtStart(fs: Fs, inode: Inode, s: Position)
    requires Fits(fs, inode, s) && s.i0 == s.i1 == s.i2 == s.i3 == 0
    requires inode.indirect1 != 0 ==> s.p1 == PointersOf(fs, inode.indirect1)
    requires inode.indirect2 != 0 ==> s.p2 == PointersOf(fs, inode.indirect2)
    requires inode.indirect3 != 0 ==> s.p3 == PointersOf(fs, inode.indirect3)
    ensures Rest(fs, inode, s) == Visits(fs, inode)
  {
    hide PointersOf, Datas;
    assert inode.direct[0..] == inode.direct && s.p1[0..] == s.p1 && s.p2[0..] == s.p2 && s.p3[0..] == s.p3;
  }

  function IfData(p: uint32): seq<Access> {
    if p != 0 then [Data(p)] else []
  }

  lemma DatasFrom(ps: seq<uint32>, i: nat)
    requires i < |ps|
    ensures Datas(ps[i..]) == IfData(ps[i]) + Datas(ps[i + 1..])
  {
    assert ps[i..][1..] == ps[i + 1..];
  }

  lemma StepDirect(fs: Fs, inode: Inode, s: Position)
    requires Fits(fs, inode, s) && s.i0 < 12
    ensures Rest(fs, inode, s) == IfData(inode.direct[s.i0]) + Rest(fs, inode, s.(i0 := s.i0 + 1))
  {
    hide Visits1, Visits2, Visits3, Datas;
    DatasFrom(inode.direct, s.i0);
  }

  lemma StepPointer(fs: Fs, inode: Inode, s: Position)
    requires Fits(fs, inode, s) && s.i0 == 12 && inode.indirect1 != 0 && s.i1 < PointersPerBlock(fs)
    ensures Rest(fs, inode, s) == IfData(s.p1[s.i1]) + Rest(fs, inode, s.(i1 := s.i1 + 1))
  {
    hide Visits2, Visits3, Datas;
    DatasFrom(s.p1, s.i1);
    DatasOfNone(inode.direct);
  }

  lemma DatasOfNone(ps: seq<uint32>)
    ensures Datas(ps[|ps|..]) == []
  {
  }

  predicate Level1Done(fs: Fs, inode: Inode, s: Position)
  {
    s.i0 == 12 && (inode.indirect1 == 0 || s.i1 == PointersPerBlock(fs))
  }

  predicate Level2Done(fs: Fs, inode: Inode, s: Position)
  {
    Level1Done(fs, inode, s) && (inode.indirect2 == 0 || s.i2 == PointersPerBlock(fs))
  }

  lemma NothingBelow1(fs: Fs, inode: Inode, s: Position)
    requires Fits(fs, inode, s) && Level1Done(fs, inode, s)
    ensures Rest(fs, inode, s) == Visits2(fs, inode, s.p2[s.i2..]) + Visits3(fs, inode, s.p3[s.i3..])
  {
    hide Visits2, Visits3, Datas;
    DatasOfNone(inode.direct);
    DatasOfNone(s.p1);
  }

  lemma Visits2From(fs: Fs, inode: Inode, ps: seq<uint32>, i: nat)
    requires inode.indirect2 != 0 && i < |ps|
    ensures Visits2(fs, inode, ps[i..]) == [Load(ps[i])] + Visits1(inode, PointersOf(fs, ps[i])) + Visits2(fs, inode, ps[i + 1..])
  {
    assert ps[i..][1..] == ps[i + 1..];
  }

  lemma Visits3From(fs: Fs, inode: Inode, ps: seq<uint32>, i: nat)
    requires inode.indirect3 != 0 && i < |ps|
    ensures Visits3(fs, inode, ps[i..]) == [Load(ps[i])] + Visits2(fs, inode, PointersOf(fs, ps[i])) + Visits3(fs, inode, ps[i + 1..])
  {
    assert ps[i..][1..] == ps[i + 1..];
  }

  /** Loading the next block of data pointers over the first buffer. */
  lemma StepLoad1(fs: Fs, inode: Inode, s: Position, p1: seq<uint32>)
    requires Fits(fs, inode, s) && Level1Done(fs, inode, s)
    requires inode.indirect2 != 0 && s.i2 < PointersPerBlock(fs) && p1 == PointersOf(fs, s.p2[s.i2])
    ensures Rest(fs, inode, s) == [Load(s.p2[s.i2])] + Rest(fs, inode, s.(p1 := p1, i1 := 0, i2 := s.i2 + 1))
  {
    hide PointersOf, Visits1, Visits2, Visits3, Datas;
    NothingBelow1(fs, inode, s);
    Visits2From(fs, inode, s.p2, s.i2);
    DatasOfNone(inode.direct);
    assert p1[0..] == p1;
  }

  /** Loading the next block of pointers to pointers over the second buffer. */
  lemma StepLoad2(fs: Fs, inode: Inode, s: Position, p2: seq<uint32>)
    requires Fits(fs, inode, s) && Level2Done(fs, inode, s)
    requires inode.indirect3 != 0 && s.i3 < PointersPerBlock(fs) && p2 == PointersOf(fs, s.p3[s.i3])
    ensures Rest(fs, inode, s) == [Load(s.p3[s.i3])] + Rest(fs, inode, s.(p2 := p2, i2 := 0, i3 := s.i3 + 1))
  {
    hide PointersOf, Visits1, Visits2, Visits3, Datas;
    NothingBelow1(fs, inode, s);
    NothingBelow1(fs, inode, s.(p2 := p2, i2 := 0, i3 := s.i3 + 1));
    Visits3From(fs, inode, s.p3, s.i3);
    VisitsOfNone(fs, inode, s.p2);
    assert p2[0..] == p2;
  }

  lemma VisitsOfNone(fs: Fs, inode: Inode, ps: seq<uint32>)
    ensures Visits2(fs, inode, ps[|ps|..]) == [] && Visits3(fs, inode, ps[|ps|..]) == []
    ensures inode.indirect2 == 0 ==> forall qs :: Visits2(fs, inode, qs) == []
    ensures inode.indirect3 == 0 ==> forall qs :: Visits3(fs, inode, qs) == []
  {
  }

  lemma RestAtEnd(fs: Fs, inode: Inode, s: Position)
    requires Fits(fs, inode, s) && Level2Done(fs, inode, s)
    requires inode.indirect3 == 0 || s.i3 == PointersPerBlock(fs)
    ensures Rest(fs, inode, s) == []
  {
    hide Visits2, Visits3;
    NothingBelow1(fs, inode, s);
    VisitsOfNone(fs, inode, s.p2);
    VisitsOfNone(fs, inode, s.p3);
  }
}
