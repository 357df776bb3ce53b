/**
  What the ext2 reader returns on a card that may fail (software/bios/ext2.c:71-230): every transfer has a number,
  and the card decides how many sectors each of them brings.  The results here are functions of that alone.
 */
module Ext2Faults {
  import opened MachineTypes
  import opened Arithmetic
  import opened Ext2Layout
  import opened Ext2Names
  import opened BlockTree

  /** How many sectors the card gets through in its t-th transfer: any fault pattern whatsoever. */
  type Delivery = nat -> nat

  /** What a request for `count` sectors brings: no more than the card holds. */
  function Arriving(fs: Fs, d: Delivery, t: nat, sector: uint32, count: nat): (n: nat)
    ensures n <= count
  {
    Least(count, Least(d(t), if sector < |fs.card| then |fs.card| - sector else 0))
  }

  // ---------------------------------------------------------------- whole blocks

  /** read_block does not even ask the card for a block that reaches its end. */
  predicate Refused(fs: Fs, block: uint32) {
    U32(SectorOf(fs, block) + SectorsPerBlock(fs)) >= |fs.card|
  }

  predicate LoadOk(fs: Fs, d: Delivery, t: nat, block: uint32) {
    !Refused(fs, block) && Arriving(fs, d, t, SectorOf(fs, block), SectorsPerBlock(fs)) == SectorsPerBlock(fs)
  }

  /** The number of the next transfer. */
  function AfterLoad(fs: Fs, t: nat, block: uint32): nat {
    if Refused(fs, block) then t else t + 1
  }

  /** The card delivers every request from now on, and its sectors are counted in 32 bits. */
  ghost predicate Healthy(fs: Fs, d: Delivery, t: nat) {
    |fs.card| < 0x1_0000_0000 && forall i :: i >= t ==> d(i) >= SectorsPerBlock(fs)
  }

  /** Blocks that read_block reads from a healthy card. */
  predicate Readable(fs: Fs, block: uint32) {
    SectorOf(fs, block) + SectorsPerBlock(fs) < |fs.card|
  }

  /** A healthy card yields a block exactly when the block ends before the last sector of the card. */
  lemma HealthyLoads(fs: Fs, d: Delivery, t: nat, block: uint32)
    requires Healthy(fs, d, t)
    ensures LoadOk(fs, d, t, block) <==> Readable(fs, block)
  {
    assert d(t) >= SectorsPerBlock(fs);
  }

  /** The block that ends with the last sector of a card can be transferred, but read_block refuses it. */
  lemma LastBlockRefused(fs: Fs, d: Delivery, t: nat, block: uint32)
    requires Healthy(fs, d, t) && SectorOf(fs, block) + SectorsPerBlock(fs) == |fs.card|
    ensures Arriving(fs, d, t, SectorOf(fs, block), SectorsPerBlock(fs)) == SectorsPerBlock(fs)
    ensures !LoadOk(fs, d, t, block)
  {
    assert d(t) >= SectorsPerBlock(fs);
  }

  /** How many accesses come off before the first one that fails, if all of them are whole blocks. */
  function Reach(fs: Fs, d: Delivery, t: nat, plan: seq<Access>): (n: nat)
    ensures n <= |plan|
    decreases |plan|
  {
    if plan == [] || !LoadOk(fs, d, t, plan[0].block) then 0 else 1 + Reach(fs, d, t + 1, plan[1..])
  }

  predicate AllReadable(fs: Fs, plan: seq<Access>) {
    forall i :: 0 <= i < |plan| ==> Readable(fs, plan[i].block)
  }

  lemma {:induction false} HealthyReach(fs: Fs, d: Delivery, t: nat, plan: seq<Access>)
    requires Healthy(fs, d, t) && AllReadable(fs, plan)
    ensures Reach(fs, d, t, plan) == |plan|
    decreases |plan|
  {
    hide LoadOk, Readable;
    if plan != [] {
      HealthyLoads(fs, d, t, plan[0].block);
      HealthyReach(fs, d, t + 1, plan[1..]);
    }
  }

  // ---------------------------------------------------------------- the next block of an iteration

  /** The loads before the next data block. */
  function Loads(plan: seq<Access>): (n: nat)
    ensures n <= |plan| && (n < |plan| ==> plan[n].Data?)
    ensures forall i :: 0 <= i < n ==> plan[i].Load?
    decreases |plan|
  {
    if plan == [] || plan[0].Data? then 0 else 1 + Loads(plan[1..])
  }

  /** The number of the next transfer after a list of loads, the last of which may have failed. */
  function AfterLoads(fs: Fs, d: Delivery, t: nat, loads: seq<Access>): nat {
    var n := Reach(fs, d, t, loads);
    if n == |loads| then t + n else AfterLoad(fs, t + n, loads[n].block)
  }

  lemma {:induction false} ReachAppend(fs: Fs, d: Delivery, t: nat, a: seq<Access>, b: seq<Access>)
    ensures Reach(fs, d, t, a + b) ==
            if Reach(fs, d, t, a) == |a| then |a| + Reach(fs, d, t + |a|, b) else Reach(fs, d, t, a)
    decreases |a|
  {
    hide LoadOk;
    if a == [] {
      assert a + b == b;
    } else {
      assert (a + b)[1..] == a[1..] + b;
      ReachAppend(fs, d, t + 1, a[1..], b);
    }
  }

  lemma ReachOne(fs: Fs, d: Delivery, t: nat, a: Access)
    ensures Reach(fs, d, t, [a]) == if LoadOk(fs, d, t, a.block) then 1 else 0
  {
    hide LoadOk;
    assert [a][1..] == [];
  }

  // ---------------------------------------------------------------- read_file

  /** The sectors that read_file asks for: a block, or what is missing of the size, in 32 bits. */
  function Wanted(fs: Fs, done: uint32, size: uint32): nat {
    Least(SectorsPerBlock(fs), U32(size - done + 511) / 512)
  }

  /** sdread with a count of 0 does not start a transfer. */
  function AfterRead(t: nat, count: nat): nat {
    if count == 0 then t else t + 1
  }

  /** The size that read_file returns when `done` bytes have been copied and `plan` is left. */
  function FileRun(fs: Fs, d: Delivery, t: nat, plan: seq<Access>, done: uint32, size: uint32): uint32
    decreases |plan|
  {
    if plan == [] then Least(done, size)
    else match plan[0]
      case Load(b) =>
        if LoadOk(fs, d, t, b) then FileRun(fs, d, t + 1, plan[1..], done, size) else Least(done, size)
      case Data(b) =>
        var n := Wanted(fs, done, size);
        if done < size && Arriving(fs, d, t, SectorOf(fs, b), n) == n then
          FileRun(fs, d, AfterRead(t, n), plan[1..], U32(done + 512 * n), size)
        else Least(done, size)
  }

  /** Loads at the front: they all come off, or the file ends here. */
  lemma {:induction false} FileLoads(fs: Fs, d: Delivery, t: nat, loads: seq<Access>, rest: seq<Access>, done: uint32, size: uint32)
    requires forall i :: 0 <= i < |loads| ==> loads[i].Load?
    ensures FileRun(fs, d, t, loads + rest, done, size) ==
            if Reach(fs, d, t, loads) == |loads| then FileRun(fs, d, t + |loads|, rest, done, size) else Least(done, size)
    decreases |loads|
  {
    hide LoadOk, Arriving, Wanted, Least;
    if loads == [] {
      assert loads + rest == rest;
    } else {
      assert (loads + rest)[0] == loads[0] && (loads + rest)[1..] == loads[1..] + rest;
      FileLoads(fs, d, t + 1, loads[1..], rest, done, size);
    }
  }

  /** The largest size for which the number of missing sectors does not wrap. */
  const LARGEST: int := 0xFFFF_FE00

  function RoundUp(size: int): int {
    (size + 511) / 512 * 512
  }

  lemma RoundUpBounds(size: int)
    ensures size <= RoundUp(size) < size + 512
  {
  }

  /** What has been copied after k blocks: whole blocks until the size is reached. */
  function CopiedAfter(fs: Fs, k: nat, size: nat): nat {
    Least(k * BlockSize(fs), RoundUp(size))
  }

  /** The next request, for a size that does not wrap. */
  lemma NextRequest(fs: Fs, k: nat, size: uint32)
    requires size <= LARGEST && CopiedAfter(fs, k, size) < size
    ensures CopiedAfter(fs, k, size) == k * BlockSize(fs)
    ensures CopiedAfter(fs, k, size) + 512 * Wanted(fs, CopiedAfter(fs, k, size), size) == CopiedAfter(fs, k + 1, size)
    ensures CopiedAfter(fs, k + 1, size) < 0x1_0000_0000 && Wanted(fs, CopiedAfter(fs, k, size), size) > 0
  {
    var spb := SectorsPerBlock(fs);
    assert spb > 0 && k * BlockSize(fs) == 512 * (k * spb) && (k + 1) * BlockSize(fs) == 512 * (k * spb + spb);
    hide SectorsPerBlock, BlockSize;
    RoundUpBounds(size);
    WholeSectors(k * spb, size);
  }

  lemma WholeSectors(m: nat, size: uint32)
    requires size <= LARGEST && 512 * m < size
    ensures 512 * (U32(size - 512 * m + 511) / 512) == RoundUp(size) - 512 * m && RoundUp(size) <= LARGEST
  {
  }

  /** Access i succeeds in its turn; a data block only has to bring the sectors that are wanted. */
  predicate Succeeds(fs: Fs, d: Delivery, t: nat, plan: seq<Access>, i: nat, size: uint32)
    requires i < |plan|
  {
    match plan[i]
    case Load(b) => LoadOk(fs, d, t + i, b)
    case Data(b) =>
      var done := CopiedAfter(fs, |BlocksOf(plan[..i])|, size);
      done < size <= LARGEST ==>
        Arriving(fs, d, t + i, SectorOf(fs, b), Wanted(fs, done, size)) == Wanted(fs, done, size)
  }

  lemma BlocksOfNext(plan: seq<Access>, k: nat)
    requires k < |plan|
    ensures BlocksOf(plan[..k + 1]) == BlocksOf(plan[..k]) + if plan[k].Data? then [plan[k].block] else []
  {
    assert plan[..k + 1] == plan[..k] + [plan[k]];
    BlocksOfAppend(plan[..k], [plan[k]]);
    OneBlock(plan[k]);
  }

  lemma {:induction false} BlocksOfPrefix(plan: seq<Access>, k: nat, n: nat)
    requires k <= n <= |plan|
    ensures BlocksOf(plan[..k]) <= BlocksOf(plan[..n])
    decreases n - k
  {
    if k < n {
      BlocksOfPrefix(plan, k, n - 1);
      BlocksOfNext(plan, n - 1);
    }
  }

  /** The state of read_file after k accesses. */
  function RunFrom(fs: Fs, d: Delivery, t: nat, plan: seq<Access>, k: nat, size: uint32): uint32
    requires k <= |plan| && size <= LARGEST
  {
    var done := CopiedAfter(fs, |BlocksOf(plan[..k])|, size);
    RoundUpBounds(size);
    FileRun(fs, d, t + k, plan[k..], done, size)
  }

  lemma Enough(fs: Fs, k: nat, n: nat, size: nat)
    requires k <= n && CopiedAfter(fs, k, size) >= size
    ensures Least(size, n * BlockSize(fs)) == size
  {
    hide BlockSize;
    if n * BlockSize(fs) < size {
      MulMonotone(k, n, BlockSize(fs));
      RoundUpBounds(size);
    }
  }

  lemma MulMonotone(k: nat, n: nat, s: nat)
    requires k <= n
    ensures k * s <= n * s
  {
    assert (n - k) * s == n * s - k * s;
  }

  lemma CopiedIsLeast(fs: Fs, k: nat, size: nat)
    ensures Least(CopiedAfter(fs, k, size), size) == Least(size, k * BlockSize(fs))
  {
    RoundUpBounds(size);
  }

  lemma StopHere(fs: Fs, d: Delivery, t: nat, plan: seq<Access>, k: nat, size: uint32)
    requires k <= |plan| && size <= LARGEST
    requires k == |plan| || !Succeeds(fs, d, t, plan, k, size)
             || (plan[k].Data? && CopiedAfter(fs, |BlocksOf(plan[..k])|, size) >= size)
    ensures RunFrom(fs, d, t, plan, k, size) == Least(size, |BlocksOf(plan[..k])| * BlockSize(fs))
  {
    hide BlocksOf, LoadOk, Arriving, Wanted, CopiedAfter, BlockSize;
    CopiedIsLeast(fs, |BlocksOf(plan[..k])|, size);
    if k < |plan| {
      assert plan[k..][0] == plan[k];
    }
  }

  lemma StepOver(fs: Fs, d: Delivery, t: nat, plan: seq<Access>, k: nat, size: uint32)
    requires k < |plan| && size <= LARGEST && Succeeds(fs, d, t, plan, k, size)
    requires plan[k].Load? || CopiedAfter(fs, |BlocksOf(plan[..k])|, size) < size
    ensures RunFrom(fs, d, t, plan, k, size) == RunFrom(fs, d, t, plan, k + 1, size)
  {
    hide BlocksOf, LoadOk, Arriving, Wanted, CopiedAfter, BlockSize, Least;
    assert plan[k..][0] == plan[k] && plan[k..][1..] == plan[k + 1..];
    BlocksOfNext(plan, k);
    if plan[k].Data? {
      NextRequest(fs, |BlocksOf(plan[..k])|, size);
    }
  }

  lemma {:induction false} RunStops(fs: Fs, d: Delivery, t: nat, plan: seq<Access>, k: nat, n: nat, size: uint32)
    requires k <= n <= |plan| && size <= LARGEST
    requires forall i :: k <= i < n ==> Succeeds(fs, d, t, plan, i, size)
    requires n == |plan| || !Succeeds(fs, d, t, plan, n, size)
    ensures RunFrom(fs, d, t, plan, k, size) == Least(size, |BlocksOf(plan[..n])| * BlockSize(fs))
    decreases n - k
  {
    hide BlocksOf, Succeeds, CopiedAfter, BlockSize, RunFrom, Least;
    var c := |BlocksOf(plan[..k])|;
    if k == n {
      StopHere(fs, d, t, plan, k, size);
    } else if plan[k].Data? && CopiedAfter(fs, c, size) >= size {
      StopHere(fs, d, t, plan, k, size);
      BlocksOfPrefix(plan, k, n);
      Enough(fs, c, c, size);
      Enough(fs, c, |BlocksOf(plan[..n])|, size);
    } else {
      StepOver(fs, d, t, plan, k, size);
      RunStops(fs, d, t, plan, k + 1, n, size);
    }
  }

  /** The exact size under every fault pattern: the whole blocks that come before the first access that fails, up to
      the size asked for. */
  lemma FileStopsAtFault(fs: Fs, d: Delivery, t: nat, plan: seq<Access>, n: nat, size: uint32)
    requires n <= |plan| && size <= LARGEST
    requires forall i :: 0 <= i < n ==> Succeeds(fs, d, t, plan, i, size)
    requires n == |plan| || !Succeeds(fs, d, t, plan, n, size)
    ensures FileRun(fs, d, t, plan, 0, size) == Least(size, |BlocksOf(plan[..n])| * BlockSize(fs))
  {
    hide FileRun, Succeeds, BlockSize, Least;
    RunStops(fs, d, t, plan, 0, n, size);
    NothingYet(fs, plan, size);
    assert plan[0..] == plan;
  }

  lemma NothingYet(fs: Fs, plan: seq<Access>, size: nat)
    ensures CopiedAfter(fs, |BlocksOf(plan[..0])|, size) == 0
  {
    RoundUpBounds(size);
  }

  /** With a size that wraps, read_file asks for no sectors at all. */
  lemma {:induction false} NothingForHugeSize(fs: Fs, d: Delivery, t: nat, plan: seq<Access>, size: uint32)
    requires size > LARGEST
    ensures FileRun(fs, d, t, plan, 0, size) == 0
    decreases |plan|
  {
    hide LoadOk, Arriving;
    if plan != [] {
      assert Wanted(fs, 0, size) == 0;
      NothingForHugeSize(fs, d, t, plan[1..], size);
      NothingForHugeSize(fs, d, t + 1, plan[1..], size);
    }
  }

  /** Pointer blocks that read_block reads, and data blocks on the card: read_file asks the card for those itself. */
  predicate FileReadable(fs: Fs, plan: seq<Access>) {
    forall i :: 0 <= i < |plan| ==>
      if plan[i].Load? then Readable(fs, plan[i].block)
      else SectorOf(fs, plan[i].block) + SectorsPerBlock(fs) <= |fs.card|
  }

  /** On a healthy card that holds all of them, every access succeeds: the size is that of the file, or what was asked. */
  lemma HealthyFile(fs: Fs, d: Delivery, t: nat, plan: seq<Access>, size: uint32)
    requires Healthy(fs, d, t) && FileReadable(fs, plan) && size <= LARGEST
    ensures FileRun(fs, d, t, plan, 0, size) == Least(size, |BlocksOf(plan)| * BlockSize(fs))
  {
    hide FileRun, BlockSize, Succeeds, FileReadable;
    forall i | 0 <= i < |plan|
      ensures Succeeds(fs, d, t, plan, i, size)
    {
      HealthyAccess(fs, d, t, plan, i, size);
    }
    FileStopsAtFault(fs, d, t, plan, |plan|, size);
    assert plan[..|plan|] == plan;
  }

  lemma HealthyAccess(fs: Fs, d: Delivery, t: nat, plan: seq<Access>, i: nat, size: uint32)
    requires Healthy(fs, d, t) && FileReadable(fs, plan) && i < |plan|
    ensures Succeeds(fs, d, t, plan, i, size)
  {
    hide CopiedAfter, LoadOk;
    HealthyLoads(fs, d, t + i, plan[i].block);
    assert d(t + i) >= SectorsPerBlock(fs);
  }

  // ---------------------------------------------------------------- read_dir

  /** The inode number that read_dir returns, and the number of the next transfer. */
  function DirRun(fs: Fs, d: Delivery, t: nat, plan: seq<Access>, name: Name): (uint32, nat)
    requires DirBlocksOk(fs, BlocksOf(plan))
    decreases |plan|
  {
    if plan == [] then (0, t)
    else if !LoadOk(fs, d, t, plan[0].block) then (0, AfterLoad(fs, t, plan[0].block))
    else
      RestOk(fs, plan);
      if plan[0].Load? then DirRun(fs, d, t + 1, plan[1..], name)
      else
        var f := FindInBlock(Block(fs, plan[0].block), 0, name);
        if f != 0 then (f, t + 1) else DirRun(fs, d, t + 1, plan[1..], name)
  }

  lemma {:induction false} DirLoads(fs: Fs, d: Delivery, t: nat, loads: seq<Access>, rest: seq<Access>, name: Name)
    requires forall i :: 0 <= i < |loads| ==> loads[i].Load?
    requires DirBlocksOk(fs, BlocksOf(loads + rest)) && DirBlocksOk(fs, BlocksOf(rest))
    ensures DirRun(fs, d, t, loads + rest, name) ==
            if Reach(fs, d, t, loads) == |loads| then DirRun(fs, d, t + |loads|, rest, name)
            else (0, AfterLoads(fs, d, t, loads))
    decreases |loads|
  {
    hide LoadOk, FindInBlock, DirBlocksOk, AfterLoad;
    if loads == [] {
      assert loads + rest == rest;
    } else {
      assert (loads + rest)[0] == loads[0] && (loads + rest)[1..] == loads[1..] + rest;
      RestOk(fs, loads + rest);
      DirLoads(fs, d, t + 1, loads[1..], rest, name);
    }
  }

  lemma RestOk(fs: Fs, plan: seq<Access>)
    requires plan != [] && DirBlocksOk(fs, BlocksOf(plan))
    ensures DirBlocksOk(fs, BlocksOf(plan[1..]))
    ensures plan[0].Data? ==> DirOk(Block(fs, plan[0].block), 0)
  {
    hide DirOk, Block;
    var b, r := BlocksOf(plan), BlocksOf(plan[1..]);
    if plan[0].Data? {
      assert b[0] == plan[0].block && b[1..] == r;
      forall i | 0 <= i < |r|
        ensures DirOk(Block(fs, r[i]), 0)
      {
        assert r[i] == b[i + 1];
      }
    } else {
      assert b == r;
    }
  }

  lemma PrefixOk(fs: Fs, plan: seq<Access>, n: nat)
    requires n <= |plan| && DirBlocksOk(fs, BlocksOf(plan))
    ensures DirBlocksOk(fs, BlocksOf(plan[..n]))
  {
    hide DirOk, Block;
    BlocksOfPrefix(plan, n, |plan|);
    assert plan[..|plan|] == plan;
    forall i | 0 <= i < |BlocksOf(plan[..n])|
      ensures DirOk(Block(fs, BlocksOf(plan[..n])[i]), 0)
    {
      assert BlocksOf(plan[..n])[i] == BlocksOf(plan)[i];
    }
  }

  /** The exact result under every fault pattern: the search of the blocks before the first access that fails. */
  lemma {:induction false} DirStopsAtFault(fs: Fs, d: Delivery, t: nat, plan: seq<Access>, name: Name)
    requires DirBlocksOk(fs, BlocksOf(plan))
    ensures DirBlocksOk(fs, BlocksOf(plan[..Reach(fs, d, t, plan)]))
    ensures DirRun(fs, d, t, plan, name).0 == FindInBlocks(fs, BlocksOf(plan[..Reach(fs, d, t, plan)]), name)
    decreases |plan|
  {
    hide LoadOk, DirOk, Block, FindInBlock, DirBlocksOk;
    var n := Reach(fs, d, t, plan);
    PrefixOk(fs, plan, n);
    if n > 0 {
      RestOk(fs, plan);
      PrefixOk(fs, plan[1..], n - 1);
      DirStopsAtFault(fs, d, t + 1, plan[1..], name);
      assert plan[..n][1..] == plan[1..][..n - 1];
      if plan[0].Data? {
        assert BlocksOf(plan[..n])[1..] == BlocksOf(plan[1..][..n - 1]);
      } else {
        assert BlocksOf(plan[..n]) == BlocksOf(plan[1..][..n - 1]);
      }
    }
  }

  /** Searching a part of the blocks finds nothing, or what searching all of them finds. */
  lemma {:induction false} PartialSearch(fs: Fs, part: seq<uint32>, all: seq<uint32>, name: Name)
    requires part <= all && DirBlocksOk(fs, all) && DirBlocksOk(fs, part)
    ensures FindInBlocks(fs, part, name) != 0 ==> FindInBlocks(fs, part, name) == FindInBlocks(fs, all, name)
    decreases |part|
  {
    hide DirOk, Block, FindInBlock;
    if part != [] {
      assert part[0] == all[0];
      PartialSearch(fs, part[1..], all[1..], name);
    }
  }

  lemma DirRunSound(fs: Fs, d: Delivery, t: nat, plan: seq<Access>, name: Name)
    requires DirBlocksOk(fs, BlocksOf(plan))
    ensures DirRun(fs, d, t, plan, name).0 != 0 ==> DirRun(fs, d, t, plan, name).0 == FindInBlocks(fs, BlocksOf(plan), name)
    ensures Healthy(fs, d, t) && AllReadable(fs, plan) ==>
              DirRun(fs, d, t, plan, name).0 == FindInBlocks(fs, BlocksOf(plan), name)
  {
    hide DirRun, FindInBlocks, DirBlocksOk, AllReadable;
    var n := Reach(fs, d, t, plan);
    DirStopsAtFault(fs, d, t, plan, name);
    BlocksOfPrefix(plan, n, |plan|);
    assert plan[..|plan|] == plan;
    PartialSearch(fs, BlocksOf(plan[..n]), BlocksOf(plan), name);
    if Healthy(fs, d, t) && AllReadable(fs, plan) {
      HealthyReach(fs, d, t, plan);
    }
  }

  lemma {:induction false} DirRunForward(fs: Fs, d: Delivery, t: nat, plan: seq<Access>, name: Name)
    requires DirBlocksOk(fs, BlocksOf(plan))
    ensures DirRun(fs, d, t, plan, name).1 >= t
    decreases |plan|
  {
    hide LoadOk, FindInBlock, DirBlocksOk;
    if plan != [] {
      RestOk(fs, plan);
      DirRunForward(fs, d, t + 1, plan[1..], name);
    }
  }

  // ---------------------------------------------------------------- find_inode

  /** Everything that reading the blocks of an inode accesses. */
  function PlanOf(fs: Fs, inode: Inode): seq<Access> {
    FirstLoads(inode) + Visits(fs, inode)
  }

  lemma PlanBlocks(fs: Fs, inode: Inode)
    ensures BlocksOf(PlanOf(fs, inode)) == BlocksRead(fs, inode)
  {
    hide BlocksRead, Visits;
    VisitsTheTree(fs, inode);
    BlocksOfAppend(FirstLoads(inode), Visits(fs, inode));
    BlocksOfAppend(FirstLoad(inode.indirect1), FirstLoad(inode.indirect2) + FirstLoad(inode.indirect3));
    BlocksOfAppend(FirstLoad(inode.indirect2), FirstLoad(inode.indirect3));
    FirstLoadHasNone(inode.indirect1);
    FirstLoadHasNone(inode.indirect2);
    FirstLoadHasNone(inode.indirect3);
  }

  lemma FirstLoadHasNone(pointer: uint32)
    ensures BlocksOf(FirstLoad(pointer)) == []
  {
    OneBlock(Load(pointer));
  }

  /** What find_inode finds from inode `ino` on, with block `loaded` in the inode buffer: 0 if nothing. */
  function WalkRun(fs: Fs, d: Delivery, t: nat, loaded: uint32, ino: uint32, path: seq<byte>): uint32
    requires WalkOk(fs, ino, path)
    decreases |path|
  {
    if ino == 0 then 0
    else
      var block := InodeBlock(fs, ino);
      if loaded != block && !LoadOk(fs, d, t, block) then 0
      else if path == [] then ino
      else
        var t1 := if loaded == block then t else t + 1;
        var plan := PlanOf(fs, DiskInode(fs, ino));
        PlanBlocks(fs, DiskInode(fs, ino));
        DirRunSound(fs, d, t1, plan, Component(path));
        var run := DirRun(fs, d, t1, plan, Component(path));
        WalkRun(fs, d, run.1, block, run.0, AfterComponent(path))
  }

  /** Every block on the way is one that read_block reads from a healthy card. */
  predicate WalkReadable(fs: Fs, ino: uint32, path: seq<byte>)
    requires WalkOk(fs, ino, path)
    decreases |path|
  {
    ino == 0 || (Readable(fs, InodeBlock(fs, ino)) &&
      (path == [] ||
        (AllReadable(fs, PlanOf(fs, DiskInode(fs, ino))) &&
          WalkReadable(fs, FindInBlocks(fs, BlocksRead(fs, DiskInode(fs, ino)), Component(path)), AfterComponent(path)))))
  }

  /** Whatever the card does, what is found is what the path names; on a healthy card it is always found. */
  lemma {:induction false} WalkRunFinds(fs: Fs, d: Delivery, t: nat, loaded: uint32, ino: uint32, path: seq<byte>)
    requires WalkOk(fs, ino, path)
    ensures WalkRun(fs, d, t, loaded, ino, path) != 0 ==> WalkRun(fs, d, t, loaded, ino, path) == Walk(fs, ino, path)
    ensures Healthy(fs, d, t) && WalkReadable(fs, ino, path) ==> WalkRun(fs, d, t, loaded, ino, path) == Walk(fs, ino, path)
    decreases |path|
  {
    hide LoadOk, DirRun, FindInBlocks, BlocksRead, PlanOf, AllReadable, Readable, DiskInode, InodeBlock, Component, AfterComponent, IndexInGroup, InodesPerBlock;
    if ino != 0 {
      var block := InodeBlock(fs, ino);
      if Healthy(fs, d, t) {
        HealthyLoads(fs, d, t, block);
      }
      if path != [] && (loaded == block || LoadOk(fs, d, t, block)) {
        var t1 := if loaded == block then t else t + 1;
        var plan := PlanOf(fs, DiskInode(fs, ino));
        PlanBlocks(fs, DiskInode(fs, ino));
        DirRunSound(fs, d, t1, plan, Component(path));
        DirRunForward(fs, d, t1, plan, Component(path));
        var run := DirRun(fs, d, t1, plan, Component(path));
        WalkRunFinds(fs, d, run.1, block, run.0, AfterComponent(path));
      }
    }
  }
}
