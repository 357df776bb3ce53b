/**
  The ext2 reader of the BIOS (software/bios/ext2.c): one buffer for inodes, one for directories and three for
  block pointers, which the levels of a large file overwrite for each other.
 */
module Ext2Reader {
  import opened MachineTypes
  import BitWords
  import opened Arithmetic
  import opened Ext2Layout
  import opened Ext2Names
  import opened BlockTree
  import opened Ext2Faults
  import Ext2Card

  /** struct BlockIterator */
  class BlockIterator {
    var inode: Inode
    var i0: nat
    var i1: nat
    var i2: nat
    var i3: nat

    constructor (inode: Inode)
      ensures this.inode == inode && i0 == i1 == i2 == i3 == 0
    {
      this.inode := inode;
      i0, i1, i2, i3 := 0, 0, 0, 0;
    }
  }

  class Reader {
    const fs: Fs
    const delivers: Delivery
    /** The number of the next transfer. */
    var transfers: nat

    var inodeBuf: seq<byte>
    var inodeBufLoaded: uint32
    var indirect1: seq<byte>
    var indirect2: seq<byte>
    var indirect3: seq<byte>
    var dirBuf: seq<byte>

    ghost predicate Valid()
      reads this
    {
      && |inodeBuf| == |indirect1| == |indirect2| == |indirect3| == |dirBuf| == BlockSize(fs)
      && (inodeBufLoaded != NO_BLOCK ==> inodeBuf == Block(fs, inodeBufLoaded))
    }

    constructor (fs: Fs, delivers: Delivery)
      ensures Valid() && this.fs == fs && this.delivers == delivers && transfers == 0
    {
      this.fs, this.delivers := fs, delivers;
      transfers := 0;
      inodeBufLoaded := NO_BLOCK;
      inodeBuf := seq(BlockSize(fs), _ => 0);
      indirect1 := seq(BlockSize(fs), _ => 0);
      indirect2 := seq(BlockSize(fs), _ => 0);
      indirect3 := seq(BlockSize(fs), _ => 0);
      dirBuf := seq(BlockSize(fs), _ => 0);
    }

    /** The card driver: the sectors that arrive, in order; a request for none is no transfer. */
    method SdRead(sector: uint32, count: nat) returns (n: nat, data: seq<byte>)
      modifies this`transfers
      ensures n == Arriving(fs, delivers, old(transfers), sector, count) && data == Sectors(fs.card, sector, n)
      ensures transfers == AfterRead(old(transfers), count)
      ensures n > 0 ==> sector + n <= |fs.card|
    {
      if count == 0 {
        return 0, [];
      }
      n := Arriving(fs, delivers, transfers, sector, count);
      transfers := transfers + 1;
      data := [];
      var i := 0;
      while i < n
        invariant 0 <= i <= n && data == Sectors(fs.card, sector, i)
      {
        data := data + fs.card[sector + i];
        i := i + 1;
      }
    }

    /** read_block(dst, block), where dst held `dst`: it succeeds exactly when the block is not refused and all of its
        sectors arrive. */
    method ReadBlock(dst: seq<byte>, block: uint32) returns (ok: bool, buf: seq<byte>)
      requires |dst| == BlockSize(fs)
      modifies this`transfers
      ensures |buf| == BlockSize(fs)
      ensures ok <==> LoadOk(fs, delivers, old(transfers), block)
      ensures ok ==> buf == Block(fs, block) && Ext2Card.FromCard(fs, block, buf)
      ensures Refused(fs, block) ==> buf == dst
      ensures transfers == AfterLoad(fs, old(transfers), block)
    {
      var sectors := SectorsPerBlock(fs);
      if U32(SectorOf(fs, block) + sectors) >= |fs.card| {
        return false, dst;
      }
      var count, data := SdRead(SectorOf(fs, block), sectors);
      buf := data + dst[|data|..];
      ok := count == sectors;
      if ok {
        assert buf == data;
        Ext2Card.BlockFromCard(fs, block);
      }
    }

    ghost function PositionOf(iter: BlockIterator): Position
      reads this, iter
    {
      Position(iter.i0, iter.i1, iter.i2, iter.i3, Pointers(indirect1), Pointers(indirect2), Pointers(indirect3))
    }

    ghost predicate Iterating(iter: BlockIterator)
      reads this, iter
    {
      Valid() && Fits(fs, iter.inode, PositionOf(iter))
    }

    /** The accesses that next_block and its caller have still to make. */
    ghost function Remaining(iter: BlockIterator): seq<Access>
      reads this, iter
      requires Iterating(iter)
    {
      Rest(fs, iter.inode, PositionOf(iter))
    }

    /** Loads one of the pointer buffers of a new iterator, if the inode has that pointer. */
    method LoadPointers(dst: seq<byte>, pointer: uint32) returns (ok: bool, buf: seq<byte>)
      requires |dst| == BlockSize(fs)
      modifies this`transfers
      ensures |buf| == BlockSize(fs)
      ensures ok <==> Reach(fs, delivers, old(transfers), FirstLoad(pointer)) == |FirstLoad(pointer)|
      ensures ok && pointer != 0 ==> Pointers(buf) == PointersOf(fs, pointer)
      ensures transfers == AfterLoads(fs, delivers, old(transfers), FirstLoad(pointer))
    {
      hide LoadOk, Block, Pointers, SectorsPerBlock;
      ok, buf := true, dst;
      if pointer != 0 {
        ReachOne(fs, delivers, transfers, Load(pointer));
        LoadAdvances(fs, delivers, transfers, pointer);
        ok, buf := ReadBlock(dst, pointer);
      }
    }

    /** An iteration starts exactly when all its first loads come off. */
    method StartBlockIter(inode: Inode) returns (ok: bool, iter: BlockIterator)
      requires Valid() && |inode.direct| == 12
      modifies this`transfers, this`indirect1, this`indirect2, this`indirect3
      ensures Valid() && fresh(iter) && iter.inode == inode
      ensures ok <==> Reach(fs, delivers, old(transfers), FirstLoads(inode)) == |FirstLoads(inode)|
      ensures ok ==> Iterating(iter) && Remaining(iter) == Visits(fs, inode)
      ensures transfers == AfterLoads(fs, delivers, old(transfers), FirstLoads(inode))
    {
      hide Pointers, PointersOf, Visits, Rest, Block, SectorsPerBlock, Reach, FirstLoad, LoadOk;
      iter := new BlockIterator(inode);
      FirstLoadsInTurn(fs, delivers, transfers, inode);
      ok, indirect1 := LoadPointers(indirect1, inode.indirect1);
      if !ok { return; }
      ok, indirect2 := LoadPointers(indirect2, inode.indirect2);
      if !ok { return; }
      ok, indirect3 := LoadPointers(indirect3, inode.indirect3);
      if !ok { return; }
      RestAtStart(fs, inode, PositionOf(iter));
    }

    /** The next direct pointer; a null pointer is passed over. */
    method TakeDirect(iter: BlockIterator) returns (block: uint32)
      requires Iterating(iter) && iter.i0 < 12
      modifies iter`i0
      ensures Iterating(iter) && iter.i0 == old(iter.i0) + 1
      ensures IfData(block) + Remaining(iter) == old(Remaining(iter))
    {
      hide Pointers, Rest, Block, SectorsPerBlock;
      StepDirect(fs, iter.inode, PositionOf(iter));
      block := iter.inode.direct[iter.i0];
      iter.i0 := iter.i0 + 1;
    }

    /** The next pointer of the first buffer; a null pointer is passed over. */
    method TakePointer(iter: BlockIterator) returns (block: uint32)
      requires Iterating(iter) && iter.i0 == 12 && iter.inode.indirect1 != 0 && iter.i1 < PointersPerBlock(fs)
      modifies iter`i1
      ensures Iterating(iter) && iter.i1 == old(iter.i1) + 1
      ensures IfData(block) + Remaining(iter) == old(Remaining(iter))
    {
      hide Pointers, Rest, Block, SectorsPerBlock;
      StepPointer(fs, iter.inode, PositionOf(iter));
      block := Pointers(indirect1)[iter.i1];
      iter.i1 := iter.i1 + 1;
    }

    /** New data pointers over the first buffer, from the next pointer of the second. */
    method Refill1(iter: BlockIterator) returns (ok: bool, ghost next: uint32)
      requires Iterating(iter) && Level1Done(fs, iter.inode, PositionOf(iter))
      requires iter.inode.indirect2 != 0 && iter.i2 < PointersPerBlock(fs)
      modifies iter`i1, iter`i2, this`indirect1, this`transfers
      ensures Iterating(iter) && iter.i2 == old(iter.i2) + 1
      ensures old(Remaining(iter)) != [] && old(Remaining(iter))[0] == Load(next)
      ensures ok <==> LoadOk(fs, delivers, old(transfers), next)
      ensures ok ==> [Load(next)] + Remaining(iter) == old(Remaining(iter))
      ensures transfers == AfterLoad(fs, old(transfers), next)
    {
      hide Pointers, Rest, Block, SectorsPerBlock, LoadOk;
      ghost var s := PositionOf(iter);
      var pointer := Pointers(indirect2)[iter.i2];
      next := pointer;
      StepLoad1(fs, iter.inode, s, PointersOf(fs, pointer));
      iter.i2 := iter.i2 + 1;
      ok, indirect1 := ReadBlock(indirect1, pointer);
      if ok {
        iter.i1 := 0;
      }
    }

    /** New pointers to pointers over the second buffer, from the next pointer of the third. */
    method Refill2(iter: BlockIterator) returns (ok: bool, ghost next: uint32)
      requires Iterating(iter) && Level2Done(fs, iter.inode, PositionOf(iter))
      requires iter.inode.indirect3 != 0 && iter.i3 < PointersPerBlock(fs)
      modifies iter`i2, iter`i3, this`indirect2, this`transfers
      ensures Iterating(iter) && iter.i3 == old(iter.i3) + 1
      ensures old(Remaining(iter)) != [] && old(Remaining(iter))[0] == Load(next)
      ensures ok <==> LoadOk(fs, delivers, old(transfers), next)
      ensures ok ==> [Load(next)] + Remaining(iter) == old(Remaining(iter))
      ensures transfers == AfterLoad(fs, old(transfers), next)
    {
      hide Pointers, Rest, Block, SectorsPerBlock, LoadOk;
      ghost var s := PositionOf(iter);
      var pointer := Pointers(indirect3)[iter.i3];
      next := pointer;
      StepLoad2(fs, iter.inode, s, PointersOf(fs, pointer));
      iter.i3 := iter.i3 + 1;
      ok, indirect2 := ReadBlock(indirect2, pointer);
      if ok {
        iter.i2 := 0;
      }
    }

    /** Each call makes the loads before the next data block, in order.  If they all come off it returns that block, or
        0 when there is none left; it returns 0 after the first load that fails. */
    method NextBlock(iter: BlockIterator) returns (block: uint32)
      requires Iterating(iter)
      modifies iter`i0, iter`i1, iter`i2, iter`i3, this`transfers, this`indirect1, this`indirect2
      ensures Iterating(iter)
      ensures var plan := old(Remaining(iter));
              var k := Loads(plan);
              && transfers == AfterLoads(fs, delivers, old(transfers), plan[..k])
              && (if Reach(fs, delivers, old(transfers), plan[..k]) < k then block == 0
                  else if k < |plan| then block == plan[k].block && block != 0 && Remaining(iter) == plan[k + 1..]
                  else block == 0 && Remaining(iter) == [])
    {
      hide Pointers, Rest, Block, SectorsPerBlock, LoadOk, Loads, Reach, AfterLoad;
      var maxI := PointersPerBlock(fs);
      ghost var plan, j := Remaining(iter), 0;
      NoLoadsYet(fs, delivers, transfers, plan);
      while true
        invariant Iterating(iter) && 0 <= j <= Loads(plan)
        invariant Remaining(iter) == plan[j..] && transfers == old(transfers) + j
        invariant Reach(fs, delivers, old(transfers), plan[..j]) == j
        decreases maxI - iter.i3, maxI - iter.i2, maxI - iter.i1, 12 - iter.i0
      {
        if iter.i0 < 12 {
          block := TakeDirect(iter);
          if block != 0 {
            DataComesNext(plan, j, block, Remaining(iter));
            return;
          } else {
            assert [] + Remaining(iter) == Remaining(iter);
            continue;
          }
        }
        if iter.inode.indirect1 != 0 && iter.i1 < maxI {
          block := TakePointer(iter);
          if block != 0 {
            DataComesNext(plan, j, block, Remaining(iter));
            return;
          } else {
            assert [] + Remaining(iter) == Remaining(iter);
            continue;
          }
        }
        if iter.inode.indirect2 != 0 && iter.i2 < maxI {
          var ok;
          ghost var next;
          ok, next := Refill1(iter);
          LoadComesNext(fs, delivers, old(transfers), plan, j, next);
          if !ok { return 0; }
          LoadDone(plan, j, next, Remaining(iter));
          j := j + 1;
          continue;
        }
        if iter.inode.indirect3 != 0 && iter.i3 < maxI {
          var ok;
          ghost var next;
          ok, next := Refill2(iter);
          LoadComesNext(fs, delivers, old(transfers), plan, j, next);
          if !ok { return 0; }
          LoadDone(plan, j, next, Remaining(iter));
          j := j + 1;
          continue;
        }
        RestAtEnd(fs, iter.inode, PositionOf(iter));
        assert j == |plan|;
        return 0;
      }
    }

    /** Data arriving in memory at `dst + at`. */
    method Store(dst: array<byte>, at: nat, data: seq<byte>)
      requires at + |data| <= dst.Length
      modifies dst
      ensures forall j :: 0 <= j < |data| ==> dst[at + j] == data[j]
      ensures forall j :: 0 <= j < dst.Length && !(at <= j < at + |data|) ==> dst[j] == old(dst[j])
    {
      var i := 0;
      while i < |data|
        invariant 0 <= i <= |data|
        invariant forall j :: 0 <= j < i ==> dst[at + j] == data[j]
        invariant forall j :: 0 <= j < dst.Length && !(at <= j < at + i) ==> dst[j] == old(dst[j])
      {
        dst[at + i] := data[i];
        i := i + 1;
      }
    }

    /** One block of a file, or the sectors of it that are wanted. */
    method ReadInto(dst: array<byte>, at: nat, block: uint32, sectors: nat) returns (ok: bool)
      requires sectors <= SectorsPerBlock(fs) && at + 512 * sectors <= dst.Length
      modifies dst, this`transfers
      ensures dst[..][..at] == old(dst[..])[..at] && dst[..][at + 512 * sectors..] == old(dst[..])[at + 512 * sectors..]
      ensures ok <==> Arriving(fs, delivers, old(transfers), SectorOf(fs, block), sectors) == sectors
      ensures ok ==> dst[..][at..at + 512 * sectors] == Block(fs, block)[..512 * sectors]
      ensures transfers == AfterRead(old(transfers), sectors)
    {
      hide Sectors, SectorsPerBlock, Arriving;
      var n, data := SdRead(SectorOf(fs, block), sectors);
      Store(dst, at, data);
      SectorsPrefix(fs.card, SectorOf(fs, block), n, SectorsPerBlock(fs));
      ok := n == sectors;
    }

    /** The destination after k blocks. */
    ghost predicate Copying(dst: array<byte>, blocks: seq<uint32>, k: nat, sizeDone: int, maxSize: int)
      reads dst
    {
      && Copied(fs, k, sizeDone, maxSize)
      && 0 <= sizeDone <= |Content(fs, blocks)| && sizeDone <= RoundUp(maxSize) <= dst.Length
      && dst[..][..sizeDone] == Content(fs, blocks)[..sizeDone]
    }

    /** The loop body of read_file. */
    method CopyBlock(dst: array<byte>, block: uint32, sizeDone: uint32, maxSize: uint32, ghost blocks: seq<uint32>, ghost k: nat)
        returns (ok: bool, done: uint32)
      requires k < |blocks| && block == blocks[k] && sizeDone < maxSize && Copying(dst, blocks, k, sizeDone, maxSize)
      modifies dst, this`transfers
      ensures var n := Wanted(fs, sizeDone, maxSize);
              && (ok <==> Arriving(fs, delivers, old(transfers), SectorOf(fs, block), n) == n)
              && transfers == AfterRead(old(transfers), n)
              && (ok ==> done == U32(sizeDone + 512 * n))
      ensures ok ==> Copying(dst, blocks, k + 1, done, maxSize)
      ensures !ok ==> done == sizeDone && dst[..][..sizeDone] == old(dst[..])[..sizeDone]
      ensures dst[..][RoundUp(maxSize)..] == old(dst[..])[RoundUp(maxSize)..]
    {
      hide Block, SectorsPerBlock, RoundUp, Copied, Sectors, Arriving, Content, Wanted;
      var sectors := SectorsPerBlock(fs);
      var sectorsLimit := U32(maxSize - sizeDone + 511) / 512;
      if sectors > sectorsLimit { sectors := sectorsLimit; }
      CopyMore(fs, k, sizeDone, maxSize, sectors);
      SectorsWanted(fs, sizeDone, maxSize, sectors);
      ContentNext(fs, blocks, k);
      ghost var was := dst[..];
      done := sizeDone;
      ok := ReadInto(dst, sizeDone, block, sectors);
      KeptAround(was, dst[..], sizeDone, sizeDone + 512 * sectors, RoundUp(maxSize));
      if ok {
        done := sizeDone + sectors * 512;
        Extended(dst[..], Content(fs, blocks), Block(fs, block), sizeDone, 512 * sectors, BlockSize(fs));
      }
    }

    /** In the loop of read_file: `block` is the next block to copy, if there is one, and `result` what will be returned. */
    ghost predicate Reading(iter: BlockIterator, dst: array<byte>, block: uint32, sizeDone: uint32, maxSize: uint32,
                            blocks: seq<uint32>, k: nat, result: uint32)
      reads this, iter, dst
    {
      && Iterating(iter) && k <= |blocks| && Copying(dst, blocks, k, sizeDone, maxSize)
      && (if block == 0 then result == Least(sizeDone, maxSize)
          else
            && blocks[k..] == [block] + BlocksOf(Remaining(iter))
            && FileRun(fs, delivers, transfers, [Data(block)] + Remaining(iter), sizeDone, maxSize) == result)
    }

    /** The body of the loop in read_file. */
    method CopyAndAdvance(iter: BlockIterator, dst: array<byte>, block: uint32, sizeDone: uint32, maxSize: uint32,
                          ghost blocks: seq<uint32>, ghost k: nat, ghost result: uint32)
        returns (ok: bool, done: uint32, next: uint32)
      requires block != 0 && sizeDone < maxSize && Reading(iter, dst, block, sizeDone, maxSize, blocks, k, result)
      modifies dst, this`transfers, this`indirect1, this`indirect2, iter`i0, iter`i1, iter`i2, iter`i3
      ensures Valid() && k < |blocks|
      ensures ok ==> Reading(iter, dst, next, done, maxSize, blocks, k + 1, result)
      ensures !ok ==> done == result == sizeDone && dst[..][..sizeDone] == old(dst[..])[..sizeDone]
      ensures dst[..][RoundUp(maxSize)..] == old(dst[..])[RoundUp(maxSize)..]
    {
      hide Block, SectorsPerBlock, RoundUp, Copied, Content, FileRun, Loads, Reach, BlocksOf, Arriving, Wanted, AfterLoads, Sectors, Fits, Rest, U32,
           SectorOf, AfterRead;
      BlockAhead(blocks, k, block, BlocksOf(Remaining(iter)));
      DataInFile(fs, delivers, transfers, block, Remaining(iter), sizeDone, maxSize);
      next := 0;
      ok, done := CopyBlock(dst, block, sizeDone, maxSize, blocks, k);
      if !ok { return; }
      NextInFile(fs, delivers, transfers, Remaining(iter), done, maxSize);
      next := NextBlock(iter);
    }

    /** What read_file does before its loop. */
    method BeginFile(inode: Inode, dst: array<byte>, maxSize: uint32, ghost blocks: seq<uint32>, ghost result: uint32)
        returns (ok: bool, iter: BlockIterator, block: uint32)
      requires Valid() && |inode.direct| == 12 && RoundUp(maxSize) <= dst.Length
      requires blocks == BlocksRead(fs, inode) && result == FileRun(fs, delivers, transfers, PlanOf(fs, inode), 0, maxSize)
      modifies this`transfers, this`indirect1, this`indirect2, this`indirect3
      ensures Valid() && fresh(iter)
      ensures if ok then Reading(iter, dst, block, 0, maxSize, blocks, 0, result) else result == 0
    {
      hide Block, BlocksRead, SectorsPerBlock, RoundUp, Copied, Content, FileRun, Loads, Reach, PlanOf, BlocksOf, Visits, FirstLoads,
           AfterLoads;
      FileBegins(fs, delivers, transfers, inode, maxSize);
      block := 0;
      ok, iter := StartBlockIter(inode);
      if !ok { return; }
      RoundUpBounds(maxSize);
      NothingCopied(fs, maxSize);
      assert blocks[0..] == blocks;
      NextInFile(fs, delivers, transfers, Remaining(iter), 0, maxSize);
      block := NextBlock(iter);
    }

    /** The statements of read_file. */
    method CopyFile(inode: Inode, dst: array<byte>, maxSize: uint32) returns (size: uint32)
      requires Valid() && |inode.direct| == 12 && RoundUp(maxSize) <= dst.Length
      modifies dst, this`transfers, this`indirect1, this`indirect2, this`indirect3
      ensures Valid() && size == FileRun(fs, delivers, old(transfers), PlanOf(fs, inode), 0, maxSize)
      ensures var content := Content(fs, BlocksRead(fs, inode));
              size <= maxSize && size <= |content| && dst[..][..size] == content[..size]
      ensures dst[..][RoundUp(maxSize)..] == old(dst[..])[RoundUp(maxSize)..]
    {
      hide Block, BlocksRead, SectorsPerBlock, RoundUp, Copied, Content, FileRun, PlanOf, BlocksOf, Fits, Rest;
      ghost var result, blocks, was := FileRun(fs, delivers, transfers, PlanOf(fs, inode), 0, maxSize), BlocksRead(fs, inode), dst[..];
      var ok, iter, block := BeginFile(inode, dst, maxSize, blocks, result);
      if !ok { return 0; }
      ghost var k := 0;
      var sizeDone: uint32 := 0;
      while block != 0 && sizeDone < maxSize
        invariant Valid() && Reading(iter, dst, block, sizeDone, maxSize, blocks, k, result)
        invariant dst[..][RoundUp(maxSize)..] == was[RoundUp(maxSize)..]
        decreases |blocks| - k, block != 0
      {
        ok, sizeDone, block := CopyAndAdvance(iter, dst, block, sizeDone, maxSize, blocks, k, result);
        if !ok { return sizeDone; }
        k := k + 1;
      }
      if block != 0 {
        DataInFile(fs, delivers, transfers, block, Remaining(iter), sizeDone, maxSize);
      }
      size := if sizeDone < maxSize then sizeDone else maxSize;
      PrefixOfPrefix(dst[..], Content(fs, blocks), size, sizeDone);
    }

    /** The size is exactly what the transfers of the card make it (`Ext2Faults.FileStopsAtFault`), and as many bytes of
        the destination are the first bytes of the file.  A healthy card that holds all blocks gives the whole file, or
        as much as was asked for.  Nothing beyond `maxSize`, rounded up to a sector, is written. */
    method ReadFile(inode: Inode, dst: array<byte>, maxSize: uint32) returns (size: uint32)
      requires Valid() && |inode.direct| == 12 && RoundUp(maxSize) <= dst.Length
      modifies dst, this`transfers, this`indirect1, this`indirect2, this`indirect3
      ensures Valid()
      ensures size == FileRun(fs, delivers, old(transfers), PlanOf(fs, inode), 0, maxSize)
      ensures var content := Content(fs, BlocksRead(fs, inode));
              && size <= maxSize && size <= |content| && dst[..][..size] == content[..size]
              && Ext2Card.FileFromCard(fs, inode, dst[..][..size])
              && (Healthy(fs, delivers, old(transfers)) && FileReadable(fs, PlanOf(fs, inode)) && maxSize <= LARGEST ==>
                    size == Least(maxSize, |content|))
      ensures maxSize > LARGEST ==> size == 0
      ensures dst[..][RoundUp(maxSize)..] == old(dst[..])[RoundUp(maxSize)..]
    {
      hide BlocksRead, RoundUp, Content, FileRun, PlanOf, FileReadable;
      FileResults(fs, delivers, transfers, inode, maxSize);
      RoundUpBounds(maxSize);
      size := CopyFile(inode, dst, maxSize);
      Ext2Card.PrefixFromCard(fs, inode, dst[..][..size]);
    }

    /** Makes sure that the inode buffer holds `block`; nothing is read if it does already. */
    method LoadInodeBlock(block: uint32) returns (ok: bool)
      requires Valid() && block != NO_BLOCK
      modifies this`transfers, this`inodeBuf, this`inodeBufLoaded
      ensures Valid()
      ensures ok <==> old(inodeBufLoaded) == block || LoadOk(fs, delivers, old(transfers), block)
      ensures inodeBufLoaded == if ok then block else NO_BLOCK
      ensures old(inodeBufLoaded) == block ==> transfers == old(transfers) && inodeBuf == old(inodeBuf)
      ensures old(inodeBufLoaded) != block ==> transfers == AfterLoad(fs, old(transfers), block)
    {
      hide Block, SectorsPerBlock, LoadOk;
      ok := true;
      if inodeBufLoaded != block {
        ok, inodeBuf := ReadBlock(inodeBuf, block);
        if ok {
          inodeBufLoaded := block;
        } else {
          inodeBufLoaded := NO_BLOCK;
        }
      }
    }

    /** The inode with number `ino` starts at `place` in the inode buffer. */
    ghost predicate Holds(place: nat, ino: uint32)
      reads this
    {
      && KnownInode(fs, ino) && place + 128 <= |inodeBuf| && ParseInode(inodeBuf[place..]) == DiskInode(fs, ino)
      && Ext2Card.InodeFromCard(fs, ino, inodeBuf[place..place + 128])
    }

    /** The place in the inode buffer of an inode: there is one exactly if its block was there or could be loaded. */
    method GetInode(ino: uint32) returns (r: Option<nat>)
      requires Valid() && (ino != 0 ==> KnownInode(fs, ino))
      modifies this`transfers, this`inodeBuf, this`inodeBufLoaded
      ensures Valid()
      ensures r.Some? <==> ino != 0 && (old(inodeBufLoaded) == InodeBlock(fs, ino)
                                        || LoadOk(fs, delivers, old(transfers), InodeBlock(fs, ino)))
      ensures r.Some? ==> Holds(r.value, ino) && inodeBufLoaded == InodeBlock(fs, ino)
      ensures r.Some? ==> transfers == old(transfers) + if old(inodeBufLoaded) == InodeBlock(fs, ino) then 0 else 1
    {
      hide Block, ParseInode, SectorsPerBlock, InodesPerBlock, InodeBlock, InodeOffset, InodeAddress, Pointers, Arriving;
      if ino == 0 { return None; }
      var place := InodeAddress(fs, ino);
      var ok := LoadInodeBlock(place.0);
      if ok { Ext2Card.InodeComesFromCard(fs, ino, inodeBuf, place.1); }
      r := if ok then Some(place.1) else None;
    }

    /** Whether the entry at `pos` of the directory buffer is the first component of `search`. */
    method EntryMatches(pos: nat, search: seq<byte>) returns (found: bool)
      requires EntryOk(dirBuf, pos) && 0 !in search
      ensures found <==> EntryName(dirBuf, pos) == Component(search)
    {
      hide Component;
      var nameSize: nat := dirBuf[pos + 6];
      ghost var name := EntryName(dirBuf, pos);
      var i := 0;
      while i < nameSize && CharAt(search, i) == dirBuf[pos + 8 + i]
        invariant 0 <= i <= nameSize && i <= |search| && search[..i] == name[..i]
      {
        i := i + 1;
      }
      found := i == nameSize && (CharAt(search, nameSize) == 0 || CharAt(search, nameSize) == SLASH);
      NameHasNoSlash(dirBuf, pos);
      NameMatches(search, name, i);
    }

    /** read_dir with a name to search for: the result is exactly what the transfers of the card make it
        (`Ext2Faults.DirStopsAtFault`), which is never wrong and on a healthy card is the first entry with that name. */
    method ReadDir(inode: Inode, search: seq<byte>) returns (ino: uint32)
      requires Valid() && |inode.direct| == 12 && 0 !in search && DirBlocksOk(fs, BlocksOf(PlanOf(fs, inode)))
      modifies this`transfers, this`indirect1, this`indirect2, this`indirect3, this`dirBuf
      ensures Valid()
      ensures (ino, transfers) == DirRun(fs, delivers, old(transfers), PlanOf(fs, inode), Component(search))
      ensures DirBlocksOk(fs, BlocksRead(fs, inode))
      ensures ino != 0 || (Healthy(fs, delivers, old(transfers)) && AllReadable(fs, PlanOf(fs, inode))) ==>
                ino == FindInBlocks(fs, BlocksRead(fs, inode), Component(search))
    {
      hide Block, BlocksRead, SectorsPerBlock, Rest, Component, DirOk, FindInBlock, FindInBlocks, DirRun, Loads, Reach, PlanOf, BlocksOf,
           LoadOk, Visits, FirstLoads, AllReadable, AfterLoads, DirBlocksOk, AfterLoad;
      ghost var d, t, name := delivers, transfers, Component(search);
      ghost var result := DirRun(fs, d, t, PlanOf(fs, inode), name);
      PlanBlocks(fs, inode);
      DirRunSound(fs, d, t, PlanOf(fs, inode), name);
      DirBegins(fs, d, t, inode, name);
      var ok, iter := StartBlockIter(inode);
      if !ok { return 0; }
      ghost var left := Remaining(iter);
      var block;
      block, left := NextOfDir(iter, left, name, result);
      while block != 0
        invariant Iterating(iter) && InDir(iter, block, left, name, result)
        decreases |left|, block != 0
      {
        DataInDir(fs, d, transfers, block, left, name);
        LoadAdvances(fs, d, transfers, block);
        ok, dirBuf := ReadBlock(dirBuf, block);
        if !ok { return 0; }
        ino := SearchBlock(search);
        if ino != 0 { return ino; }
        block, left := NextOfDir(iter, left, name, result);
      }
      return 0;
    }

    /** In the loop of read_dir: what is left, together with the block in hand, decides the result. */
    ghost predicate InDir(iter: BlockIterator, block: uint32, left: seq<Access>, name: Name, result: (uint32, nat))
      reads this, iter
      requires Iterating(iter)
    {
      if block == 0 then result == (0, transfers)
      else
        && Remaining(iter) == left && DirBlocksOk(fs, BlocksOf([Data(block)] + left))
        && DirRun(fs, delivers, transfers, [Data(block)] + left, name) == result
    }

    /** next_block in the loop of read_dir. */
    method NextOfDir(iter: BlockIterator, ghost left: seq<Access>, ghost name: Name, ghost result: (uint32, nat))
      returns (block: uint32, ghost rest: seq<Access>)
      requires Iterating(iter) && Remaining(iter) == left && DirBlocksOk(fs, BlocksOf(left))
      requires DirRun(fs, delivers, transfers, left, name) == result
      modifies iter`i0, iter`i1, iter`i2, iter`i3, this`transfers, this`indirect1, this`indirect2
      ensures Iterating(iter) && InDir(iter, block, rest, name, result)
      ensures |rest| <= |left| && (block != 0 ==> |rest| < |left|)
    {
      hide Rest, BlocksOf, DirRun, Loads, Reach, DirBlocksOk, AfterLoads, Pointers;
      NextInDir(fs, delivers, transfers, left, name);
      ghost var k := Loads(left);
      block := NextBlock(iter);
      rest := if k < |left| then left[k + 1..] else [];
    }

    /** The inner loop of read_dir. */
    method SearchBlock(search: seq<byte>) returns (ino: uint32)
      requires DirOk(dirBuf, 0) && 0 !in search
      ensures ino == FindInBlock(dirBuf, 0, Component(search))
    {
      hide Component, EntryOk;
      var pos := 0;
      while pos < |dirBuf|
        invariant 0 <= pos <= |dirBuf| && DirOk(dirBuf, pos)
        invariant FindInBlock(dirBuf, pos, Component(search)) == FindInBlock(dirBuf, 0, Component(search))
        decreases |dirBuf| - pos
      {
        EntryBounds(dirBuf, pos);
        var h := pos;
        pos := pos + Half(dirBuf, h + 4);
        if LittleEndian(dirBuf, h) == 0 { continue; }
        var found := EntryMatches(h, search);
        if found { return LittleEndian(dirBuf, h); }
      }
      return 0;
    }

    /** find_inode: the inode a path leads to from the root.  The result is exactly what the transfers of the card make
        it; it is never another inode, and a healthy card gives it whenever the path leads to one. */
    method FindInode(path: seq<byte>) returns (r: Option<nat>)
      requires Valid() && 0 !in path && WalkOk(fs, ROOT_INODE, StripSlash(path))
      modifies this`transfers, this`indirect1, this`indirect2, this`indirect3, this`dirBuf
      modifies this`inodeBuf, this`inodeBufLoaded
      ensures Valid()
      ensures r.Some? <==> WalkRun(fs, delivers, old(transfers), old(inodeBufLoaded), ROOT_INODE, StripSlash(path)) != 0
      ensures var ino := Walk(fs, ROOT_INODE, StripSlash(path));
              && (r.Some? ==> ino != 0 && Holds(r.value, ino))
              && (Healthy(fs, delivers, old(transfers)) && WalkReadable(fs, ROOT_INODE, StripSlash(path)) ==>
                    (r.Some? <==> ino != 0))
    {
      hide Block, BlocksRead, SectorsPerBlock, ParseInode, DiskInode, Component, AfterComponent, KnownInode, FindInBlocks, DirBlocksOk,
           LoadOk, DirRun, PlanOf, AllReadable, WalkRun, InodeBlock, Walk, WalkReadable, WalkOk;
      var rest := StripSlash(path);
      var ino: uint32 := ROOT_INODE;
      ghost var d := delivers;
      ghost var result := WalkRun(fs, d, transfers, inodeBufLoaded, ino, rest);
      WalkRunFinds(fs, d, transfers, inodeBufLoaded, ino, rest);
      while ino != 0 && rest != []
        invariant Valid() && 0 !in rest && WalkOk(fs, ino, rest)
        invariant WalkRun(fs, d, transfers, inodeBufLoaded, ino, rest) == result
        decreases |rest|
      {
        WalkOn(fs, d, transfers, inodeBufLoaded, ino, rest);
        var place := GetInode(ino);
        if place == None { return None; }
        ino := ReadDir(ParseInode(inodeBuf[place.value..]), rest);
        rest := SkipComponent(rest);
      }
      WalkEnds(fs, d, transfers, inodeBufLoaded, ino, rest);
      r := GetInode(ino);
    }
  }

  const ROOT_INODE: uint32 := 2

  function CharAt(s: seq<byte>, i: nat): byte {
    if i < |s| then s[i] else 0
  }

  function StripSlash(path: seq<byte>): seq<byte> {
    if path != [] && path[0] == SLASH then path[1..] else path
  }

  /** An absolute path, and the same path without its first slash, lead from inode 2 through the names. */
  lemma PathFromRoot(fs: Fs, names: seq<Name>, trailing: bool)
    requires ProperNames(names) && ResolveOk(fs, 2, names)
    ensures WalkOk(fs, ROOT_INODE, StripSlash([0x2f] + Spell(names, trailing)))
    ensures Walk(fs, ROOT_INODE, StripSlash([0x2f] + Spell(names, trailing))) == Resolve(fs, 2, names)
    ensures StripSlash(Spell(names, trailing)) == Spell(names, trailing) == StripSlash([0x2f] + Spell(names, trailing))
  {
    hide KnownInode, DiskInode, BlocksRead, FindInBlocks, DirBlocksOk, Walk, WalkOk, Resolve, ResolveOk;
    assert ([0x2f as byte] + Spell(names, trailing))[1..] == Spell(names, trailing);
    WalkSpelled(fs, 2, names, trailing);
    if names != [] {
      assert names[0] != [] && SLASH !in names[0];
      assert Spell(names, trailing)[0] == names[0][0];
    }
  }

  method SkipComponent(path: seq<byte>) returns (rest: seq<byte>)
    requires 0 !in path
    ensures rest == AfterComponent(path) && 0 !in rest
  {
    var i := 0;
    while i < |path| && path[i] != SLASH
      invariant 0 <= i <= |path| && SLASH !in path[..i]
    {
      i := i + 1;
    }
    ComponentOf(path[..i], path[i..]);
    assert path[..i] + path[i..] == path;
    if i < |path| { i := i + 1; }
    rest := path[i..];
  }

  lemma SameCharacter(search: seq<byte>, name: Name, i: nat)
    requires i < |name| <= |search| && name == search[..|name|]
    ensures CharAt(search, i) == name[i]
  {
  }

  /** Comparing stopped after i characters: the name is the component if it was used up at the component's end. */
  lemma NameMatches(search: seq<byte>, name: Name, i: nat)
    requires 0 !in search && 0 !in name && SLASH !in name
    requires i <= |name| && i <= |search| && search[..i] == name[..i] && (i < |name| ==> CharAt(search, i) != name[i])
    ensures (i == |name| && (CharAt(search, i) == 0 || CharAt(search, i) == SLASH)) <==> name == Component(search)
  {
    if i == |name| && (CharAt(search, i) == 0 || CharAt(search, i) == SLASH) {
      assert search == name + search[i..];
      ComponentOf(name, search[i..]);
    }
    if name == Component(search) {
      if i < |name| { SameCharacter(search, name, i); }
    }
  }

  lemma NameHasNoSlash(bs: seq<byte>, pos: nat)
    requires EntryOk(bs, pos)
    ensures SLASH !in EntryName(bs, pos) && 0 !in EntryName(bs, pos)
  {
  }

  lemma EntryBounds(bs: seq<byte>, pos: nat)
    requires DirOk(bs, pos) && pos < |bs|
    ensures EntryOk(bs, pos) && pos + 8 <= |bs| && 8 <= Half(bs, pos + 4) && pos + Half(bs, pos + 4) <= |bs|
    ensures DirOk(bs, pos + Half(bs, pos + 4))
  {
  }

  /** The number of bits by which block numbers are shifted out of byte offsets. */
  function Shift(w: bv32, log: BlockLog): bv32 {
    if log == 0 then w >> 10 else if log == 1 then w >> 11 else w >> 12
  }

  function Mask(w: bv32, log: BlockLog): bv32 {
    if log == 0 then w & 0x3FF else if log == 1 then w & 0x7FF else w & 0xFFF
  }

  /** Block and place of an inode, shifted and masked out of its byte offset in the inode table of its group. */
  function InodeAddress(fs: Fs, ino: uint32): (r: (uint32, nat))
    requires KnownInode(fs, ino)
    ensures r.0 == InodeBlock(fs, ino) && r.1 == InodeOffset(fs, ino)
  {
    var group := (ino - 1) / fs.inodesPerGroup;
    var index := (ino - 1) % fs.inodesPerGroup;
    var groupOffset := BitWords.Unsigned(U32(index * fs.inodeSize));
    InodePlace(fs, ino);
    ShiftAndMask(fs, groupOffset);
    (U32(fs.inodeTable[group] + BitWords.Value(Shift(groupOffset, fs.log))), BitWords.Value(Mask(groupOffset, fs.log)))
  }

  lemma ShiftAndMask(fs: Fs, w: bv32)
    ensures BitWords.Value(Shift(w, fs.log)) == BitWords.Value(w) / BlockSize(fs)
    ensures BitWords.Value(Mask(w, fs.log)) == BitWords.Value(w) % BlockSize(fs)
  {
    hide BitWords.Value;
    BitWords.MaskAndShift(w);
  }

  lemma InodePlace(fs: Fs, ino: uint32)
    requires KnownInode(fs, ino)
    ensures var groupOffset := U32((ino - 1) % fs.inodesPerGroup * fs.inodeSize);
            && groupOffset % BlockSize(fs) == InodeOffset(fs, ino)
            && U32(fs.inodeTable[(ino - 1) / fs.inodesPerGroup] + groupOffset / BlockSize(fs)) == InodeBlock(fs, ino)
  {
    var index := IndexInGroup(fs, ino);
    OffsetSplits(fs, index);
    LineBounds(index, fs.inodesPerGroup, fs.inodeSize);
  }

  /** After k blocks: whole blocks until the limit is reached; with a wrapping limit nothing is ever copied. */
  predicate Copied(fs: Fs, k: nat, sizeDone: int, maxSize: int) {
    if maxSize > LARGEST then sizeDone == 0
    else sizeDone == if k * BlockSize(fs) < RoundUp(maxSize) then k * BlockSize(fs) else RoundUp(maxSize)
  }

  lemma NothingCopied(fs: Fs, maxSize: uint32)
    ensures Copied(fs, 0, 0, maxSize)
  {
  }

  lemma SectorsWanted(fs: Fs, sizeDone: uint32, maxSize: uint32, sectors: int)
    requires var limit := U32(maxSize - sizeDone + 511) / 512;
             sectors == if SectorsPerBlock(fs) > limit then limit else SectorsPerBlock(fs)
    ensures sectors == Wanted(fs, sizeDone, maxSize)
  {
    hide SectorsPerBlock, U32;
  }

  lemma CopyMore(fs: Fs, k: nat, sizeDone: uint32, maxSize: uint32, sectors: int)
    requires Copied(fs, k, sizeDone, maxSize) && sizeDone < maxSize
    requires var limit := U32(maxSize - sizeDone + 511) / 512;
             sectors == if SectorsPerBlock(fs) > limit then limit else SectorsPerBlock(fs)
    ensures 0 <= sectors && 0 <= sizeDone + 512 * sectors <= RoundUp(maxSize)
    ensures sectors > 0 ==> sizeDone == k * BlockSize(fs)
    ensures sizeDone + 512 * sectors < 0x1_0000_0000
    ensures Copied(fs, k + 1, sizeDone + 512 * sectors, maxSize)
  {
    var spb := SectorsPerBlock(fs);
    assert spb > 0 && k * BlockSize(fs) == 512 * (k * spb) && (k + 1) * BlockSize(fs) == 512 * (k * spb + spb);
    hide SectorsPerBlock, BlockSize;
    var limit := U32(maxSize - sizeDone + 511) / 512;
    if maxSize > LARGEST {
      assert limit == 0;
    } else {
      LimitInSectors(k * spb, sizeDone, maxSize);
    }
  }

  lemma LimitInSectors(m: nat, sizeDone: uint32, maxSize: uint32)
    requires maxSize <= LARGEST && sizeDone < maxSize
    requires sizeDone == if 512 * m < RoundUp(maxSize) then 512 * m else RoundUp(maxSize)
    ensures sizeDone == 512 * m && 512 * (U32(maxSize - sizeDone + 511) / 512) == RoundUp(maxSize) - 512 * m
    ensures RoundUp(maxSize) <= LARGEST
  {
  }

  lemma KeptAround(was: seq<byte>, now: seq<byte>, p: nat, q: nat, limit: int)
    requires |was| == |now| && p <= q <= limit <= |was| && was[..p] == now[..p] && was[q..] == now[q..]
    ensures was[limit..] == now[limit..]
  {
    assert was[limit..] == was[q..][limit - q..] && now[limit..] == now[q..][limit - q..];
  }

  lemma Extended(dst: seq<byte>, content: seq<byte>, block: seq<byte>, p: nat, n: nat, size: nat)
    requires p <= |dst| && p <= |content| && dst[..p] == content[..p]
    requires n > 0 ==>
               && n <= size == |block| && p + n <= |dst| && p + size <= |content|
               && content[p..p + size] == block && dst[p..p + n] == block[..n]
    ensures p + n <= |content| && dst[..p + n] == content[..p + n]
  {
    if n > 0 {
      assert dst[..p + n] == dst[..p] + dst[p..p + n];
      assert content[p..p + size][..n] == content[p..p + n];
      assert content[..p + n] == content[..p] + content[p..p + n];
    }
  }

  lemma PrefixOfPrefix(dst: seq<byte>, content: seq<byte>, p: nat, q: nat)
    requires p <= q <= |dst| && q <= |content| && dst[..q] == content[..q]
    ensures dst[..p] == content[..p]
  {
    assert dst[..p] == dst[..q][..p] && content[..p] == content[..q][..p];
  }

  lemma BlockAhead(blocks: seq<uint32>, k: nat, block: uint32, rest: seq<uint32>)
    requires k <= |blocks| && blocks[k..] == [block] + rest
    ensures k < |blocks| && blocks[k] == block && blocks[k + 1..] == rest
  {
    assert blocks[k..][0] == block && blocks[k..][1..] == rest;
  }

  // ---------------------------------------------------------------- the results while the blocks are read

  lemma FileResults(fs: Fs, d: Delivery, t: nat, inode: Inode, size: uint32)
    ensures Healthy(fs, d, t) && FileReadable(fs, PlanOf(fs, inode)) && size <= LARGEST ==>
              FileRun(fs, d, t, PlanOf(fs, inode), 0, size) == Least(size, |Content(fs, BlocksRead(fs, inode))|)
    ensures size > LARGEST ==> FileRun(fs, d, t, PlanOf(fs, inode), 0, size) == 0
  {
    hide PlanOf, BlocksRead, FileRun, FileReadable, SectorsPerBlock, BlocksOf;
    PlanBlocks(fs, inode);
    if size > LARGEST {
      NothingForHugeSize(fs, d, t, PlanOf(fs, inode), size);
    } else if Healthy(fs, d, t) && FileReadable(fs, PlanOf(fs, inode)) {
      HealthyFile(fs, d, t, PlanOf(fs, inode), size);
    }
  }

  lemma FirstLoadsAreLoads(inode: Inode)
    ensures forall i :: 0 <= i < |FirstLoads(inode)| ==> FirstLoads(inode)[i].Load?
  {
  }

  lemma FileBegins(fs: Fs, d: Delivery, t: nat, inode: Inode, size: uint32)
    ensures FileRun(fs, d, t, PlanOf(fs, inode), 0, size) ==
            if Reach(fs, d, t, FirstLoads(inode)) == |FirstLoads(inode)|
            then FileRun(fs, d, AfterLoads(fs, d, t, FirstLoads(inode)), Visits(fs, inode), 0, size)
            else 0
    ensures BlocksOf(Visits(fs, inode)) == BlocksRead(fs, inode)
  {
    hide FileRun, Reach, Visits, BlocksRead, BlocksOf;
    FirstLoadsAreLoads(inode);
    hide FirstLoads;
    FileLoads(fs, d, t, FirstLoads(inode), Visits(fs, inode), 0, size);
    VisitsTheTree(fs, inode);
  }

  lemma {:induction false} BlocksBeyondLoads(plan: seq<Access>)
    ensures BlocksOf(plan) == if Loads(plan) < |plan| then [plan[Loads(plan)].block] + BlocksOf(plan[Loads(plan) + 1..]) else []
    decreases |plan|
  {
    if plan != [] {
      if plan[0].Load? {
        var k := Loads(plan);
        LoadPassed(plan);
        BlocksBeyondLoads(plan[1..]);
        hide BlocksOf, Loads;
        if k < |plan| {
          assert plan[1..][k..] == plan[k + 1..];
        }
      }
    }
  }

  lemma LoadPassed(plan: seq<Access>)
    requires plan != [] && plan[0].Load?
    ensures BlocksOf(plan) == BlocksOf(plan[1..]) && Loads(plan) == Loads(plan[1..]) + 1
  {
  }

  lemma PlanParts(plan: seq<Access>, k: nat)
    requires k == Loads(plan)
    ensures plan == plan[..k] + plan[k..] && |plan[..k]| == k
    ensures k < |plan| ==> plan[k..] == [Data(plan[k].block)] + plan[k + 1..]
    ensures k == |plan| ==> plan[k..] == []
  {
  }

  lemma NextInFile(fs: Fs, d: Delivery, t: nat, plan: seq<Access>, done: uint32, size: uint32)
    ensures var k := Loads(plan);
            var next := AfterLoads(fs, d, t, plan[..k]);
            FileRun(fs, d, t, plan, done, size) ==
            if Reach(fs, d, t, plan[..k]) == k && k < |plan|
            then FileRun(fs, d, next, [Data(plan[k].block)] + plan[k + 1..], done, size) else Least(done, size)
    ensures BlocksOf(plan) == if Loads(plan) < |plan| then [plan[Loads(plan)].block] + BlocksOf(plan[Loads(plan) + 1..]) else []
  {
    hide FileRun, Reach, BlocksOf, Least, AfterLoad;
    var k := Loads(plan);
    BlocksBeyondLoads(plan);
    PlanParts(plan, k);
    hide Loads;
    FileEnds(fs, d, t + k, done, size);
    FileLoads(fs, d, t, plan[..k], plan[k..], done, size);
  }

  lemma FileEnds(fs: Fs, d: Delivery, t: nat, done: uint32, size: uint32)
    ensures FileRun(fs, d, t, [], done, size) == Least(done, size)
  {
  }

  lemma DataInFile(fs: Fs, d: Delivery, t: nat, block: uint32, rest: seq<Access>, done: uint32, size: uint32)
    ensures var n := Wanted(fs, done, size);
            FileRun(fs, d, t, [Data(block)] + rest, done, size) ==
            if done < size && Arriving(fs, d, t, SectorOf(fs, block), n) == n
            then FileRun(fs, d, AfterRead(t, n), rest, U32(done + 512 * n), size) else Least(done, size)
  {
    hide Arriving, Wanted, Least;
    assert ([Data(block)] + rest)[1..] == rest;
  }

  lemma DirBegins(fs: Fs, d: Delivery, t: nat, inode: Inode, name: Name)
    requires DirBlocksOk(fs, BlocksOf(PlanOf(fs, inode)))
    ensures DirBlocksOk(fs, BlocksOf(Visits(fs, inode)))
    ensures DirRun(fs, d, t, PlanOf(fs, inode), name) ==
            if Reach(fs, d, t, FirstLoads(inode)) == |FirstLoads(inode)|
            then DirRun(fs, d, AfterLoads(fs, d, t, FirstLoads(inode)), Visits(fs, inode), name)
            else (0, AfterLoads(fs, d, t, FirstLoads(inode)))
  {
    hide DirRun, Reach, Visits, BlocksRead, BlocksOf, DirBlocksOk;
    FirstLoadsAreLoads(inode);
    PlanBlocks(fs, inode);
    VisitsTheTree(fs, inode);
    hide FirstLoads;
    DirLoads(fs, d, t, FirstLoads(inode), Visits(fs, inode), name);
  }

  lemma NextInDir(fs: Fs, d: Delivery, t: nat, plan: seq<Access>, name: Name)
    requires DirBlocksOk(fs, BlocksOf(plan))
    ensures var k := Loads(plan);
            var next := AfterLoads(fs, d, t, plan[..k]);
            if Reach(fs, d, t, plan[..k]) == k && k < |plan| then
              && DirBlocksOk(fs, BlocksOf([Data(plan[k].block)] + plan[k + 1..]))
              && DirRun(fs, d, t, plan, name) == DirRun(fs, d, next, [Data(plan[k].block)] + plan[k + 1..], name)
            else DirRun(fs, d, t, plan, name) == (0, next)
  {
    var k := Loads(plan);
    BlocksBeyondLoads(plan);
    PlanParts(plan, k);
    BlocksOfAppend(plan[..k], plan[k..]);
    NoBlocksInLoads(plan[..k]);
    assert [] + BlocksOf(plan[k..]) == BlocksOf(plan[k..]);
    hide DirRun, Reach, Loads, BlocksOf, DirBlocksOk;
    DirLoads(fs, d, t, plan[..k], plan[k..], name);
    DirEnds(fs, d, t + k, name);
  }

  lemma {:induction false} NoBlocksInLoads(loads: seq<Access>)
    requires forall i :: 0 <= i < |loads| ==> loads[i].Load?
    ensures BlocksOf(loads) == []
    decreases |loads|
  {
    if loads != [] {
      NoBlocksInLoads(loads[1..]);
    }
  }

  lemma DirEnds(fs: Fs, d: Delivery, t: nat, name: Name)
    ensures DirBlocksOk(fs, BlocksOf([])) && DirRun(fs, d, t, [], name) == (0, t)
  {
  }

  lemma DataInDir(fs: Fs, d: Delivery, t: nat, block: uint32, rest: seq<Access>, name: Name)
    requires DirBlocksOk(fs, BlocksOf([Data(block)] + rest))
    ensures DirOk(Block(fs, block), 0) && DirBlocksOk(fs, BlocksOf(rest))
    ensures DirRun(fs, d, t, [Data(block)] + rest, name) ==
            if !LoadOk(fs, d, t, block) then (0, AfterLoad(fs, t, block))
            else
              var f := FindInBlock(Block(fs, block), 0, name);
              if f != 0 then (f, t + 1) else DirRun(fs, d, t + 1, rest, name)
  {
    var plan := [Data(block)] + rest;
    assert plan[0] == Data(block) && plan[1..] == rest;
    RestOk(fs, plan);
    hide LoadOk, AfterLoad, DirOk, FindInBlock, Block, DirBlocksOk, BlocksOf;
  }

  lemma WalkOn(fs: Fs, d: Delivery, t: nat, loaded: uint32, ino: uint32, path: seq<byte>)
    requires WalkOk(fs, ino, path) && ino != 0 && path != []
    ensures KnownInode(fs, ino) && DirBlocksOk(fs, BlocksOf(PlanOf(fs, DiskInode(fs, ino))))
    ensures var block := InodeBlock(fs, ino);
            if loaded != block && !LoadOk(fs, d, t, block) then WalkRun(fs, d, t, loaded, ino, path) == 0
            else
              var t1 := if loaded == block then t else t + 1;
              var run := DirRun(fs, d, t1, PlanOf(fs, DiskInode(fs, ino)), Component(path));
              && WalkOk(fs, run.0, AfterComponent(path))
              && WalkRun(fs, d, t, loaded, ino, path) == WalkRun(fs, d, run.1, block, run.0, AfterComponent(path))
  {
    hide LoadOk, DirRun, FindInBlocks, BlocksRead, PlanOf, DiskInode, InodeBlock, Component, AfterComponent, IndexInGroup, InodesPerBlock,
         DirBlocksOk;
    PlanBlocks(fs, DiskInode(fs, ino));
    var t1 := if loaded == InodeBlock(fs, ino) then t else t + 1;
    DirRunSound(fs, d, t1, PlanOf(fs, DiskInode(fs, ino)), Component(path));
  }

  lemma WalkEnds(fs: Fs, d: Delivery, t: nat, loaded: uint32, ino: uint32, path: seq<byte>)
    requires WalkOk(fs, ino, path) && (ino == 0 || path == [])
    ensures ino != 0 ==> KnownInode(fs, ino)
    ensures WalkRun(fs, d, t, loaded, ino, path) ==
            if ino != 0 && (loaded == InodeBlock(fs, ino) || LoadOk(fs, d, t, InodeBlock(fs, ino))) then ino else 0
  {
    hide LoadOk, InodeBlock;
  }

  // ---------------------------------------------------------------- the loads of an iteration

  lemma FirstLoadsInTurn(fs: Fs, d: Delivery, t: nat, inode: Inode)
    ensures var a, b, c := FirstLoad(inode.indirect1), FirstLoad(inode.indirect2), FirstLoad(inode.indirect3);
            var loads := FirstLoads(inode);
            && |loads| == |a| + |b| + |c|
            && Reach(fs, d, t, loads) ==
               (if Reach(fs, d, t, a) < |a| then Reach(fs, d, t, a)
                else if Reach(fs, d, t + |a|, b) < |b| then |a| + Reach(fs, d, t + |a|, b)
                else |a| + |b| + Reach(fs, d, t + |a| + |b|, c))
            && AfterLoads(fs, d, t, loads) ==
               (if Reach(fs, d, t, a) < |a| then AfterLoads(fs, d, t, a)
                else if Reach(fs, d, t + |a|, b) < |b| then AfterLoads(fs, d, t + |a|, b)
                else AfterLoads(fs, d, t + |a| + |b|, c))
  {
    hide Reach, FirstLoad, AfterLoad;
    var a, b, c := FirstLoad(inode.indirect1), FirstLoad(inode.indirect2), FirstLoad(inode.indirect3);
    ReachAppend(fs, d, t, a, b + c);
    ReachAppend(fs, d, t + |a|, b, c);
  }

  lemma LoadAdvances(fs: Fs, d: Delivery, t: nat, block: uint32)
    ensures LoadOk(fs, d, t, block) ==> AfterLoad(fs, t, block) == t + 1
  {
  }

  lemma NoLoadsYet(fs: Fs, d: Delivery, t: nat, plan: seq<Access>)
    ensures Reach(fs, d, t, plan[..0]) == 0 && plan[0..] == plan
  {
  }

  lemma {:induction false} LoadsFrom(plan: seq<Access>, j: nat)
    requires j <= Loads(plan)
    ensures Loads(plan[j..]) == Loads(plan) - j
    decreases j
  {
    if j > 0 {
      LoadsFrom(plan[1..], j - 1);
      assert plan[1..][j - 1..] == plan[j..];
    } else {
      assert plan[0..] == plan;
    }
  }

  lemma DataComesNext(plan: seq<Access>, j: nat, block: uint32, rest: seq<Access>)
    requires j <= Loads(plan) && plan[j..] == [Data(block)] + rest
    ensures j == Loads(plan) && j < |plan| && plan[j] == Data(block) && plan[j + 1..] == rest
  {
    LoadsFrom(plan, j);
    assert plan[j..][0] == plan[j] && plan[j..][1..] == plan[j + 1..];
  }

  lemma LoadComesNext(fs: Fs, d: Delivery, t: nat, plan: seq<Access>, j: nat, next: uint32)
    requires j <= Loads(plan) && plan[j..] != [] && plan[j..][0] == Load(next)
    requires Reach(fs, d, t, plan[..j]) == j
    ensures j < Loads(plan) && plan[j] == Load(next)
    ensures Reach(fs, d, t, plan[..j + 1]) == if LoadOk(fs, d, t + j, next) then j + 1 else j
    ensures LoadOk(fs, d, t + j, next) ==> AfterLoad(fs, t + j, next) == t + j + 1
    ensures !LoadOk(fs, d, t + j, next) ==>
              var k := Loads(plan);
              Reach(fs, d, t, plan[..k]) == j && AfterLoads(fs, d, t, plan[..k]) == AfterLoad(fs, t + j, next)
  {
    hide Arriving;
    LoadsFrom(plan, j);
    var k := Loads(plan);
    assert plan[..j + 1] == plan[..j] + [plan[j]];
    ReachAppend(fs, d, t, plan[..j], [plan[j]]);
    ReachOne(fs, d, t + j, plan[j]);
    hide Reach, LoadOk, AfterLoads;
    if !LoadOk(fs, d, t + j, next) {
      NoMoreLoads(fs, d, t, plan, j);
    }
  }

  lemma NoMoreLoads(fs: Fs, d: Delivery, t: nat, plan: seq<Access>, j: nat)
    requires j < Loads(plan) && Reach(fs, d, t, plan[..j + 1]) == j && |plan[..j + 1]| == j + 1
    ensures var k := Loads(plan);
            Reach(fs, d, t, plan[..k]) == j && AfterLoads(fs, d, t, plan[..k]) == AfterLoad(fs, t + j, plan[j].block)
  {
    hide Reach, LoadOk, AfterLoad, Loads;
    var k := Loads(plan);
    assert plan[..k] == plan[..j + 1] + plan[j + 1..k];
    ReachAppend(fs, d, t, plan[..j + 1], plan[j + 1..k]);
  }

  lemma LoadDone(plan: seq<Access>, j: nat, next: uint32, rest: seq<Access>)
    requires j < |plan| && [Load(next)] + rest == plan[j..]
    ensures rest == plan[j + 1..]
  {
    assert plan[j..][1..] == rest;
  }
}
