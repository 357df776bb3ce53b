/**
  What an ext2 partition means: blocks, the tree of block pointers of an inode, directories and paths.
  `Lookup` is the standard rule that finds the k-th block of a file by index arithmetic; `BlocksRead` is the
  list that the reader of software/bios/ext2.c visits.  The two agree exactly on files without holes.
 */
module Ext2Layout {
  import opened MachineTypes
  import opened Arithmetic

  /** log_block_size: larger blocks would not fit the 4 KB buffers of the reader. */
  type BlockLog = x: int | 0 <= x <= 2

  type SectorBytes = s: seq<byte> | |s| == 512 witness seq(512, _ => 0)

  /** A partition on a card: its first sector, log2 of the block size in KB, the inode tables. */
  datatype Fs = Fs(card: seq<SectorBytes>, partition: uint32, log: BlockLog,
                   inodesPerGroup: uint32, inodeSize: uint32, inodeTable: seq<uint32>)

  const NO_BLOCK: uint32 := 0xFFFF_FFFF

  /** 2 << log_block_size */
  function SectorsPerBlock(fs: Fs): nat
  {
    if fs.log == 0 then 2 else if fs.log == 1 then 4 else 8
  }

  function BlockSize(fs: Fs): nat
  {
    SectorsPerBlock(fs) * 512
  }

  /** Pointers in a block: 256 << log_block_size. */
  function PointersPerBlock(fs: Fs): nat
  {
    SectorsPerBlock(fs) * 128
  }

  function SectorOf(fs: Fs, block: uint32): uint32
  {
    U32(fs.partition + U32(block * SectorsPerBlock(fs)))
  }

  function Sector(card: seq<SectorBytes>, i: nat): (r: seq<byte>)
    ensures |r| == 512
  {
    if i < |card| then card[i] else seq(512, _ => 0)
  }

  /** The bytes of `count` sectors; sectors beyond the card count as zeros. */
  function Sectors(card: seq<SectorBytes>, first: nat, count: nat): (r: seq<byte>)
    ensures |r| == 512 * count
    decreases count
  {
    if count == 0 then []
    else Sectors(card, first, count - 1) + Sector(card, first + count - 1)
  }

  function Block(fs: Fs, block: uint32): (r: seq<byte>)
    ensures |r| == BlockSize(fs)
  {
    Sectors(fs.card, SectorOf(fs, block), SectorsPerBlock(fs))
  }

  /** The pointers stored in a block, little endian. */
  function Pointers(bs: seq<byte>): (r: seq<uint32>)
    ensures |r| == |bs| / 4
  {
    seq(|bs| / 4, i requires 0 <= i < |bs| / 4 => LittleEndian(bs, 4 * i))
  }

  function PointersOf(fs: Fs, block: uint32): (r: seq<uint32>)
    ensures |r| == PointersPerBlock(fs)
  {
    Pointers(Block(fs, block))
  }

  datatype Inode = Inode(direct: seq<uint32>, indirect1: uint32, indirect2: uint32, indirect3: uint32)

  // ---------------------------------------------------------------- the blocks the reader visits

  function NonZero(ps: seq<uint32>): (r: seq<uint32>)
    ensures forall i :: 0 <= i < |r| ==> r[i] != 0
  {
    if ps == [] then [] else (if ps[0] != 0 then [ps[0]] else []) + NonZero(ps[1..])
  }

  /** All pointers below double-indirect pointers, zero or not. */
  function Leaves(fs: Fs, ps: seq<uint32>): seq<uint32>
  {
    if ps == [] then [] else PointersOf(fs, ps[0]) + Leaves(fs, ps[1..])
  }

  function Leaves2(fs: Fs, qs: seq<uint32>): seq<uint32>
  {
    if qs == [] then [] else Leaves(fs, PointersOf(fs, qs[0])) + Leaves2(fs, qs[1..])
  }

  /** The pointers below an inode in the order of the reader.  A missing pointer at one level ends the list: the
      reader consults it before it uses the buffers that the deeper levels fill. */
  function Tree(fs: Fs, inode: Inode): seq<uint32>
  {
    inode.direct + if inode.indirect1 == 0 then [] else
    PointersOf(fs, inode.indirect1) + if inode.indirect2 == 0 then [] else
    Leaves(fs, PointersOf(fs, inode.indirect2)) + if inode.indirect3 == 0 then [] else
    Leaves2(fs, PointersOf(fs, inode.indirect3))
  }

  /** The reader skips null data pointers. */
  function BlocksRead(fs: Fs, inode: Inode): seq<uint32>
  {
    NonZero(Tree(fs, inode))
  }

  // ---------------------------------------------------------------- the standard block map

  function Capacity(fs: Fs): nat
  {
    var n := PointersPerBlock(fs);
    12 + n + n * n + n * n * n
  }

  function Entry(fs: Fs, block: uint32, i: nat): uint32
    requires i < PointersPerBlock(fs)
  {
    if block == 0 then 0 else PointersOf(fs, block)[i]
  }

  /** The block that holds block number k of a file, or 0 for a hole. */
  function Lookup(fs: Fs, inode: Inode, k: nat): uint32
    requires |inode.direct| == 12 && k < Capacity(fs)
  {
    var n := PointersPerBlock(fs);
    if k < 12 then inode.direct[k]
    else if k - 12 < n then Entry(fs, inode.indirect1, k - 12)
    else if k - 12 - n < n * n then
      var j := k - 12 - n;
      IndexSplit(j, n, n);
      Entry(fs, Entry(fs, inode.indirect2, j / n), j % n)
    else
      var j := k - 12 - n - n * n;
      IndexSplit(j, n * n, n);
      IndexSplit(j % (n * n), n, n);
      Entry(fs, Entry(fs, Entry(fs, inode.indirect3, j / (n * n)), j % (n * n) / n), j % (n * n) % n)
  }

  lemma IndexSplit(j: nat, s: nat, n: nat)
    requires s > 0 && j < n * s
    ensures 0 <= j / s < n && 0 <= j % s < s
  {
    var q := j / s;
    assert j == q * s + j % s;
    if q >= n {
      if q > n { MulOrder(n, q, s); }
      assert false;
    }
  }

  lemma {:induction false} NonZeroAppend(a: seq<uint32>, b: seq<uint32>)
    ensures NonZero(a + b) == NonZero(a) + NonZero(b)
    decreases |a|
  {
    if a == [] {
      assert a + b == b;
    } else {
      assert (a + b)[1..] == a[1..] + b;
      NonZeroAppend(a[1..], b);
    }
  }

  lemma {:induction false} NonZeroPrefix(a: seq<uint32>, m: nat)
    requires m <= |a| && forall i :: 0 <= i < m ==> a[i] != 0
    ensures m <= |NonZero(a)| && NonZero(a)[..m] == a[..m]
    decreases m
  {
    if m > 0 {
      NonZeroPrefix(a[1..], m - 1);
      assert a[..m] == [a[0]] + a[1..][..m - 1];
    }
  }

  lemma {:induction false} LeavesAt(fs: Fs, ps: seq<uint32>, j: nat)
    ensures |Leaves(fs, ps)| == |ps| * PointersPerBlock(fs)
    ensures j < |ps| * PointersPerBlock(fs) ==> PointerOf(fs, ps, Leaves(fs, ps), j)
    decreases |ps|
  {
    hide PointersOf;
    var n := PointersPerBlock(fs);
    if ps != [] {
      MulStep(|ps|, n);
      hide PointersPerBlock;
      if n <= j < |ps| * n {
        LeavesAt(fs, ps[1..], j - n);
        DivStep(j, n);
      } else {
        LeavesAt(fs, ps[1..], 0);
        if j < n { DivUnique(j, n, 0, j); }
      }
    }
  }

  /** Pointer j of a list of pointer blocks. */
  predicate PointerOf(fs: Fs, ps: seq<uint32>, all: seq<uint32>, j: nat)
  {
    var n := PointersPerBlock(fs);
    0 <= j / n < |ps| && 0 <= j % n < n && j < |all| && all[j] == PointersOf(fs, ps[j / n])[j % n]
  }

  /** Pointer j of a list of pointer trees of s pointers each. */
  predicate LeafOf(fs: Fs, qs: seq<uint32>, all: seq<uint32>, s: nat, j: nat)
    requires s > 0
  {
    var i, r := j / s, j % s;
    0 <= i < |qs| && 0 <= r < s
    && |Leaves(fs, PointersOf(fs, qs[i]))| == s
    && j < |all| && all[j] == Leaves(fs, PointersOf(fs, qs[i]))[r]
  }

  lemma {:induction false} Leaves2At(fs: Fs, qs: seq<uint32>, s: nat, j: nat)
    requires s > 0 && s == PointersPerBlock(fs) * PointersPerBlock(fs)
    ensures |Leaves2(fs, qs)| == |qs| * s
    ensures j < |qs| * s ==> LeafOf(fs, qs, Leaves2(fs, qs), s, j)
    decreases |qs|
  {
    hide PointersOf, Leaves;
    LeavesSquare(fs, s);
    hide PointersPerBlock;
    if qs != [] {
      MulStep(|qs|, s);
      if s <= j < |qs| * s {
        Leaves2At(fs, qs[1..], s, j - s);
        DivStep(j, s);
      } else {
        Leaves2At(fs, qs[1..], s, 0);
        if j < s { DivUnique(j, s, 0, j); }
      }
    }
  }

  lemma LeavesSquare(fs: Fs, s: nat)
    requires s == PointersPerBlock(fs) * PointersPerBlock(fs)
    ensures s > 0 && forall q: uint32 :: |Leaves(fs, PointersOf(fs, q))| == s
  {
    forall q: uint32
      ensures |Leaves(fs, PointersOf(fs, q))| == s
    {
      LeavesAt(fs, PointersOf(fs, q), 0);
    }
  }

  predicate HoleFree(fs: Fs, inode: Inode, count: nat)
    requires |inode.direct| == 12 && count <= Capacity(fs)
  {
    forall k :: 0 <= k < count ==> Lookup(fs, inode, k) != 0
  }

  /** Without a hole up to block k, the k-th pointer of the tree is the standard one. */
  lemma TreeAt(fs: Fs, inode: Inode, count: nat, k: nat)
    requires |inode.direct| == 12 && count <= Capacity(fs) && HoleFree(fs, inode, count) && k < count
    ensures k < |Tree(fs, inode)| && Tree(fs, inode)[k] == Lookup(fs, inode, k)
  {
    hide PointersOf, Leaves, Leaves2;
    var n := PointersPerBlock(fs);
    assert n > 0 && n * n > 0;
    if k >= 12 {
      assert Lookup(fs, inode, 12) != 0;
      if k >= 12 + n {
        assert Lookup(fs, inode, 12 + n) != 0;
        LeavesAt(fs, PointersOf(fs, inode.indirect2), 0);
        if k < 12 + n + n * n {
          LeavesAt(fs, PointersOf(fs, inode.indirect2), k - 12 - n);
        } else {
          TreeAtTriple(fs, inode, k - 12 - n - n * n);
        }
      }
    }
  }

  lemma TreeAtTriple(fs: Fs, inode: Inode, j: nat)
    requires |inode.direct| == 12 && inode.indirect1 != 0 && inode.indirect2 != 0
    requires var n := PointersPerBlock(fs); j < n * n * n && Lookup(fs, inode, 12 + n + n * n + j) != 0
    ensures var n := PointersPerBlock(fs);
            var k := 12 + n + n * n + j;
            k < |Tree(fs, inode)| && Tree(fs, inode)[k] == Lookup(fs, inode, k)
  {
    hide PointersOf, Leaves, Leaves2;
    var n := PointersPerBlock(fs);
    assert n * (n * n) == n * n * n;
    LeavesAt(fs, PointersOf(fs, inode.indirect2), 0);
    Leaves2At(fs, PointersOf(fs, inode.indirect3), n * n, j);
    IndexSplit(j, n * n, n);
    var q := PointersOf(fs, inode.indirect3)[j / (n * n)];
    LeavesAt(fs, PointersOf(fs, q), j % (n * n));
  }

  /** The blocks the reader visits are the blocks of the file, in order, exactly as far as the file has no hole. */
  lemma ReadsTheFile(fs: Fs, inode: Inode, count: nat)
    requires |inode.direct| == 12 && count <= Capacity(fs)
    ensures (count <= |BlocksRead(fs, inode)| && forall k :: 0 <= k < count ==> BlocksRead(fs, inode)[k] == Lookup(fs, inode, k))
            <==> HoleFree(fs, inode, count)
  {
    hide Tree, Lookup;
    var t := Tree(fs, inode);
    if HoleFree(fs, inode, count) {
      forall k | 0 <= k < count
        ensures k < |t| && t[k] == Lookup(fs, inode, k) && t[k] != 0
      {
        TreeAt(fs, inode, count, k);
        assert Lookup(fs, inode, k) != 0;
      }
      if count > 0 { TreeAt(fs, inode, count, count - 1); }
      NonZeroPrefix(t, count);
      var z := NonZero(t);
      forall k | 0 <= k < count
        ensures z[k] == t[k]
      {
        assert z[k] == z[..count][k] && t[k] == t[..count][k];
      }
    }
  }

  // ---------------------------------------------------------------- file contents

  function Content(fs: Fs, blocks: seq<uint32>): (r: seq<byte>)
    ensures |r| == |blocks| * BlockSize(fs)
    decreases |blocks|
  {
    MulStep(|blocks|, BlockSize(fs));
    if blocks == [] then []
    else Content(fs, blocks[..|blocks| - 1]) + Block(fs, blocks[|blocks| - 1])
  }

  lemma {:induction false} SectorsPrefix(card: seq<SectorBytes>, first: nat, n: nat, count: nat)
    requires n <= count
    ensures Sectors(card, first, count)[..512 * n] == Sectors(card, first, n)
    decreases count
  {
    if n < count {
      SectorsPrefix(card, first, n, count - 1);
    }
  }

  lemma {:induction false} ContentPrefix(fs: Fs, blocks: seq<uint32>, k: nat)
    requires k <= |blocks|
    ensures k * BlockSize(fs) <= |blocks| * BlockSize(fs)
    ensures Content(fs, blocks)[..k * BlockSize(fs)] == Content(fs, blocks[..k])
    decreases |blocks|
  {
    hide Block, BlockSize;
    if k < |blocks| {
      var n := |blocks| - 1;
      assert blocks[..n][..k] == blocks[..k];
      ContentPrefix(fs, blocks[..n], k);
      MulStep(|blocks|, BlockSize(fs));
    } else {
      assert blocks[..k] == blocks;
    }
  }

  /** The bytes of a file that follow its first k blocks begin with the next block. */
  lemma ContentNext(fs: Fs, blocks: seq<uint32>, k: nat)
    requires k < |blocks|
    ensures 0 <= k * BlockSize(fs) && k * BlockSize(fs) + BlockSize(fs) <= |Content(fs, blocks)|
    ensures Content(fs, blocks)[k * BlockSize(fs)..k * BlockSize(fs) + BlockSize(fs)] == Block(fs, blocks[k])
  {
    hide Block, BlockSize;
    ContentPrefix(fs, blocks, k);
    ContentPrefix(fs, blocks, k + 1);
    MulStep(k + 1, BlockSize(fs));
    assert blocks[..k + 1][..k] == blocks[..k];
    var c := Content(fs, blocks);
    var p, q := k * BlockSize(fs), (k + 1) * BlockSize(fs);
    assert c[..q] == Content(fs, blocks[..k]) + Block(fs, blocks[k]);
    assert c[p..q] == c[..q][p..];
  }
}
