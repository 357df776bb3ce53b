/**
  Where the bytes of an ext2 partition lie on the card (software/bios/ext2.c:71-104, 215-230): sector and byte of every
  block, inode and file, and the layout of numbers, inodes and directory entries in them.
 */
module Ext2Card {
  import opened MachineTypes
  import opened Arithmetic
  import opened Ext2Layout
  import opened Ext2Names

  // ---------------------------------------------------------------- blocks

  /** Byte i of block b has its sector on the card, and its number does not wrap. */
  predicate OnCard(fs: Fs, b: uint32, i: nat) {
    var sectors := Power(fs.log + 1);
    fs.partition + b * sectors + sectors <= 0x1_0000_0000 && fs.partition + b * sectors + i / 512 < |fs.card|
  }

  /** Blocks of 2, 4 or 8 sectors follow one another from the start of the partition. */
  function CardByte(fs: Fs, b: uint32, i: nat): byte
    requires OnCard(fs, b, i)
  {
    MulNotNegative(b, Power(fs.log + 1));
    fs.card[fs.partition + b * Power(fs.log + 1) + i / 512][i % 512]
  }

  lemma MulNotNegative(b: nat, s: nat)
    ensures b * s >= 0
  {
  }

  lemma {:induction false} SectorsAt(card: seq<SectorBytes>, first: nat, count: nat, i: nat)
    requires i < 512 * count && first + i / 512 < |card|
    ensures Sectors(card, first, count)[i] == card[first + i / 512][i % 512]
    decreases count
  {
    if i < 512 * (count - 1) {
      SectorsAt(card, first, count - 1, i);
    }
  }

  lemma BlockPower(fs: Fs)
    ensures SectorsPerBlock(fs) == Power(fs.log + 1) && BlockSize(fs) == 512 * Power(fs.log + 1)
  {
    assert Power(1) == 2 && Power(2) == 4 && Power(3) == 8;
  }

  /** The bytes of a block on the card. */
  lemma BlockIsOnCard(fs: Fs, b: uint32, i: nat)
    requires i < BlockSize(fs) && OnCard(fs, b, i)
    ensures Block(fs, b)[i] == CardByte(fs, b, i)
  {
    BlockPower(fs);
    var s := Power(fs.log + 1);
    MulNotNegative(b, s);
    SectorsAt(fs.card, fs.partition + b * s, s, i);
    hide Power, SectorsPerBlock, Sectors;
    assert SectorOf(fs, b) == fs.partition + b * s;
  }

  /** What a successful read of a block leaves in the buffer. */
  ghost predicate FromCard(fs: Fs, b: uint32, buf: seq<byte>) {
    forall i :: 0 <= i < |buf| && OnCard(fs, b, i) ==> buf[i] == CardByte(fs, b, i)
  }

  lemma BlockFromCard(fs: Fs, b: uint32)
    ensures FromCard(fs, b, Block(fs, b))
  {
    hide Block;
    forall i | 0 <= i < BlockSize(fs) && OnCard(fs, b, i)
      ensures Block(fs, b)[i] == CardByte(fs, b, i)
    {
      BlockIsOnCard(fs, b, i);
    }
  }

  // ---------------------------------------------------------------- files

  function SizeOf(fs: Fs): (s: nat)
    ensures s > 0
  {
    512 * Power(fs.log + 1)
  }

  /** Which block of a sequence of blocks byte i lies in, and where in it. */
  function BlockNumber(fs: Fs, i: nat): nat {
    DivBounds(i, SizeOf(fs));
    i / SizeOf(fs)
  }

  function PlaceIn(fs: Fs, i: nat): nat {
    DivBounds(i, SizeOf(fs));
    i % SizeOf(fs)
  }

  lemma DivBounds(i: nat, s: nat)
    requires s > 0
    ensures 0 <= i / s && 0 <= i % s < s
  {
  }

  /** Byte i of a file that has no hole up to there: the standard map of its blocks says where it lies. */
  predicate FileByteOnCard(fs: Fs, inode: Inode, i: nat)
    requires |inode.direct| == 12
  {
    var k := BlockNumber(fs, i);
    k < Capacity(fs) && HoleFree(fs, inode, k + 1) && OnCard(fs, Lookup(fs, inode, k), PlaceIn(fs, i))
  }

  function FileByte(fs: Fs, inode: Inode, i: nat): byte
    requires |inode.direct| == 12 && FileByteOnCard(fs, inode, i)
  {
    CardByte(fs, Lookup(fs, inode, BlockNumber(fs, i)), PlaceIn(fs, i))
  }

  lemma ContentAt(fs: Fs, blocks: seq<uint32>, i: nat)
    requires i < |blocks| * BlockSize(fs)
    ensures i / BlockSize(fs) < |blocks| && i % BlockSize(fs) < BlockSize(fs)
    ensures Content(fs, blocks)[i] == Block(fs, blocks[i / BlockSize(fs)])[i % BlockSize(fs)]
  {
    var s := BlockSize(fs);
    var k, r := i / s, i % s;
    assert s > 0 && i == k * s + r;
    hide BlockSize, Block, Content;
    if k >= |blocks| {
      MulOrder(|blocks| - 1, k, s);
      MulStep(|blocks|, s);
      assert false;
    }
    ContentNext(fs, blocks, k);
    assert Content(fs, blocks)[k * s..k * s + s][r] == Content(fs, blocks)[i];
  }

  /** The bytes that the reader copies are those of the file. */
  lemma ContentIsFile(fs: Fs, inode: Inode, i: nat)
    requires |inode.direct| == 12 && i < |Content(fs, BlocksRead(fs, inode))| && FileByteOnCard(fs, inode, i)
    ensures Content(fs, BlocksRead(fs, inode))[i] == FileByte(fs, inode, i)
  {
    hide Content, BlocksRead, Block, Lookup, HoleFree, Power, BlockSize, SectorsPerBlock;
    BlockPower(fs);
    var k := BlockNumber(fs, i);
    assert SizeOf(fs) == BlockSize(fs);
    ContentAt(fs, BlocksRead(fs, inode), i);
    ReadsTheFile(fs, inode, k + 1);
    BlockIsOnCard(fs, Lookup(fs, inode, k), i % BlockSize(fs));
  }

  /** What read_file has stored. */
  ghost predicate FileFromCard(fs: Fs, inode: Inode, stored: seq<byte>)
    requires |inode.direct| == 12
  {
    forall i :: 0 <= i < |stored| && FileByteOnCard(fs, inode, i) ==> stored[i] == FileByte(fs, inode, i)
  }

  lemma PrefixFromCard(fs: Fs, inode: Inode, stored: seq<byte>)
    requires |inode.direct| == 12 && stored <= Content(fs, BlocksRead(fs, inode))
    ensures FileFromCard(fs, inode, stored)
  {
    hide Content, BlocksRead, FileByteOnCard, FileByte;
    forall i | 0 <= i < |stored| && FileByteOnCard(fs, inode, i)
      ensures stored[i] == FileByte(fs, inode, i)
    {
      ContentIsFile(fs, inode, i);
    }
  }

  // ---------------------------------------------------------------- numbers and inodes in blocks

  /** A 32-bit number, its lowest byte first. */
  function Word(x: uint32): (r: seq<byte>)
    ensures |r| == 4
  {
    [x % 0x100, x / 0x100 % 0x100, x / 0x1_0000 % 0x100, x / 0x100_0000]
  }

  lemma WordReads(bs: seq<byte>, at: nat, x: uint32)
    requires at + 4 <= |bs| && bs[at..at + 4] == Word(x)
    ensures LittleEndian(bs, at) == x
  {
    assert bs[at] == bs[at..at + 4][0] && bs[at + 1] == bs[at..at + 4][1];
    assert bs[at + 2] == bs[at..at + 4][2] && bs[at + 3] == bs[at..at + 4][3];
    WordSum(x);
  }

  lemma WordSum(x: uint32)
    ensures x % 0x100 + x / 0x100 % 0x100 * 0x100 + x / 0x1_0000 % 0x100 * 0x1_0000 + x / 0x100_0000 * 0x100_0000 == x
  {
    var a, b, c := x / 0x100, x / 0x1_0000, x / 0x100_0000;
    assert x == a * 0x100 + x % 0x100;
    assert a == b * 0x100 + a % 0x100;
    assert b == c * 0x100 + b % 0x100;
  }

  function Words(xs: seq<uint32>): (r: seq<byte>)
    ensures |r| == 4 * |xs|
  {
    if xs == [] then [] else Word(xs[0]) + Words(xs[1..])
  }

  lemma {:induction false} WordsAt(xs: seq<uint32>, j: nat)
    requires j < |xs|
    ensures Words(xs)[4 * j..4 * j + 4] == Word(xs[j])
    decreases |xs|
  {
    if j > 0 {
      WordsAt(xs[1..], j - 1);
      assert Words(xs)[4 * j..4 * j + 4] == Words(xs[1..])[4 * (j - 1)..4 * (j - 1) + 4];
    }
  }

  /** A block of pointers reads back as the pointers that were stored in it. */
  lemma PointersRead(xs: seq<uint32>)
    ensures Pointers(Words(xs)) == xs
  {
    hide Words, Word, LittleEndian;
    forall j | 0 <= j < |xs|
      ensures Pointers(Words(xs))[j] == xs[j]
    {
      WordsAt(xs, j);
      WordReads(Words(xs), 4 * j, xs[j]);
    }
  }

  /** An inode in its place: 40 bytes of other fields, fifteen pointers, and what follows them. */
  lemma InodeReads(head: seq<byte>, inode: Inode, tail: seq<byte>)
    requires |head| == 40 && |inode.direct| == 12 && |tail| >= 28
    ensures ParseInode(head + Words(inode.direct + [inode.indirect1, inode.indirect2, inode.indirect3]) + tail) == inode
  {
    hide Words, Word, LittleEndian;
    var xs := inode.direct + [inode.indirect1, inode.indirect2, inode.indirect3];
    var bs := head + Words(xs) + tail;
    forall j | 0 <= j < 15
      ensures LittleEndian(bs, 40 + 4 * j) == xs[j]
    {
      WordsAt(xs, j);
      assert bs[40 + 4 * j..40 + 4 * j + 4] == Words(xs)[4 * j..4 * j + 4];
      WordReads(bs, 40 + 4 * j, xs[j]);
    }
    assert LittleEndian(bs, 40 + 4 * 12) == xs[12] && LittleEndian(bs, 40 + 4 * 13) == xs[13] && LittleEndian(bs, 40 + 4 * 14) == xs[14];
    forall j | 0 <= j < 12
      ensures ParseInode(bs).direct[j] == inode.direct[j]
    {
      assert LittleEndian(bs, 40 + 4 * j) == xs[j];
    }
  }

  /** Inodes of `inodeSize` bytes follow one another in the table of their group: the place of byte j of inode `ino`. */
  function InodeByte(fs: Fs, ino: uint32, j: nat): nat
    requires ValidTables(fs) && ino != 0
  {
    MulNotNegative((ino - 1) % fs.inodesPerGroup, fs.inodeSize);
    (ino - 1) % fs.inodesPerGroup * fs.inodeSize + j
  }

  function InodeCardBlock(fs: Fs, ino: uint32, j: nat): (b: nat)
    requires KnownInode(fs, ino)
  {
    fs.inodeTable[(ino - 1) / fs.inodesPerGroup] + BlockNumber(fs, InodeByte(fs, ino, j))
  }

  lemma InodePlace(fs: Fs, ino: uint32, j: nat)
    requires KnownInode(fs, ino) && j < 128
    ensures U32(InodeCardBlock(fs, ino, j)) == InodeBlock(fs, ino)
    ensures InodeOffset(fs, ino) + j == PlaceIn(fs, InodeByte(fs, ino, j)) < BlockSize(fs)
  {
    hide Power;
    BlockPower(fs);
    var p, size := IndexInGroup(fs, ino) * fs.inodeSize, BlockSize(fs);
    OffsetSplits(fs, IndexInGroup(fs, ino));
    DivUnique(p + j, size, p / size, InodeOffset(fs, ino) + j);
  }

  /** Byte j of an inode has a block whose number does not wrap, and is on the card. */
  predicate InodeByteOnCard(fs: Fs, ino: uint32, j: nat)
    requires KnownInode(fs, ino)
  {
    InodeCardBlock(fs, ino, j) < 0x1_0000_0000 && OnCard(fs, InodeCardBlock(fs, ino, j), PlaceIn(fs, InodeByte(fs, ino, j)))
  }

  function InodeCardByte(fs: Fs, ino: uint32, j: nat): byte
    requires KnownInode(fs, ino) && InodeByteOnCard(fs, ino, j)
  {
    CardByte(fs, InodeCardBlock(fs, ino, j), PlaceIn(fs, InodeByte(fs, ino, j)))
  }

  /** The 128 bytes of an inode that the reader hands out. */
  ghost predicate InodeFromCard(fs: Fs, ino: uint32, bytes: seq<byte>)
    requires KnownInode(fs, ino)
  {
    forall j :: 0 <= j < |bytes| && InodeByteOnCard(fs, ino, j) ==> bytes[j] == InodeCardByte(fs, ino, j)
  }

  lemma InodeComesFromCard(fs: Fs, ino: uint32, buf: seq<byte>, at: nat)
    requires KnownInode(fs, ino) && buf == Block(fs, InodeBlock(fs, ino)) && at == InodeOffset(fs, ino)
    ensures at + 128 <= |buf| && InodeFromCard(fs, ino, buf[at..at + 128])
  {
    hide Block, OnCard, CardByte, InodeByte, InodeCardBlock, PlaceIn, InodeBlock, InodeOffset, ValidTables, BlockSize;
    forall j | 0 <= j < 128 && InodeByteOnCard(fs, ino, j)
      ensures buf[at..at + 128][j] == InodeCardByte(fs, ino, j)
    {
      InodePlace(fs, ino, j);
      BlockIsOnCard(fs, InodeCardBlock(fs, ino, j), PlaceIn(fs, InodeByte(fs, ino, j)));
    }
  }

  // ---------------------------------------------------------------- directories

  /** An entry as it is stored: inode number, length, length of the name, type, name, padding. */
  datatype Entry = Entry(ino: uint32, name: Name, kind: byte, padding: seq<byte>)

  predicate ValidEntry(e: Entry) {
    |e.name| < 256 && 0 !in e.name && SLASH !in e.name && 8 + |e.name| + |e.padding| < 0x1_0000
  }

  function EntryBytes(e: Entry): (r: seq<byte>)
    requires ValidEntry(e)
    ensures |r| == 8 + |e.name| + |e.padding|
  {
    var n := 8 + |e.name| + |e.padding|;
    Word(e.ino) + [n % 0x100, n / 0x100, |e.name|, e.kind] + e.name + e.padding
  }

  function DirBytes(es: seq<Entry>): seq<byte>
    requires forall i :: 0 <= i < |es| ==> ValidEntry(es[i])
  {
    if es == [] then [] else EntryBytes(es[0]) + DirBytes(es[1..])
  }

  /** The first entry in use with that name. */
  function FirstEntry(es: seq<Entry>, name: Name): uint32 {
    if es == [] then 0
    else if es[0].ino != 0 && es[0].name == name then es[0].ino
    else FirstEntry(es[1..], name)
  }

  lemma EntryReads(front: seq<byte>, e: Entry, rest: seq<byte>)
    requires ValidEntry(e)
    ensures var bs, pos := front + (EntryBytes(e) + rest), |front|;
            && EntryOk(bs, pos) && Half(bs, pos + 4) == |EntryBytes(e)|
            && LittleEndian(bs, pos) == e.ino && EntryName(bs, pos) == e.name
  {
    hide Word, LittleEndian;
    var bs, pos := front + (EntryBytes(e) + rest), |front|;
    assert bs[pos..pos + 4] == Word(e.ino);
    WordReads(bs, pos, e.ino);
    assert bs[pos + 8..pos + 8 + |e.name|] == e.name;
    forall i | pos + 8 <= i < pos + 8 + |e.name|
      ensures bs[i] != 0 && bs[i] != SLASH
    {
      assert bs[i] == e.name[i - pos - 8];
    }
  }

  /** A directory block that holds the entries reads back as those entries. */
  lemma {:induction false} DirReads(front: seq<byte>, es: seq<Entry>, name: Name)
    requires forall i :: 0 <= i < |es| ==> ValidEntry(es[i])
    ensures var bs := front + DirBytes(es);
            DirOk(bs, |front|) && FindInBlock(bs, |front|, name) == FirstEntry(es, name)
    decreases |es|
  {
    hide EntryBytes, EntryOk, LittleEndian, EntryName, Half;
    if es != [] {
      var bs := front + DirBytes(es);
      EntryReads(front, es[0], DirBytes(es[1..]));
      assert bs == (front + EntryBytes(es[0])) + DirBytes(es[1..]);
      DirReads(front + EntryBytes(es[0]), es[1..], name);
    }
  }
}
