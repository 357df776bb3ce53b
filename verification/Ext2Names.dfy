/** Inodes by number, directory entries and paths: what the lookups of software/bios/ext2.c:88-209 should find. */
module Ext2Names {
  import opened MachineTypes
  import opened Arithmetic
  import opened Ext2Layout

  // ---------------------------------------------------------------- inodes

  predicate ValidTables(fs: Fs) {
    && 0 < fs.inodesPerGroup && 128 <= fs.inodeSize && BlockSize(fs) % fs.inodeSize == 0
    && fs.inodesPerGroup * fs.inodeSize <= 0x1_0000_0000
  }

  function InodesPerBlock(fs: Fs): nat
    requires ValidTables(fs)
  {
    BlockSize(fs) / fs.inodeSize
  }

  /** An inode number whose group has a descriptor and whose block has a legal number. */
  predicate KnownInode(fs: Fs, ino: uint32) {
    && ValidTables(fs) && ino != 0 && (ino - 1) / fs.inodesPerGroup < |fs.inodeTable|
    && InodeBlock(fs, ino) != NO_BLOCK
  }

  function IndexInGroup(fs: Fs, ino: uint32): nat
    requires ValidTables(fs) && ino != 0
  {
    (ino - 1) % fs.inodesPerGroup
  }

  /** The block of the inode table that holds an inode: so many inodes fit into each block. */
  function InodeBlock(fs: Fs, ino: uint32): uint32
    requires ValidTables(fs) && ino != 0 && (ino - 1) / fs.inodesPerGroup < |fs.inodeTable|
  {
    U32(fs.inodeTable[(ino - 1) / fs.inodesPerGroup] + IndexInGroup(fs, ino) / InodesPerBlock(fs))
  }

  function InodeOffset(fs: Fs, ino: uint32): (r: nat)
    requires ValidTables(fs) && ino != 0
    ensures r + 128 <= BlockSize(fs)
  {
    var per := InodesPerBlock(fs);
    var slot := IndexInGroup(fs, ino) % per;
    PerBlock(fs);
    LineBounds(slot, per, fs.inodeSize);
    slot * fs.inodeSize
  }

  lemma PerBlock(fs: Fs)
    requires ValidTables(fs)
    ensures InodesPerBlock(fs) > 0 && InodesPerBlock(fs) * fs.inodeSize == BlockSize(fs)
  {
    var b, s := BlockSize(fs), fs.inodeSize;
    assert b == b / s * s + b % s;
  }

  /** Dividing the byte offset by the block size finds the same block and place as counting inodes. */
  lemma OffsetSplits(fs: Fs, index: nat)
    requires ValidTables(fs)
    ensures index * fs.inodeSize / BlockSize(fs) == index / InodesPerBlock(fs)
    ensures index * fs.inodeSize % BlockSize(fs) == index % InodesPerBlock(fs) * fs.inodeSize
  {
    PerBlock(fs);
    SplitProduct(index, fs.inodeSize, InodesPerBlock(fs), BlockSize(fs));
  }

  lemma SplitProduct(i: nat, s: nat, per: nat, b: nat)
    requires s > 0 && per > 0 && b == per * s
    ensures i * s / b == i / per && i * s % b == i % per * s
  {
    var q, r := i / per, i % per;
    assert i == q * per + r;
    assert (q * per + r) * s == q * (per * s) + r * s;
    LineBounds(r, per, s);
    DivUnique(i * s, b, q, r * s);
  }

  function ParseInode(bs: seq<byte>): (r: Inode)
    requires |bs| >= 128
    ensures |r.direct| == 12
  {
    Inode(seq(12, i requires 0 <= i < 12 => LittleEndian(bs, 40 + 4 * i)), LittleEndian(bs, 88), LittleEndian(bs, 92), LittleEndian(bs, 96))
  }

  function DiskInode(fs: Fs, ino: uint32): (r: Inode)
    requires KnownInode(fs, ino)
    ensures |r.direct| == 12
  {
    ParseInode(Block(fs, InodeBlock(fs, ino))[InodeOffset(fs, ino)..])
  }

  // ---------------------------------------------------------------- directories

  type Name = seq<byte>

  const SLASH: byte := 47

  function Half(bs: seq<byte>, at: nat): nat
    requires at + 2 <= |bs|
  {
    var b0: int, b1: int := bs[at], bs[at + 1];
    b0 + b1 * 0x100
  }

  /** A directory entry: inode number, entry size, name size, an unused byte, the name. */
  predicate EntryOk(bs: seq<byte>, pos: nat) {
    && pos + 8 <= |bs|
    && 8 + bs[pos + 6] <= Half(bs, pos + 4) && pos + Half(bs, pos + 4) <= |bs|
    && (forall i :: pos + 8 <= i < pos + 8 + bs[pos + 6] ==> bs[i] != 0 && bs[i] != SLASH)
  }

  /** Well-formed entries fill the block from `pos` to its end. */
  predicate DirOk(bs: seq<byte>, pos: nat)
    decreases |bs| - pos
  {
    pos == |bs| || (EntryOk(bs, pos) && DirOk(bs, pos + Half(bs, pos + 4)))
  }

  function EntryName(bs: seq<byte>, pos: nat): Name
    requires EntryOk(bs, pos)
  {
    bs[pos + 8..pos + 8 + bs[pos + 6]]
  }

  /** The first used entry with the given name, from `pos` on; 0 if there is none. */
  function FindInBlock(bs: seq<byte>, pos: nat, name: Name): uint32
    requires DirOk(bs, pos)
    decreases |bs| - pos
  {
    if pos == |bs| then 0
    else if LittleEndian(bs, pos) != 0 && EntryName(bs, pos) == name then LittleEndian(bs, pos)
    else FindInBlock(bs, pos + Half(bs, pos + 4), name)
  }

  predicate DirBlocksOk(fs: Fs, blocks: seq<uint32>) {
    forall i :: 0 <= i < |blocks| ==> DirOk(Block(fs, blocks[i]), 0)
  }

  function FindInBlocks(fs: Fs, blocks: seq<uint32>, name: Name): uint32
    requires DirBlocksOk(fs, blocks)
  {
    if blocks == [] then 0
    else
      var r := FindInBlock(Block(fs, blocks[0]), 0, name);
      if r != 0 then r else FindInBlocks(fs, blocks[1..], name)
  }

  // ---------------------------------------------------------------- paths

  /** The first component of a path. */
  function Component(path: seq<byte>): (r: Name)
    ensures |r| <= |path| && r == path[..|r|] && SLASH !in r
    ensures |r| < |path| ==> path[|r|] == SLASH
  {
    if path == [] || path[0] == SLASH then [] else [path[0]] + Component(path[1..])
  }

  /** What follows the first component and one slash. */
  function AfterComponent(path: seq<byte>): (r: seq<byte>)
    ensures path != [] ==> |r| < |path|
  {
    var n := |Component(path)|;
    if n < |path| then path[n + 1..] else []
  }

  /** Every inode met on the way is known and holds well-formed directory blocks. */
  predicate WalkOk(fs: Fs, ino: uint32, path: seq<byte>)
    decreases |path|
  {
    ino == 0 || (KnownInode(fs, ino) &&
      (path == [] ||
        var blocks := BlocksRead(fs, DiskInode(fs, ino));
        DirBlocksOk(fs, blocks) && WalkOk(fs, FindInBlocks(fs, blocks, Component(path)), AfterComponent(path))))
  }

  function Walk(fs: Fs, ino: uint32, path: seq<byte>): uint32
    requires WalkOk(fs, ino, path)
    decreases |path|
  {
    if ino == 0 || path == [] then ino
    else Walk(fs, FindInBlocks(fs, BlocksRead(fs, DiskInode(fs, ino)), Component(path)), AfterComponent(path))
  }

  /** Every directory on the way down a list of names is known and well formed. */
  predicate ResolveOk(fs: Fs, ino: uint32, names: seq<Name>)
    decreases |names|
  {
    ino == 0 || (KnownInode(fs, ino) &&
      (names == [] ||
        var blocks := BlocksRead(fs, DiskInode(fs, ino));
        DirBlocksOk(fs, blocks) && ResolveOk(fs, FindInBlocks(fs, blocks, names[0]), names[1..])))
  }

  /** Looking up one name after another. */
  function Resolve(fs: Fs, ino: uint32, names: seq<Name>): uint32
    requires ResolveOk(fs, ino, names)
    decreases |names|
  {
    if ino == 0 || names == [] then ino
    else Resolve(fs, FindInBlocks(fs, BlocksRead(fs, DiskInode(fs, ino)), names[0]), names[1..])
  }

  predicate ProperNames(names: seq<Name>) {
    forall i :: 0 <= i < |names| ==> names[i] != [] && SLASH !in names[i]
  }

  /** The path spelled from names, with or without a slash at the end. */
  function Spell(names: seq<Name>, trailing: bool): seq<byte> {
    if names == [] then []
    else if |names| == 1 then names[0] + (if trailing then [0x2f] else [])
    else names[0] + [0x2f] + Spell(names[1..], trailing)
  }

  lemma {:induction false} ComponentOf(name: Name, rest: seq<byte>)
    requires SLASH !in name && (rest == [] || rest[0] == SLASH)
    ensures Component(name + rest) == name
    decreases |name|
  {
    if name == [] {
      assert name + rest == rest;
    } else {
      assert (name + rest)[1..] == name[1..] + rest;
      ComponentOf(name[1..], rest);
    }
  }

  lemma SpellSteps(names: seq<Name>, trailing: bool)
    requires names != [] && ProperNames(names)
    ensures Spell(names, trailing) != []
    ensures Component(Spell(names, trailing)) == names[0]
    ensures AfterComponent(Spell(names, trailing)) == Spell(names[1..], trailing)
  {
    var rest: seq<byte> := if |names| == 1 then (if trailing then [0x2f] else []) else [0x2f] + Spell(names[1..], trailing);
    assert Spell(names, trailing) == names[0] + rest;
    ComponentOf(names[0], rest);
  }

  /** Walking the path spelled from proper names is looking the names up one by one. */
  lemma {:induction false} WalkSpelled(fs: Fs, ino: uint32, names: seq<Name>, trailing: bool)
    requires ProperNames(names) && ResolveOk(fs, ino, names)
    ensures WalkOk(fs, ino, Spell(names, trailing))
    ensures Walk(fs, ino, Spell(names, trailing)) == Resolve(fs, ino, names)
    decreases |names|
  {
    hide KnownInode, DiskInode, BlocksRead, Component, AfterComponent, Spell, FindInBlocks, DirBlocksOk;
    if names == [] {
      SpellNothing(trailing);
    } else {
      SpellSteps(names, trailing);
      if ino != 0 {
        WalkSpelled(fs, FindInBlocks(fs, BlocksRead(fs, DiskInode(fs, ino)), names[0]), names[1..], trailing);
      }
    }
  }

  lemma SpellNothing(trailing: bool)
    ensures Spell([], trailing) == []
  {
  }
}
