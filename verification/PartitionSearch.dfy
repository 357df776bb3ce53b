/** The search for an ext2 partition on the SD card (software/bios/ext2.c:260-275). */
module PartitionSearch {
  import opened MachineTypes
  import Ext2Card

  type Mbr = s: seq<byte> | |s| == 512 witness seq(512, _ => 0)

  /** init_ext2_reader(start) == 0, for the card that is in the slot. */
  type Probe = uint32 -> bool

  const ENTRIES := 0x1be

  function Start(m: Mbr, i: nat): uint32
    requires i < 4
  {
    LittleEndian(m, ENTRIES + 16 * i + 8)
  }

  function Size(m: Mbr, i: nat): uint32
    requires i < 4
  {
    LittleEndian(m, ENTRIES + 16 * i + 12)
  }

  predicate Used(m: Mbr, i: nat)
    requires i < 4
  {
    Start(m, i) != 0 && Size(m, i) != 0
  }

  /** An entry of the partition table: eight bytes of other fields, first sector, number of sectors. */
  datatype Partition = Partition(other: seq<byte>, start: uint32, size: uint32)

  function EntryBytes(p: Partition): seq<byte> {
    p.other + Ext2Card.Word(p.start) + Ext2Card.Word(p.size)
  }

  /** A boot sector with its four entries from byte 446 on reads back as these entries. */
  lemma TableReads(front: seq<byte>, p: seq<Partition>, signature: seq<byte>, i: nat)
    requires |front| == 446 && |p| == 4 && |signature| == 2 && i < 4
    requires forall j :: 0 <= j < 4 ==> |p[j].other| == 8
    ensures var m := front + EntryBytes(p[0]) + EntryBytes(p[1]) + EntryBytes(p[2]) + EntryBytes(p[3]) + signature;
            && |m| == 512 && Start(m, i) == p[i].start && Size(m, i) == p[i].size
            && (Used(m, i) <==> p[i].start != 0 && p[i].size != 0)
  {
    hide Ext2Card.Word, LittleEndian;
    var m := front + EntryBytes(p[0]) + EntryBytes(p[1]) + EntryBytes(p[2]) + EntryBytes(p[3]) + signature;
    assert m[446 + 16 * i..462 + 16 * i] == EntryBytes(p[i]);
    assert m[454 + 16 * i..458 + 16 * i] == EntryBytes(p[i])[8..12] == Ext2Card.Word(p[i].start);
    assert m[458 + 16 * i..462 + 16 * i] == EntryBytes(p[i])[12..16] == Ext2Card.Word(p[i].size);
    Ext2Card.WordReads(m, 454 + 16 * i, p[i].start);
    Ext2Card.WordReads(m, 458 + 16 * i, p[i].size);
  }

  /** What ext2.h promises: the first partition that holds an ext2 file system. */
  function FirstExt2(m: Mbr, probe: Probe, i: nat): int
    requires i <= 4
    decreases 4 - i
  {
    if i == 4 then -1 else if Used(m, i) && probe(Start(m, i)) then i + 1 else FirstExt2(m, probe, i + 1)
  }

  function Promised(m: Option<Mbr>, probe: Probe): int {
    if m.None? then -1 else if probe(0) then 0 else FirstExt2(m.value, probe, 0)
  }

  // ---------------------------------------------------------------- what the loop does

  /** An unused entry is passed over without moving the pointer to the next one, so that the search ends there. */
  function FoundBefore(m: Mbr, probe: Probe, i: nat): int
    requires i <= 4
    decreases 4 - i
  {
    if i == 4 || !Used(m, i) then -1 else if probe(Start(m, i)) then i + 1 else FoundBefore(m, probe, i + 1)
  }

  function Found(m: Option<Mbr>, probe: Probe): int {
    if m.None? then -1 else if probe(0) then 0 else FoundBefore(m.value, probe, 0)
  }

  /** search_and_select_ext2_fs; `m` is None when sector 0 cannot be read. */
  method SearchAndSelect(m: Option<Mbr>, probe: Probe) returns (r: int)
    ensures r == Found(m, probe)
  {
    hide Start, Size;
    if m.None? {
      return -1;
    }
    if probe(0) {
      return 0;
    }
    var entry := 0;
    for i := 0 to 4
      invariant entry <= i && (entry < i ==> !Used(m.value, entry))
      invariant FoundBefore(m.value, probe, entry) == FoundBefore(m.value, probe, 0)
    {
      if !Used(m.value, entry) {
        continue;
      }
      if probe(Start(m.value, entry)) {
        return i + 1;
      }
      entry := entry + 1;
    }
    return -1;
  }

  /** The first unused entry, or 4. */
  function Reach(m: Mbr, i: nat): (n: nat)
    requires i <= 4
    ensures i <= n <= 4 && (n < 4 ==> !Used(m, n))
    ensures forall j :: i <= j < n ==> Used(m, j)
    decreases 4 - i
  {
    if i == 4 || !Used(m, i) then i else Reach(m, i + 1)
  }

  /** Every partition behind the first unused entry is also listed before it. */
  predicate NothingBehindGap(m: Mbr) {
    var n := Reach(m, 0);
    forall j :: n <= j < 4 && Used(m, j) ==> exists i :: 0 <= i < n && Start(m, i) == Start(m, j)
  }

  /** The search keeps its promise on a partition table for every card exactly when no partition is behind a gap. */
  lemma SearchIsComplete(m: Mbr)
    ensures (forall probe: Probe :: Found(Some(m), probe) == Promised(Some(m), probe)) <==> NothingBehindGap(m)
  {
    hide Used, Start, FirstExt2, FoundBefore;
    if NothingBehindGap(m) {
      forall probe: Probe
        ensures Found(Some(m), probe) == Promised(Some(m), probe)
      {
        if !probe(0) {
          Agree(m, probe, 0);
        }
      }
    } else {
      var n := Reach(m, 0);
      var j :| n <= j < 4 && Used(m, j) && !exists i :: 0 <= i < n && Start(m, i) == Start(m, j);
      var probe: Probe := s => s == Start(m, j);
      UsedStart(m, j);
      Missed(m, probe, 0);
      Hit(m, probe, 0, j);
      assert Found(Some(m), probe) != Promised(Some(m), probe);
    }
  }

  lemma UsedStart(m: Mbr, j: nat)
    requires j < 4 && Used(m, j)
    ensures Start(m, j) != 0
  {
  }

  lemma {:induction false} Agree(m: Mbr, probe: Probe, i: nat)
    requires NothingBehindGap(m) && i <= Reach(m, 0)
    requires forall k :: 0 <= k < i ==> !probe(Start(m, k))
    ensures FoundBefore(m, probe, i) == FirstExt2(m, probe, i)
    decreases 4 - i
  {
    hide Start;
    var n := Reach(m, 0);
    if i == n {
      forall j | n <= j < 4 && Used(m, j)
        ensures !probe(Start(m, j))
      {
        var k :| 0 <= k < n && Start(m, k) == Start(m, j);
      }
      Nothing(m, probe, n);
    } else if !probe(Start(m, i)) {
      Agree(m, probe, i + 1);
    }
  }

  lemma {:induction false} Nothing(m: Mbr, probe: Probe, i: nat)
    requires i <= 4 && forall j :: i <= j < 4 && Used(m, j) ==> !probe(Start(m, j))
    ensures FirstExt2(m, probe, i) == -1
    decreases 4 - i
  {
    if i < 4 {
      Nothing(m, probe, i + 1);
    }
  }

  lemma {:induction false} Missed(m: Mbr, probe: Probe, i: nat)
    requires i <= Reach(m, 0) && forall k :: i <= k < Reach(m, 0) ==> !probe(Start(m, k))
    ensures FoundBefore(m, probe, i) == -1
    decreases 4 - i
  {
    hide Start;
    if i < Reach(m, 0) {
      Missed(m, probe, i + 1);
    }
  }

  lemma {:induction false} Hit(m: Mbr, probe: Probe, i: nat, j: nat)
    requires i <= j < 4 && Used(m, j) && probe(Start(m, j))
    ensures FirstExt2(m, probe, i) != -1
    decreases 4 - i
  {
    if i < j {
      Hit(m, probe, i + 1, j);
    }
  }
}
