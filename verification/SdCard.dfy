/**
  Reading and writing runs of sectors through the two buffers of the SD card controller
  (software/bios/sdcard.c:171-250; software/linux/drivers/mmcblk.c:75-117 is the same code).
 */
module SdCard {
  import opened MachineTypes

  const WORDS := 128

  type Block = s: seq<uint32> | |s| == WORDS witness seq(WORDS, _ => 0)

  function Flat(blocks: seq<Block>): (r: seq<uint32>)
    ensures |r| == |blocks| * WORDS
    decreases |blocks|
  {
    if blocks == [] then [] else Flat(blocks[..|blocks| - 1]) + blocks[|blocks| - 1]
  }

  /** Transfer number k of a command fails if the card reports an error for it or has no such sector. */
  predicate Fails(faults: seq<bool>, size: nat, sector: nat, k: nat) {
    (k < |faults| && faults[k]) || sector + k >= size
  }

  /** n is the number of transfers up to the first one that fails, out of `count`. */
  predicate UpToFault(faults: seq<bool>, size: nat, sector: nat, count: nat, n: nat) {
    n <= count && (forall k :: 0 <= k < n ==> !Fails(faults, size, sector, k))
    && (n < count ==> Fails(faults, size, sector, n))
  }

  /**
    The controller as the driver sees it.  A transfer moves one sector between the card and one of the two buffers
    and goes on by itself until it is waited for; meanwhile that buffer is not to be touched, which is what the
    two port methods require.  A write to the command register brings the ports back to word 0.
   */
  class Controller {
    var card: seq<Block>
    var fifo0: Block
    var fifo1: Block
    var position: nat
    var busy: bool
    var busyFifo: int
    var writing: bool
    var err: bool
    var sector: nat
    var transfers: nat
    const faults: seq<bool>

    ghost predicate Idle()
      reads this
    {
      !busy && |card| > 0
    }

    function Fifo(k: int): Block
      reads this
    {
      if k == 0 then fifo0 else fifo1
    }

    ghost predicate Failing(k: nat)
      reads this
    {
      Fails(faults, |card|, sector, k)
    }

    method SetFifo(k: int, b: Block)
      modifies this`fifo0, this`fifo1
      ensures fifo0 == (if k == 0 then b else old(fifo0)) && fifo1 == (if k == 0 then old(fifo1) else b)
    {
      if k == 0 {
        fifo0 := b;
      } else {
        fifo1 := b;
      }
    }

    /** sd_wait_ready: command 13, as often as it takes. */
    method WaitReady()
      requires !busy
      modifies this`position, this`err
      ensures position == 0
    {
      position := 0;
      err := *;
    }

    /** Read or write command with its first transfer, through buffer 0: MEM together with CMD 18 or 25. */
    method Begin(at: nat, write: bool)
      requires !busy
      modifies this`sector, this`transfers, this`err, this`position, this`busy, this`busyFifo, this`writing, this`fifo0
      ensures busy && busyFifo == 0 && writing == write && position == 0 && sector == at && transfers == 0 && !err
      ensures write ==> fifo0 == old(fifo0)
    {
      sector, transfers, err, position := at, 0, false, 0;
      busy, busyFifo, writing := true, 0, write;
      if !write {
        fifo0 := *;
      }
    }

    /** cmd = SDIO_MEM | fifo: the next transfer, through buffer k. */
    method Continue(k: int, write: bool)
      requires !busy && (k == 0 || k == 1)
      modifies this`position, this`busy, this`busyFifo, this`writing, this`fifo0, this`fifo1
      ensures busy && busyFifo == k && writing == write && position == 0
      ensures k == 1 || write ==> fifo0 == old(fifo0)
      ensures k == 0 || write ==> fifo1 == old(fifo1)
    {
      position, busy, busyFifo, writing := 0, true, k, write;
      if !write {
        var anything: Block := *;
        SetFifo(k, anything);
      }
    }

    /** The busy loop: the transfer that is going on has come to its end. */
    method Wait()
      requires busy && (busyFifo == 0 || busyFifo == 1)
      modifies this`card, this`fifo0, this`fifo1, this`busy, this`err, this`transfers
      ensures !busy && transfers == old(transfers) + 1 && err == (old(err) || old(Failing(transfers)))
      ensures |card| == |old(card)|
      ensures var k := old(transfers);
              forall i :: 0 <= i < |card| && !(writing && i == sector + k) ==> card[i] == old(card[i])
      ensures var k := old(transfers);
              !old(Failing(transfers)) ==>
                sector + k < |card| && if writing then card[sector + k] == old(Fifo(busyFifo)) else Fifo(busyFifo) == card[sector + k]
      ensures busyFifo == 1 || writing ==> fifo0 == old(fifo0)
      ensures busyFifo == 0 || writing ==> fifo1 == old(fifo1)
    {
      var at := sector + transfers;
      var fails := (transfers < |faults| && faults[transfers]) || at >= |card|;
      var data: Block := *;
      if writing {
        if !fails {
          data := Fifo(busyFifo);
        }
        if at < |card| {
          card := card[at := data];
        }
      } else {
        if !fails {
          data := card[at];
        }
        SetFifo(busyFifo, data);
      }
      err := err || fails;
      busy := false;
      transfers := transfers + 1;
    }

    /** command(SDIO_R1b | 12, 0), which ends the run of transfers. */
    method Stop()
      requires !busy
      modifies this`position, this`err
      ensures position == 0
    {
      position := 0;
      err := *;
    }

    method ReadPort(k: int) returns (w: uint32)
      requires position < WORDS && !(busy && busyFifo == k)
      modifies this`position
      ensures w == Fifo(k)[old(position)] && position == old(position) + 1
    {
      w := Fifo(k)[position];
      position := position + 1;
    }

    method WritePort(k: int, w: uint32)
      requires position < WORDS && !(busy && busyFifo == k)
      modifies this`position, this`fifo0, this`fifo1
      ensures position == old(position) + 1
      ensures fifo0 == if k == 0 then old(fifo0)[old(position) := w] else old(fifo0)
      ensures fifo1 == if k == 0 then old(fifo1) else old(fifo1)[old(position) := w]
    {
      SetFifo(k, Fifo(k)[position := w]);
      position := position + 1;
    }
  }

  method ReceiveSector(c: Controller, dst: array<uint32>, at: nat, k: int) returns (next: nat)
    requires at + WORDS <= dst.Length && c.position == 0 && !(c.busy && c.busyFifo == k)
    modifies c`position, dst
    ensures next == at + WORDS
    ensures dst[..] == old(dst[..at]) + c.Fifo(k) + old(dst[at + WORDS..])
  {
    ghost var data := c.Fifo(k);
    ghost var was := dst[..];
    next := at;
    while next < at + WORDS
      invariant at <= next <= at + WORDS && (next - at) % 4 == 0 && c.position == next - at
      invariant forall j :: 0 <= j < dst.Length ==> dst[j] == if at <= j < next then data[j - at] else was[j]
    {
      var w0 := c.ReadPort(k);
      dst[next] := w0;
      var w1 := c.ReadPort(k);
      dst[next + 1] := w1;
      var w2 := c.ReadPort(k);
      dst[next + 2] := w2;
      var w3 := c.ReadPort(k);
      dst[next + 3] := w3;
      next := next + 4;
    }
  }

  method SendSector(c: Controller, src: array<uint32>, at: nat, k: int) returns (next: nat)
    requires at + WORDS <= src.Length && c.position == 0 && (k == 0 || k == 1) && !(c.busy && c.busyFifo == k)
    modifies c`position, c`fifo0, c`fifo1
    ensures next == at + WORDS && c.Fifo(k) == src[at..at + WORDS]
    ensures c.Fifo(1 - k) == old(c.Fifo(1 - k))
  {
    next := at;
    while next < at + WORDS
      invariant at <= next <= at + WORDS && (next - at) % 4 == 0 && c.position == next - at
      invariant forall j :: 0 <= j < next - at ==> c.Fifo(k)[j] == src[at + j]
      invariant c.Fifo(1 - k) == old(c.Fifo(1 - k))
    {
      ghost var f, p := c.Fifo(k), next - at;
      c.WritePort(k, src[next]);
      c.WritePort(k, src[next + 1]);
      c.WritePort(k, src[next + 2]);
      c.WritePort(k, src[next + 3]);
      assert c.Fifo(k) == f[p := src[next]][p + 1 := src[next + 1]][p + 2 := src[next + 2]][p + 3 := src[next + 3]];
      next := next + 4;
    }
  }

  lemma FlatNext(blocks: seq<Block>, from: nat, k: nat)
    requires from + k < |blocks|
    ensures Flat(blocks[from..from + k + 1]) == Flat(blocks[from..from + k]) + blocks[from + k]
  {
    assert blocks[from..from + k + 1][..k] == blocks[from..from + k];
  }

  /** What a read of `count` sectors from `sector` may come back with. */
  predicate ReadOutcome(card: seq<Block>, faults: seq<bool>, sector: nat, count: nat, was: seq<uint32>, dst: seq<uint32>, n: nat) {
    UpToFault(faults, |card|, sector, count, n)
    && (n > 0 ==> sector + n <= |card|)
    && n * WORDS <= |was|
    && dst == (if n == 0 then [] else Flat(card[sector..sector + n])) + was[n * WORDS..]
  }

  lemma ReadNone(card: seq<Block>, faults: seq<bool>, sector: nat, was: seq<uint32>)
    ensures ReadOutcome(card, faults, sector, 0, was, was, 0)
  {
  }

  /** One more sector has arrived in the buffer and been copied. */
  lemma ReadMore(card: seq<Block>, faults: seq<bool>, sector: nat, k: nat, was: seq<uint32>, before: seq<uint32>, after: seq<uint32>)
    requires ReadOutcome(card, faults, sector, k, was, before, k) && !Fails(faults, |card|, sector, k)
    requires k * WORDS + WORDS <= |was| && |before| == |was|
    requires after == before[..k * WORDS] + card[sector + k] + before[k * WORDS + WORDS..]
    ensures ReadOutcome(card, faults, sector, k + 1, was, after, k + 1)
  {
    FlatNext(card, sector, k);
    assert card[sector..sector] == [];
    assert before[..k * WORDS] == Flat(card[sector..sector + k]);
    assert before[k * WORDS + WORDS..] == was[k * WORDS + WORDS..];
  }

  /** The run ends at a transfer that has failed. */
  lemma ReadStops(card: seq<Block>, faults: seq<bool>, sector: nat, count: nat, k: nat, was: seq<uint32>, dst: seq<uint32>)
    requires ReadOutcome(card, faults, sector, k, was, dst, k) && k < count && Fails(faults, |card|, sector, k)
    ensures ReadOutcome(card, faults, sector, count, was, dst, k)
  {
  }

  /** Between two transfers of a read: sector number b is in the buffer that `fifo` does not name, if all went well. */
  ghost predicate Loaded(c: Controller, card: seq<Block>, sector: nat, b: nat, fifo: int)
    reads c
  {
    !c.busy && c.card == card && c.sector == sector && c.transfers == b + 1
    && (fifo == 0 || fifo == 1)
    && c.err == Fails(c.faults, |card|, sector, b)
    && (!c.err ==> sector + b < |card| && c.Fifo(1 - fifo) == card[sector + b])
  }

  method FirstTransfer(c: Controller, sector: nat)
    requires !c.busy
    modifies c
    ensures Loaded(c, old(c.card), sector, 0, 1)
  {
    c.Begin(sector, false);
    c.Wait();
    assert c.card == old(c.card);
  }

  /** The body of the loop in sdread: the next sector goes into one buffer while this one is taken from the other. */
  method ReceiveWhileBusy(c: Controller, dst: array<uint32>, at: nat, fifo: int,
                          ghost card: seq<Block>, ghost sector: nat, ghost b: nat)
    returns (next: nat)
    requires Loaded(c, card, sector, b, fifo) && !c.err && at + WORDS <= dst.Length
    modifies c, dst
    ensures Loaded(c, card, sector, b + 1, 1 - fifo) && !Fails(c.faults, |card|, sector, b)
    ensures next == at + WORDS
    ensures sector + b < |card| && dst[..] == old(dst[..at]) + card[sector + b] + old(dst[at + WORDS..])
  {
    c.Continue(fifo, false);
    next := ReceiveSector(c, dst, at, 1 - fifo);
    c.Wait();
    assert c.card == old(c.card);
  }

  /** `return b` after a failed transfer. */
  method StopEarly(c: Controller, ghost card: seq<Block>, ghost sector: nat, ghost b: nat, ghost fifo: int)
    requires Loaded(c, card, sector, b, fifo) && c.err
    modifies c
    ensures !c.busy && c.card == card && Fails(c.faults, |card|, sector, b)
  {
    c.Stop();
  }

  /** sdread: the sectors before the first failing one are in memory, in order, and nothing else has changed. */
  method SdRead(c: Controller, dst: array<uint32>, sector: nat, count: nat) returns (n: nat)
    requires !c.busy && count * WORDS <= dst.Length
    modifies c, dst
    ensures !c.busy && c.card == old(c.card)
    ensures ReadOutcome(c.card, c.faults, sector, count, old(dst[..]), dst[..], n)
  {
    hide Flat, UpToFault, ReadOutcome, Fails, Loaded;
    ghost var card, was := c.card, dst[..];
    ReadNone(card, c.faults, sector, was);
    if count == 0 {
      return 0;
    }
    c.WaitReady();
    FirstTransfer(c, sector);
    var fifo := 1;
    var at := 0;
    for b := 0 to count - 1
      invariant Loaded(c, card, sector, b, fifo) && at == b * WORDS
      invariant ReadOutcome(card, c.faults, sector, b, was, dst[..], b)
    {
      if c.err {
        StopEarly(c, card, sector, b, fifo);
        ReadStops(card, c.faults, sector, count, b, was, dst[..]);
        return b;
      }
      ghost var before := dst[..];
      at := ReceiveWhileBusy(c, dst, at, fifo, card, sector, b);
      ReadMore(card, c.faults, sector, b, was, before, dst[..]);
      fifo := 1 - fifo;
    }
    n := LastSector(c, dst, at, fifo, card, sector, count, was);
  }

  /** The end of sdread: the last sector is taken after the stop command. */
  method LastSector(c: Controller, dst: array<uint32>, at: nat, fifo: int, ghost card: seq<Block>, ghost sector: nat,
                    count: nat, ghost was: seq<uint32>)
    returns (n: nat)
    requires count > 0 && at == (count - 1) * WORDS && count * WORDS <= dst.Length && |was| == dst.Length
    requires Loaded(c, card, sector, count - 1, fifo)
    requires ReadOutcome(card, c.faults, sector, count - 1, was, dst[..], count - 1)
    modifies c`position, c`err, dst
    ensures !c.busy && c.card == card
    ensures ReadOutcome(card, c.faults, sector, count, was, dst[..], n)
  {
    hide Flat, UpToFault, ReadOutcome, Fails;
    var err := c.err;
    c.Stop();
    if err {
      ReadStops(c.card, c.faults, sector, count, count - 1, was, dst[..]);
      return count - 1;
    }
    ghost var before := dst[..];
    var next := ReceiveSector(c, dst, at, 1 - fifo);
    ReadMore(c.card, c.faults, sector, count - 1, was, before, dst[..]);
    return count;
  }

  // ---------------------------------------------------------------- writing

  /** What a write of `count` sectors may leave behind: at most the sector of the failed transfer is uncertain. */
  predicate WriteOutcome(card: seq<Block>, faults: seq<bool>, sector: nat, count: nat, src: seq<uint32>, after: seq<Block>, n: nat) {
    UpToFault(faults, |card|, sector, count, n)
    && (n > 0 ==> sector + n <= |card|)
    && |after| == |card| && n * WORDS <= |src|
    && (n > 0 ==> Flat(after[sector..sector + n]) == src[..n * WORDS])
    && forall i :: 0 <= i < |card| && !(sector <= i < sector + n) && !(n < count && i == sector + n) ==> after[i] == card[i]
  }

  lemma WriteNone(card: seq<Block>, faults: seq<bool>, sector: nat, src: seq<uint32>)
    ensures WriteOutcome(card, faults, sector, 0, src, card, 0)
  {
  }

  predicate OnlySector(before: seq<Block>, after: seq<Block>, at: nat) {
    |after| == |before| && forall i :: 0 <= i < |before| && i != at ==> after[i] == before[i]
  }

  lemma WriteMore(card: seq<Block>, faults: seq<bool>, sector: nat, k: nat, src: seq<uint32>, before: seq<Block>, after: seq<Block>)
    requires WriteOutcome(card, faults, sector, k, src, before, k) && !Fails(faults, |card|, sector, k)
    requires k * WORDS + WORDS <= |src| && OnlySector(before, after, sector + k)
    requires sector + k < |card| && after[sector + k] == src[k * WORDS..k * WORDS + WORDS]
    ensures WriteOutcome(card, faults, sector, k + 1, src, after, k + 1)
  {
    FlatNext(after, sector, k);
    assert after[sector..sector + k] == before[sector..sector + k];
    assert after[sector..sector] == [];
    assert src[..k * WORDS] + src[k * WORDS..k * WORDS + WORDS] == src[..(k + 1) * WORDS];
  }

  lemma WriteStops(card: seq<Block>, faults: seq<bool>, sector: nat, count: nat, k: nat, src: seq<uint32>, before: seq<Block>, after: seq<Block>)
    requires WriteOutcome(card, faults, sector, k, src, before, k) && k < count && Fails(faults, |card|, sector, k)
    requires OnlySector(before, after, sector + k)
    ensures WriteOutcome(card, faults, sector, count, src, after, k)
  {
    if k > 0 {
      assert after[sector..sector + k] == before[sector..sector + k];
    }
  }

  /** During a write: sector number b is under way from the buffer that `fifo` names. */
  ghost predicate Sending(c: Controller, card: seq<Block>, sector: nat, b: nat, fifo: int, data: seq<uint32>)
    reads c
  {
    c.busy && c.writing && c.busyFifo == fifo && (fifo == 0 || fifo == 1) && c.position == 0
    && c.card == card && c.sector == sector && c.transfers == b && !c.err && c.Fifo(fifo) == data
  }

  /** The transfer is over. */
  ghost predicate Sent(c: Controller, card: seq<Block>, sector: nat, b: nat, data: seq<uint32>)
    reads c
  {
    !c.busy && c.sector == sector && c.transfers == b + 1
    && OnlySector(card, c.card, sector + b)
    && c.err == Fails(c.faults, |card|, sector, b)
    && (!c.err ==> sector + b < |card| && c.card[sector + b] == data)
  }

  method SendFirst(c: Controller, src: array<uint32>, sector: nat) returns (at: nat)
    requires !c.busy && c.position == 0 && WORDS <= src.Length
    modifies c
    ensures at == WORDS && Sending(c, old(c.card), sector, 0, 0, src[..WORDS])
  {
    at := SendSector(c, src, 0, 0);
    c.Begin(sector, true);
    assert c.card == old(c.card);
  }

  /** The body of the loop in sdwrite, up to the check: the next sector goes into the free buffer meanwhile. */
  method SendWhileBusy(c: Controller, src: array<uint32>, at: nat, fifo: int,
                       ghost card: seq<Block>, ghost sector: nat, ghost b: nat, ghost data: seq<uint32>)
    returns (next: nat)
    requires Sending(c, card, sector, b, fifo, data) && at + WORDS <= src.Length
    modifies c
    ensures Sent(c, card, sector, b, data) && next == at + WORDS
    ensures c.Fifo(1 - fifo) == src[at..at + WORDS]
  {
    next := SendSector(c, src, at, 1 - fifo);
    c.Wait();
  }

  method SendNext(c: Controller, fifo: int, ghost card: seq<Block>, ghost sector: nat, ghost b: nat,
                  ghost data: seq<uint32>, ghost more: seq<uint32>)
    requires Sent(c, card, sector, b, data) && !c.err && (fifo == 0 || fifo == 1) && c.Fifo(fifo) == more
    modifies c
    ensures Sending(c, old(c.card), sector, b + 1, fifo, more)
  {
    c.Continue(fifo, true);
    assert c.card == old(c.card);
  }

  /** sdwrite: the sectors before the first failing one are on the card, in order. */
  method SdWrite(c: Controller, src: array<uint32>, sector: nat, count: nat) returns (n: nat)
    requires !c.busy && count * WORDS <= src.Length
    modifies c
    ensures !c.busy
    ensures WriteOutcome(old(c.card), c.faults, sector, count, src[..], c.card, n)
  {
    hide Flat, UpToFault, WriteOutcome, Fails, Sending, Sent, OnlySector;
    ghost var was, words := c.card, src[..];
    WriteNone(was, c.faults, sector, words);
    if count == 0 {
      return 0;
    }
    c.WaitReady();
    var at := SendFirst(c, src, sector);
    var fifo := 0;
    ghost var data := src[..WORDS];
    for b := 0 to count - 1
      invariant Sending(c, c.card, sector, b, fifo, data) && (fifo == 0 || fifo == 1)
      invariant at == (b + 1) * WORDS && data == words[b * WORDS..at]
      invariant WriteOutcome(was, c.faults, sector, b, words, c.card, b)
    {
      ghost var before := c.card;
      at := SendWhileBusy(c, src, at, fifo, before, sector, b, data);
      fifo := 1 - fifo;
      if c.err {
        n := WriteFailed(c, was, before, sector, count, b, data, words);
        return;
      }
      WriteSucceeded(c, was, before, sector, b, data, words);
      SendNext(c, fifo, before, sector, b, data, words[(b + 1) * WORDS..at]);
      data := words[(b + 1) * WORDS..at];
    }
    n := FinishWrite(c, was, sector, count, fifo, data, words);
  }

  method WriteFailed(c: Controller, ghost was: seq<Block>, ghost before: seq<Block>, ghost sector: nat,
                     ghost count: nat, b: nat, ghost data: seq<uint32>, ghost words: seq<uint32>)
    returns (n: nat)
    requires Sent(c, before, sector, b, data) && c.err && b < count
    requires WriteOutcome(was, c.faults, sector, b, words, before, b)
    modifies c
    ensures !c.busy && n == b && WriteOutcome(was, c.faults, sector, count, words, c.card, n)
  {
    hide Flat, UpToFault, Fails, OnlySector;
    SameSize(was, before, c.faults, sector, b, words);
    WriteStops(was, c.faults, sector, count, b, words, before, c.card);
    c.Stop();
    n := b;
  }

  lemma SameSize(was: seq<Block>, before: seq<Block>, faults: seq<bool>, sector: nat, b: nat, words: seq<uint32>)
    requires WriteOutcome(was, faults, sector, b, words, before, b)
    ensures |before| == |was|
  {
  }

  lemma WriteSucceeded(c: Controller, was: seq<Block>, before: seq<Block>, sector: nat, b: nat, data: seq<uint32>, words: seq<uint32>)
    requires Sent(c, before, sector, b, data) && !c.err && (b + 1) * WORDS <= |words|
    requires WriteOutcome(was, c.faults, sector, b, words, before, b) && data == words[b * WORDS..(b + 1) * WORDS]
    ensures WriteOutcome(was, c.faults, sector, b + 1, words, c.card, b + 1)
  {
    hide Flat, UpToFault, Fails, OnlySector, WriteOutcome;
    SameSize(was, before, c.faults, sector, b, words);
    WriteMore(was, c.faults, sector, b, words, before, c.card);
  }

  /** The end of sdwrite: the last transfer is waited for. */
  method FinishWrite(c: Controller, ghost was: seq<Block>, ghost sector: nat, count: nat, ghost fifo: int,
                     ghost data: seq<uint32>, ghost words: seq<uint32>)
    returns (n: nat)
    requires count > 0 && count * WORDS <= |words|
    requires Sending(c, c.card, sector, count - 1, fifo, data) && data == words[(count - 1) * WORDS..count * WORDS]
    requires WriteOutcome(was, c.faults, sector, count - 1, words, c.card, count - 1)
    modifies c
    ensures !c.busy && WriteOutcome(was, c.faults, sector, count, words, c.card, n)
  {
    hide Flat, UpToFault, Fails, WriteOutcome;
    ghost var before := c.card;
    c.Wait();
    var err := c.err;
    if err {
      n := WriteFailed(c, was, before, sector, count, count - 1, data, words);
    } else {
      WriteSucceeded(c, was, before, sector, count - 1, data, words);
      c.Stop();
      n := count;
    }
  }

  /** What has been written is what is read, sector by sector, as far as both come. */
  lemma ReadAfterWrite(card: seq<Block>, after: seq<Block>, f: seq<bool>, g: seq<bool>, sector: nat, count: nat,
                       src: seq<uint32>, was: seq<uint32>, dst: seq<uint32>, m: nat, n: nat, k: nat)
    requires WriteOutcome(card, f, sector, count, src, after, m)
    requires ReadOutcome(after, g, sector, count, was, dst, n)
    requires k <= m && k <= n
    ensures k * WORDS <= |src| && k * WORDS <= |dst| && dst[..k * WORDS] == src[..k * WORDS]
  {
    if k > 0 {
      FlatPrefix(after, sector, k, m);
      FlatPrefix(after, sector, k, n);
      var s, d := Flat(after[sector..sector + m]), Flat(after[sector..sector + n]);
      assert dst[..k * WORDS] == d[..k * WORDS];
      assert src[..k * WORDS] == s[..k * WORDS];
    }
  }

  lemma {:induction false} FlatPrefix(blocks: seq<Block>, from: nat, k: nat, n: nat)
    requires k <= n && from + n <= |blocks|
    ensures Flat(blocks[from..from + n])[..k * WORDS] == Flat(blocks[from..from + k])
    decreases n
  {
    if k < n {
      FlatNext(blocks, from, n - 1);
      FlatPrefix(blocks, from, k, n - 1);
    }
  }
}
