/**
  The DMA engine that the graphics programs run on: a byte memory, an 8 KB internal buffer and a list of
  64-bit commands (rtl/src/main/scala/endeavour2/DmaController.scala).

  Memory transfers move whole 64-byte blocks, the low six bits of every address are ignored, and READ and
  WRITE return while their own blocks are still in flight.  A command that the hardware would execute with
  an outcome that depends on timing, or that would overwrite the commands fetched into the last 128 bytes
  of the buffer, has no result in this model: `Step` yields None and so does every program containing it.
 */
module DmaEngine {

  import opened MachineTypes

  datatype Cmd = Cmd(lo: uint32, hi: uint32)

  /** The transfer that a READ or WRITE without SYNC leaves unfinished. */
  datatype Flight = Landed | Flight(write: bool, addr: int, from: int, len: int)

  datatype Engine = Engine(mem: seq<byte>, buf: seq<byte>, flight: Flight)

  const OP_READ := 0
  const OP_READ_SYNC := 2
  const OP_WRITE_SYNC := 3
  const OP_COPY := 5

  const BUFFER_SIZE := 8192
  /** The last 128 bytes of the buffer hold prefetched commands. */
  const USABLE_SIZE := 8064
  const BLOCK := 64
  const MAX_BATCH := 0x1_0000

  /** x is a whole number of 64-byte blocks. */
  predicate Whole(x: int) { x % BLOCK == 0 }

  /** The macro DMA_CMD_HI: six opcode bits, 13 bits `from`, 13 bits `to`. */
  function Hi(op: int, from: int, to: int): uint32
    requires 0 <= op < 64 && 0 <= from < 8192
  {
    op * 0x400_0000 + from * 0x2000 + to % 0x2000
  }

  function Opcode(c: Cmd): int { c.hi / 0x400_0000 }
  function From(c: Cmd): int { c.hi / 0x2000 % 0x2000 }
  function To(c: Cmd): int { c.hi % 0x2000 }

  lemma DecodeHi(op: int, from: int, to: int, lo: uint32)
    requires 0 <= op < 64 && 0 <= from < 8192
    ensures var c := Cmd(lo, Hi(op, from, to));
            Opcode(c) == op && From(c) == from && To(c) == to % 8192
  {
  }

  /** `dst` with `n` bytes from `d` on replaced by those of `src` from `s` on. */
  function Blit(dst: seq<byte>, d: int, src: seq<byte>, s: int, n: int): (r: seq<byte>)
    requires 0 <= d && 0 <= s && 0 <= n && d + n <= |dst| && s + n <= |src|
    ensures |r| == |dst|
  {
    seq(|dst|, i requires 0 <= i < |dst| => if d <= i < d + n then src[s + i - d] else dst[i])
  }

  predicate Disjoint(a: int, la: int, b: int, lb: int) {
    la == 0 || lb == 0 || a + la <= b || b + lb <= a
  }

  function AlignDown(x: int): (r: int)
    ensures Whole(x) ==> r == x
  {
    x / BLOCK * BLOCK
  }

  /** A memory transfer must not meet the blocks of the transfer still in flight. */
  predicate MayStart(f: Flight, write: bool, addr: int, from: int, len: int) {
    f.Flight? ==>
      && Disjoint(f.from, f.len, from, len)
      && (f.write || write ==> Disjoint(f.addr, f.len, addr, len))
  }

  function MemOp(e: Engine, op: int, lo: int, from: int, to: int): Option<Engine>
    requires 0 <= op < 4 && 0 <= lo && 0 <= from && |e.buf| == BUFFER_SIZE
  {
    var addr := AlignDown(lo % 0x4000_0000);
    var f := AlignDown(from);
    var n := AlignDown(to) - f;
    var write := op % 2 == 1;
    if n < 0 || f + n > USABLE_SIZE || addr + n > |e.mem| || !MayStart(e.flight, write, addr, f, n) then None
    else
      var flight := if op >= 2 then Landed else Flight(write, addr, f, n);
      if write then Some(Engine(Blit(e.mem, addr, e.buf, f, n), e.buf, flight))
      else Some(Engine(e.mem, Blit(e.buf, f, e.mem, addr, n), flight))
  }

  function CopyOp(e: Engine, arg: int, from: int, to: int): Option<Engine>
    requires 0 <= arg && 0 <= from && |e.buf| == BUFFER_SIZE
  {
    var n := to - from;
    if n <= 0 || to > USABLE_SIZE || arg + n > USABLE_SIZE || !Disjoint(from, n, arg, n) then None
    else if e.flight.Flight? && !(Disjoint(e.flight.from, e.flight.len, from, n) && Disjoint(e.flight.from, e.flight.len, arg, n)) then None
    else Some(e.(buf := Blit(e.buf, from, e.buf, arg, n)))
  }

  function Step(e: Engine, c: Cmd): (r: Option<Engine>)
    requires |e.buf| == BUFFER_SIZE
    ensures r.Some? ==> |r.value.buf| == BUFFER_SIZE && |r.value.mem| == |e.mem|
  {
    var op := Opcode(c);
    if op < 4 then MemOp(e, op, c.lo, From(c), To(c))
    else if op == 5 then CopyOp(e, c.lo % 0x2000, From(c), To(c))
    else None
  }

  function Run(e: Engine, prog: seq<Cmd>): (r: Option<Engine>)
    requires |e.buf| == BUFFER_SIZE
    ensures r.Some? ==> |r.value.buf| == BUFFER_SIZE && |r.value.mem| == |e.mem|
    decreases |prog|
  {
    if prog == [] then Some(e)
    else match Step(e, prog[0])
      case None => None
      case Some(e') => Run(e', prog[1..])
  }

  /** Handing `count` commands to the engine: the command counter has 16 bits. */
  function RunBatch(e: Engine, prog: seq<Cmd>): (r: Option<Engine>)
    requires |e.buf| == BUFFER_SIZE
  {
    Run(e, prog[..|prog| % MAX_BATCH])
  }

  lemma {:induction false} RunAppend(e: Engine, p: seq<Cmd>, q: seq<Cmd>)
    requires |e.buf| == BUFFER_SIZE
    ensures Run(e, p + q) == match Run(e, p) case None => None case Some(m) => Run(m, q)
    decreases |p|
  {
    if p == [] {
      assert p + q == q;
    } else {
      assert (p + q)[1..] == p[1..] + q;
      match Step(e, p[0])
      case None =>
      case Some(m) => RunAppend(m, p[1..], q);
    }
  }

  lemma RunNothing(e: Engine)
    requires |e.buf| == BUFFER_SIZE
    ensures Run(e, []) == Some(e)
  {
  }

  lemma RunFault(e: Engine, c: Cmd, rest: seq<Cmd>)
    requires |e.buf| == BUFFER_SIZE && Step(e, c) == None
    ensures Run(e, [c] + rest) == None
  {
  }

  lemma RunFirst(e: Engine, c: Cmd, rest: seq<Cmd>)
    requires |e.buf| == BUFFER_SIZE && Step(e, c).Some?
    ensures Run(e, [c] + rest) == Run(Step(e, c).value, rest)
  {
    assert ([c] + rest)[1..] == rest;
  }

  lemma StepIsMemOp(e: Engine, op: int, lo: uint32, from: int, to: int)
    requires |e.buf| == BUFFER_SIZE && 0 <= op < 4 && 0 <= from < 8192
    ensures Step(e, Cmd(lo, Hi(op, from, to))) == MemOp(e, op, lo, from, to % 8192)
  {
    var c := Cmd(lo, Hi(op, from, to));
    assert Opcode(c) == op && From(c) == from && To(c) == to % 8192 by {
      DecodeHi(op, from, to, lo);
    }
    hide Opcode, From, To, Hi, MemOp, CopyOp;
  }

  /** Addresses and buffer bounds made of whole blocks, inside the memory and the usable part of the buffer. */
  predicate Aligned(e: Engine, lo: int, from: int, to: int) {
    && |e.buf| == BUFFER_SIZE && |e.mem| <= 0x4000_0000
    && 0 <= lo < 0x4000_0000 && Whole(lo) && lo + (to - from) <= |e.mem|
    && 0 <= from <= to <= USABLE_SIZE && Whole(from) && Whole(to)
  }

  lemma SmallAddress(lo: int, to: int)
    requires 0 <= lo < 0x4000_0000 && 0 <= to <= USABLE_SIZE
    ensures lo % 0x4000_0000 == lo && to % 8192 == to
  {
  }

  lemma ReadStep(e: Engine, op: int, lo: uint32, from: int, to: int)
    requires (op == OP_READ || op == OP_READ_SYNC) && Aligned(e, lo, from, to) && MayStart(e.flight, false, lo, from, to - from)
    ensures Step(e, Cmd(lo, Hi(op, from, to))) ==
            Some(Engine(e.mem, Blit(e.buf, from, e.mem, lo, to - from),
                        if op == OP_READ then Flight(false, lo, from, to - from) else Landed))
  {
    hide Step, Hi, Blit, AlignDown, Whole, MayStart;
    StepIsMemOp(e, op, lo, from, to);
    SmallAddress(lo, to);
  }

  lemma WriteStep(e: Engine, lo: uint32, from: int, to: int)
    requires Aligned(e, lo, from, to) && MayStart(e.flight, true, lo, from, to - from)
    ensures Step(e, Cmd(lo, Hi(OP_WRITE_SYNC, from, to))) == Some(Engine(Blit(e.mem, lo, e.buf, from, to - from), e.buf, Landed))
  {
    hide Step, Hi, Blit, AlignDown, Whole, MayStart;
    StepIsMemOp(e, OP_WRITE_SYNC, lo, from, to);
    SmallAddress(lo, to);
  }
}
