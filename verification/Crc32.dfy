/**
  The checksum of software/bios/util.c:199-221: a table for four bits at a time against the bit-serial CRC of
  RFC 1952 section 8, and what the checksum detects.
 */
module Crc32 {
  import opened MachineWords

  const POLYNOMIAL: bv32 := 0xEDB8_8320

  function Xor(x: bv32, y: bv32): bv32 { x ^ y }

  function Low4(x: bv32): bv32 { x & 0xF }

  function LowBit(x: bv32): bool { x & 1 == 1 }

  /** One shift of the register without input. */
  function Shift(x: bv32): bv32 {
    if LowBit(x) then Xor(Half(x), POLYNOMIAL) else Half(x)
  }

  function Bit(b: bool): bv32 { if b then 1 else 0 }

  /** One bit of the message enters the register. */
  function Step(crc: bv32, b: bool): bv32 {
    if LowBit(Xor(crc, Bit(b))) then Xor(Half(crc), POLYNOMIAL) else Half(crc)
  }

  function Serial(crc: bv32, bits: seq<bool>): bv32
    decreases |bits|
  {
    if bits == [] then crc else Serial(Step(crc, bits[0]), bits[1..])
  }

  function Nibble(c: bv32): (r: seq<bool>)
    ensures |r| == 4
  {
    [c & 1 == 1, (c >> 1) & 1 == 1, (c >> 2) & 1 == 1, (c >> 3) & 1 == 1]
  }

  /** The bits of a byte, least significant first. */
  function ByteBits(c: bv8): seq<bool> {
    Nibble(c as bv32) + Nibble((c as bv32) >> 4)
  }

  function Bits(data: seq<bv8>): (r: seq<bool>)
    ensures |r| == 8 * |data|
    decreases |data|
  {
    if data == [] then [] else Bits(data[..|data| - 1]) + ByteBits(data[|data| - 1])
  }

  /** The checksum as RFC 1952 defines it: all ones before, complemented after. */
  function Crc(data: seq<bv8>): bv32 {
    !Serial(0xFFFF_FFFF, Bits(data))
  }

  // ---------------------------------------------------------------- the table

  function Shift4(x: bv32): bv32 {
    Shift(Shift(Shift(Shift(x))))
  }

  /** Input that is still ahead just moves down. */
  lemma ShiftIn(x: bv32, c: bv32)
    ensures Shift(Xor(x, c)) == Xor(Step(x, LowBit(c)), Half(c))
  {
    hide Xor, Half, LowBit, Bit;
    HalfXor(x, c);
    LowBitXor(x, c);
    LowBitXor(x, Bit(LowBit(c)));
    BitBack(LowBit(c));
    Swap(Half(x), Half(c), POLYNOMIAL);
  }

  lemma BitBack(b: bool)
    ensures LowBit(Bit(b)) == b
  {
  }

  lemma HalfXor(x: bv32, y: bv32)
    ensures Half(Xor(x, y)) == Xor(Half(x), Half(y))
  {
  }

  lemma LowBitXor(x: bv32, y: bv32)
    ensures LowBit(Xor(x, y)) == (LowBit(x) != LowBit(y))
  {
  }

  lemma XorAssociates(x: bv32, y: bv32, p: bv32)
    ensures Xor(x, Xor(y, p)) == Xor(Xor(x, y), p)
  {
  }

  lemma XorCommutes(x: bv32, y: bv32)
    ensures Xor(x, y) == Xor(y, x)
  {
  }

  lemma Swap(x: bv32, y: bv32, p: bv32)
    ensures Xor(Xor(x, y), p) == Xor(Xor(x, p), y)
  {
    hide Xor;
    XorAssociates(x, y, p);
    XorCommutes(y, p);
    XorAssociates(x, p, y);
  }

  lemma SerialNibble(crc: bv32, c: bv32)
    ensures Serial(crc, Nibble(c)) == Shift4(Xor(crc, Low4(c)))
  {
    hide Shift, Step, Xor;
    var m := Low4(c);
    NibbleBits(c);
    hide Nibble, Half, Low4, LowBit;
    var bits := Nibble(c);
    var s1 := Step(crc, bits[0]);
    var s2 := Step(s1, bits[1]);
    var s3 := Step(s2, bits[2]);
    var s4 := Step(s3, bits[3]);
    ShiftIn(crc, m);
    ShiftIn(s1, Half(m));
    ShiftIn(s2, Half(Half(m)));
    ShiftIn(s3, Half(Half(Half(m))));
    XorZero(s4);
    SerialFour(crc, bits[0], bits[1], bits[2], bits[3]);
    assert bits == [bits[0], bits[1], bits[2], bits[3]];
  }

  lemma NibbleBits(c: bv32)
    ensures var m := Low4(c);
            && Low4(m) == m && |Nibble(c)| == 4 && Half(Half(Half(Half(m)))) == 0
            && Nibble(c)[0] == LowBit(m) && Nibble(c)[1] == LowBit(Half(m))
            && Nibble(c)[2] == LowBit(Half(Half(m))) && Nibble(c)[3] == LowBit(Half(Half(Half(m))))
  {
  }

  lemma SerialFour(crc: bv32, a: bool, b: bool, c: bool, d: bool)
    ensures Serial(crc, [a, b, c, d]) == Step(Step(Step(Step(crc, a), b), c), d)
  {
    hide Step;
    var s1 := Step(crc, a);
    var s2 := Step(s1, b);
    var s3 := Step(s2, c);
    assert [a, b, c, d][1..] == [b, c, d] && [b, c, d][1..] == [c, d] && [c, d][1..] == [d] && [d][1..] == [];
    assert Serial(s3, [d]) == Serial(Step(s3, d), []);
    assert Serial(s2, [c, d]) == Serial(s3, [d]);
    assert Serial(s1, [b, c, d]) == Serial(s2, [c, d]);
  }

  function High28(x: bv32): bv32 { x & 0xFFFF_FFF0 }

  lemma HighAndLow(x: bv32)
    ensures Xor(High28(x), Low4(x)) == x
  {
  }

  lemma HighBits(x: bv32)
    ensures var a := High28(x);
            && !LowBit(a) && !LowBit(Half(a)) && !LowBit(Half(Half(a))) && !LowBit(Half(Half(Half(a))))
            && Half(Half(Half(Half(a)))) == x >> 4
  {
  }

  lemma XorTwice(x: bv32, y: bv32, p: bv32)
    ensures Xor(Xor(x, p), Xor(y, p)) == Xor(x, y)
  {
    hide Xor;
    XorAssociates(Xor(x, p), y, p);
    Swap(x, p, y);
    XorBack(Xor(x, y), p);
  }

  /** A shift is linear. */
  lemma ShiftXor(x: bv32, y: bv32)
    ensures Shift(Xor(x, y)) == Xor(Shift(x), Shift(y))
  {
    hide Xor, Half, LowBit;
    HalfXor(x, y);
    LowBitXor(x, y);
    Swap(Half(x), Half(y), POLYNOMIAL);
    XorTwice(Half(x), Half(y), POLYNOMIAL);
    XorAssociates(Half(x), Half(y), POLYNOMIAL);
  }

  /** The upper 28 bits only move down; what they meet is one of sixteen table entries. */
  lemma TableSplit(x: bv32)
    ensures Shift4(x) == Xor(x >> 4, Shift4(Low4(x)))
  {
    HighAndLow(x);
    HighBits(x);
    hide Xor, Half, LowBit, High28, Low4;
    var a, b := High28(x), Low4(x);
    ShiftXor(a, b);
    ShiftXor(Shift(a), Shift(b));
    ShiftXor(Shift(Shift(a)), Shift(Shift(b)));
    ShiftXor(Shift(Shift(Shift(a))), Shift(Shift(Shift(b))));
    assert Shift4(a) == Half(Half(Half(Half(a))));
  }

  function Shifted(x: bv32, n: nat): bv32 {
    if n == 0 then x else Shift(Shifted(x, n - 1))
  }

  function Halved(x: bv32, n: nat): bv32 {
    if n == 0 then x else Half(Halved(x, n - 1))
  }

  lemma FourTimes(x: bv32)
    requires Low4(x) == x
    ensures Shifted(x, 4) == Shift4(x) && Halved(x, 4) == 0
  {
    hide Shift;
    NibbleBits(x);
    hide Half, Shift4;
    assert Shifted(x, 1) == Shift(x) && Halved(x, 1) == Half(x);
    assert Shifted(x, 2) == Shift(Shift(x)) && Halved(x, 2) == Half(Half(x));
    assert Shifted(x, 3) == Shift(Shift(Shift(x))) && Halved(x, 3) == Half(Half(Half(x)));
    Shift4Is(x);
  }

  lemma Shift4Is(x: bv32)
    ensures Shift4(x) == Shift(Shift(Shift(Shift(x))))
  {
    hide Shift;
  }

  lemma EntryStep(crc: bv32, c: bv32)
    ensures Shift(Xor(crc, c)) == Xor(if LowBit(Xor(c, crc)) then Xor(Half(crc), POLYNOMIAL) else Half(crc), Half(c))
  {
    hide Xor, Half, LowBit;
    LowBitXor(c, crc);
    LowBitXor(crc, c);
    HalfXor(crc, c);
    Swap(Half(crc), Half(c), POLYNOMIAL);
  }

  /** table[i]: bits of the number meet the register one by one. */
  method TableEntry(i: bv32) returns (crc: bv32)
    requires Low4(i) == i
    ensures crc == Shift4(i)
  {
    hide Shift, Shift4, Half, Xor, LowBit;
    var c := i;
    crc := 0;
    XorZero(i);
    XorCommutes(crc, c);
    var j := 0;
    while j < 4
      invariant 0 <= j <= 4 && Shifted(i, j) == Xor(crc, c) && c == Halved(i, j)
    {
      EntryStep(crc, c);
      var b := LowBit(Xor(c, crc));
      crc := Half(crc);
      if b { crc := Xor(crc, POLYNOMIAL); }
      c := Half(c);
      j := j + 1;
    }
    FourTimes(i);
    XorZero(crc);
  }

  lemma XorZero(x: bv32)
    ensures Xor(x, 0) == x && x ^ 0 == x && 0 ^ x == x
  {
  }

  // ---------------------------------------------------------------- the checksum loop

  /** One step of the loop: the table entry for the four low bits, added to the rest of the register. */
  lemma NibbleStep(crc: bv32, c: bv32)
    ensures (crc >> 4) ^ Shift4(Low4(c ^ crc)) == Shift4(Xor(crc, Low4(c)))
  {
    TableSplit(Xor(crc, Low4(c)));
    SameIndex(crc, c);
    hide Shift4;
  }

  lemma SameIndex(crc: bv32, c: bv32)
    ensures Xor(crc, Low4(c)) >> 4 == crc >> 4 && Xor(crc, Low4(c)) & 0xF == Low4(c ^ crc)
  {
  }

  lemma {:induction false} SerialAppend(crc: bv32, a: seq<bool>, b: seq<bool>)
    ensures Serial(crc, a + b) == Serial(Serial(crc, a), b)
    decreases |a|
  {
    hide Step;
    if a == [] {
      assert a + b == b;
    } else {
      assert (a + b)[1..] == a[1..] + b;
      SerialAppend(Step(crc, a[0]), a[1..], b);
    }
  }

  ghost predicate IsTable(table: array<bv32>)
    reads table
  {
    table.Length == 16 && forall x: bv32 | Low4(x) == x :: 0 <= x as int < 16 && table[x as int] == Shift4(x)
  }

  method BuildTable() returns (table: array<bv32>)
    ensures fresh(table) && IsTable(table)
  {
    hide Shift4;
    table := new bv32[16];
    var i: bv32 := 0;
    while i < 16
      invariant i <= 16
      invariant forall x: bv32 | x < i :: 0 <= x as int < 16 && table[x as int] == Shift4(x)
      decreases 16 - i
    {
      BelowSixteen(i);
      table[i as int] := TableEntry(i);
      i := i + 1;
    }
    forall x: bv32 | Low4(x) == x
      ensures x < 16
    {
    }
  }

  lemma BelowSixteen(i: bv32)
    requires i < 16
    ensures Low4(i) == i && 0 <= i as int < 16
  {
  }

  lemma OneByte(crc: bv32, c: bv8)
    ensures Serial(crc, ByteBits(c)) ==
            var k := c as bv32;
            Shift4(Xor(Shift4(Xor(crc, Low4(k))), Low4(k >> 4)))
  {
    hide Nibble, Shift4, Xor, Low4;
    var k := c as bv32;
    SerialAppend(crc, Nibble(k), Nibble(k >> 4));
    SerialNibble(crc, k);
    SerialNibble(Serial(crc, Nibble(k)), k >> 4);
  }

  lemma IndexIsLow(x: bv32)
    ensures x & 0xF == Low4(x) && Low4(Low4(x)) == Low4(x)
  {
  }

  /** One table lookup. */
  method NibbleLookup(table: array<bv32>, ncrc: bv32, c: bv32) returns (r: bv32)
    requires IsTable(table)
    ensures r == Shift4(Xor(ncrc, Low4(c)))
  {
    hide Shift4, Xor, Low4;
    var index := (c ^ ncrc) & 0xF;
    IndexIsLow(c ^ ncrc);
    r := (ncrc >> 4) ^ table[index as int];
    NibbleStep(ncrc, c);
  }

  /** crc32(data, size) */
  method Checksum(data: seq<bv8>) returns (r: bv32)
    ensures r == Crc(data)
  {
    hide Shift4, Xor, Low4, ByteBits;
    var table := BuildTable();
    var ncrc: bv32 := 0xFFFF_FFFF;
    var i := 0;
    while i < |data|
      invariant 0 <= i <= |data| && IsTable(table) && ncrc == Serial(0xFFFF_FFFF, Bits(data[..i]))
    {
      var c := data[i] as bv32;
      OneByte(ncrc, data[i]);
      assert data[..i + 1][..i] == data[..i];
      SerialAppend(0xFFFF_FFFF, Bits(data[..i]), ByteBits(data[i]));
      ncrc := NibbleLookup(table, ncrc, c);
      ncrc := NibbleLookup(table, ncrc, c >> 4);
      i := i + 1;
    }
    assert data[..i] == data;
    r := !ncrc;
  }

  // ---------------------------------------------------------------- check values

  /** A byte of the message as eight shifts. */
  function ByteStep(crc: bv32, c: bv32): bv32 {
    Shift4(Xor(Shift4(Xor(crc, Low4(c))), Low4(c >> 4)))
  }

  lemma {:induction false} BytesInTurn(data: seq<bv8>, crcs: seq<bv32>)
    requires |crcs| == |data| + 1 && forall i :: 0 <= i < |data| ==> crcs[i + 1] == ByteStep(crcs[i], data[i] as bv32)
    ensures Serial(crcs[0], Bits(data)) == crcs[|data|]
    decreases |data|
  {
    hide ByteBits, Shift4, Low4;
    if data != [] {
      var n := |data| - 1;
      BytesInTurn(data[..n], crcs[..n + 1]);
      SerialAppend(crcs[0], Bits(data[..n]), ByteBits(data[n]));
      OneByte(crcs[n], data[n]);
    }
  }

  /** The digits 1 to 9 have the checksum that every CRC-32 of this kind gives them. */
  lemma CheckValue()
    ensures Crc([0x31, 0x32, 0x33, 0x34, 0x35, 0x36, 0x37, 0x38, 0x39]) == 0xCBF4_3926
  {
    var crcs: seq<bv32> := [0xFFFFFFFF, 0x7C231048, 0xB0ACBB32, 0x77B79C2D, 0x641C1F5C, 0x340AC5E3, 0xF68D2C9E, 0xAFFC9660, 0x651F2550, 0x340BC6D9];
    CheckSteps();
    hide ByteStep, Bits;
    BytesInTurn([0x31, 0x32, 0x33, 0x34, 0x35, 0x36, 0x37, 0x38, 0x39], crcs);
  }

  /** Four shifts, one at a time. */
  lemma Quarter(a: bv32, b: bv32, c: bv32, d: bv32, e: bv32)
    requires Shift(a) == b && Shift(b) == c && Shift(c) == d && Shift(d) == e
    ensures Shift4(a) == e
  {
  }

  lemma CheckSteps()
    ensures ByteStep(0xFFFFFFFF, 0x31) == 0x7C231048
    ensures ByteStep(0x7C231048, 0x32) == 0xB0ACBB32
    ensures ByteStep(0xB0ACBB32, 0x33) == 0x77B79C2D
    ensures ByteStep(0x77B79C2D, 0x34) == 0x641C1F5C
    ensures ByteStep(0x641C1F5C, 0x35) == 0x340AC5E3
    ensures ByteStep(0x340AC5E3, 0x36) == 0xF68D2C9E
    ensures ByteStep(0xF68D2C9E, 0x37) == 0xAFFC9660
    ensures ByteStep(0xAFFC9660, 0x38) == 0x651F2550
    ensures ByteStep(0x651F2550, 0x39) == 0x340BC6D9
  {
    Quarter(0xFFFFFFFE, 0x7FFFFFFF, 0xD2477CDF, 0x849B3D4F, 0xAFF51D87);
    Quarter(0xAFF51D84, 0x57FA8EC2, 0x2BFD4761, 0xF8462090, 0x7C231048);
    Quarter(0x7C23104A, 0x3E118825, 0xF2B04732, 0x79582399, 0xD11492EC);
    Quarter(0xD11492EF, 0x8532CA57, 0xAF21E60B, 0xBA287025, 0xB0ACBB32);
    Quarter(0xB0ACBB31, 0xB5EEDEB8, 0x5AF76F5C, 0x2D7BB7AE, 0x16BDDBD7);
    Quarter(0x16BDDBD4, 0x0B5EEDEA, 0x05AF76F5, 0xEF6F385A, 0x77B79C2D);
    Quarter(0x77B79C29, 0xD6634D34, 0x6B31A69A, 0x3598D34D, 0xF774EA86);
    Quarter(0xF774EA85, 0x9602F662, 0x4B017B31, 0xC8383EB8, 0x641C1F5C);
    Quarter(0x641C1F59, 0xDFB68C8C, 0x6FDB4646, 0x37EDA323, 0xF64E52B1);
    Quarter(0xF64E52B2, 0x7B272959, 0xD02B178C, 0x68158BC6, 0x340AC5E3);
    Quarter(0x340AC5E5, 0xF7BDE1D2, 0x7BDEF0E9, 0xD057FB54, 0x682BFDAA);
    Quarter(0x682BFDA9, 0xD9AD7DF4, 0x6CD6BEFA, 0x366B5F7D, 0xF68D2C9E);
    Quarter(0xF68D2C99, 0x96FE156C, 0x4B7F0AB6, 0x25BF855B, 0xFF67418D);
    Quarter(0xFF67418E, 0x7FB3A0C7, 0xD2615343, 0x84882A81, 0xAFFC9660);
    Quarter(0xAFFC9668, 0x57FE4B34, 0x2BFF259A, 0x15FF92CD, 0xE7474A46);
    Quarter(0xE7474A45, 0x9E1B2602, 0x4F0D9301, 0xCA3E4AA0, 0x651F2550);
    Quarter(0x651F2559, 0xDF37118C, 0x6F9B88C6, 0x37CDC463, 0xF65E6111);
    Quarter(0xF65E6112, 0x7B2F3089, 0xD02F1B64, 0x68178DB2, 0x340BC6D9);
    hide Shift4;
  }

  // ---------------------------------------------------------------- what the checksum detects

  lemma ShiftInjective(x: bv32, y: bv32)
    requires Shift(x) == Shift(y)
    ensures x == y
  {
  }

  lemma StepInjective(x: bv32, y: bv32, b: bool)
    requires Step(x, b) == Step(y, b)
    ensures x == y
  {
    hide Step, Shift, Xor, Bit;
    StepIsShift(x, b);
    StepIsShift(y, b);
    ShiftInjective(Xor(x, Bit(b)), Xor(y, Bit(b)));
    XorBack(x, Bit(b));
    XorBack(y, Bit(b));
  }

  lemma StepIsShift(x: bv32, b: bool)
    ensures Step(x, b) == Shift(Xor(x, Bit(b)))
  {
    hide Xor, Half, LowBit, Bit;
    HalfXor(x, Bit(b));
    NoHalfBit(b);
    XorZero(Half(x));
  }

  lemma NoHalfBit(b: bool)
    ensures Half(Bit(b)) == 0
  {
  }

  lemma XorBack(x: bv32, y: bv32)
    ensures Xor(Xor(x, y), y) == x
  {
  }

  lemma {:induction false} SerialInjective(x: bv32, y: bv32, bits: seq<bool>)
    requires Serial(x, bits) == Serial(y, bits)
    ensures x == y
    decreases |bits|
  {
    hide Step;
    if bits != [] {
      SerialInjective(Step(x, bits[0]), Step(y, bits[0]), bits[1..]);
      StepInjective(x, y, bits[0]);
    }
  }

  function Double(x: bv32): bv32 { x << 1 }

  /** The bits as a word, the first one lowest. */
  function Word(bits: seq<bool>): bv32
    decreases |bits|
  {
    if bits == [] then 0 else Xor(Bit(bits[0]), Double(Word(bits[1..])))
  }

  /** n ones. */
  function Mask(n: nat): bv32 {
    if n == 0 then 0 else Xor(1, Double(Mask(n - 1)))
  }

  predicate Within(x: bv32, m: bv32) { x & m == x }

  lemma {:induction false} WordWithin(bits: seq<bool>)
    ensures Within(Word(bits), Mask(|bits|))
    decreases |bits|
  {
    if bits == [] {
      assert Within(0, 0);
    } else {
      WordWithin(bits[1..]);
      DoubleWithin(bits[0], Word(bits[1..]), Mask(|bits| - 1));
      hide Within, Xor, Bit, Double;
    }
  }

  function And(x: bv32, y: bv32): bv32 { x & y }

  lemma DoubleAnd(x: bv32, m: bv32)
    ensures And(Double(x), Double(m)) == Double(And(x, m))
  {
  }

  lemma DoubleIsEven(x: bv32)
    ensures And(1, Double(x)) == 0
  {
  }

  lemma AndDistributes(u: bv32, v: bv32, w: bv32)
    ensures And(u, Xor(v, w)) == Xor(And(u, v), And(u, w))
  {
  }

  lemma AndCommutes(u: bv32, v: bv32)
    ensures And(u, v) == And(v, u) && And(1, 1) == 1
  {
  }

  lemma DoubleWithin(b: bool, x: bv32, m: bv32)
    requires Within(x, m)
    ensures Within(Xor(Bit(b), Double(x)), Xor(1, Double(m)))
  {
    assert And(x, m) == x;
    var u, v := Double(x), Double(m);
    DoubleAnd(x, m);
    DoubleIsEven(x);
    DoubleIsEven(m);
    AndDistributes(u, 1, v);
    AndDistributes(1, 1, v);
    AndDistributes(Xor(1, v), 1, u);
    AndCommutes(u, 1);
    AndCommutes(Xor(1, v), 1);
    AndCommutes(Xor(1, v), u);
    AndCommutes(Xor(1, v), Xor(1, u));
    XorOnes(u);
    WithinIsAnd(Xor(Bit(b), u), Xor(1, v));
    hide And, Xor, Double, Within;
  }

  lemma XorOnes(u: bv32)
    ensures Xor(0, u) == u && Xor(1, 0) == 1
  {
  }

  lemma WithinIsAnd(x: bv32, m: bv32)
    ensures Within(x, m) <==> And(x, m) == x
  {
  }

  lemma {:induction false} MaskGrows(m: nat, n: nat)
    requires m <= n
    ensures Within(Mask(m), Mask(n))
    decreases m
  {
    if m == 0 {
      ZeroWithin(Mask(n));
    } else {
      MaskGrows(m - 1, n - 1);
      DoubleWithin(true, Mask(m - 1), Mask(n - 1));
      hide Within, Xor, Double;
    }
  }

  lemma ZeroWithin(m: bv32)
    ensures Within(0, m)
  {
  }

  lemma MaskEight(n: nat)
    ensures Mask(n + 8) == (Mask(n) << 8) ^ 0xFF
  {
    var m0 := Mask(n);
    var m1 := Xor(1, Double(m0));
    var m2 := Xor(1, Double(m1));
    var m3 := Xor(1, Double(m2));
    var m4 := Xor(1, Double(m3));
    var m5 := Xor(1, Double(m4));
    var m6 := Xor(1, Double(m5));
    var m7 := Xor(1, Double(m6));
    assert Mask(n + 8) == Xor(1, Double(m7)) by {
      hide Xor, Double;
      assert Mask(n + 1) == m1;
      assert Mask(n + 2) == m2;
      assert Mask(n + 3) == m3;
      assert Mask(n + 4) == m4;
      assert Mask(n + 5) == m5;
      assert Mask(n + 6) == m6;
      assert Mask(n + 7) == m7;
    }
    EightDoubles(m0);
  }

  lemma EightDoubles(x: bv32)
    ensures var f := (y: bv32) => Xor(1, Double(y));
            f(f(f(f(f(f(f(f(x)))))))) == (x << 8) ^ 0xFF
  {
  }

  lemma SmallMask()
    ensures Mask(7) == 0x7F
  {
    assert Mask(1) == 1;
    assert Mask(2) == 3;
    assert Mask(3) == 7;
    assert Mask(4) == 15;
    assert Mask(5) == 31;
    assert Mask(6) == 63;
  }

  lemma MaskTop()
    ensures TopClear(Mask(31))
  {
    SmallMask();
    MaskEight(7);
    MaskEight(15);
    MaskEight(23);
  }

  lemma TopOfWord(bits: seq<bool>)
    requires |bits| <= 31
    ensures TopClear(Word(bits))
  {
    WordWithin(bits);
    MaskGrows(|bits|, 31);
    MaskTop();
    hide Word, Mask;
    ClearBelow(Word(bits), Mask(|bits|), Mask(31));
  }

  lemma ClearBelow(x: bv32, m: bv32, n: bv32)
    requires Within(x, m) && Within(m, n) && TopClear(n)
    ensures TopClear(x)
  {
  }

  lemma WordParts(b: bool, w: bv32)
    requires TopClear(w)
    ensures LowBit(Xor(Bit(b), Double(w))) == b && Half(Xor(Bit(b), Double(w))) == w
  {
  }

  lemma {:induction false} ShiftedFront(x: bv32, n: nat)
    ensures Shifted(x, n + 1) == Shifted(Shift(x), n)
    decreases n
  {
    hide Shift;
    if n > 0 {
      ShiftedFront(x, n - 1);
    } else {
      assert Shifted(x, 1) == Shift(Shifted(x, 0));
    }
  }

  /** Up to 32 bits enter the register as one word. */
  lemma {:induction false} SerialWord(crc: bv32, bits: seq<bool>)
    requires |bits| <= 32
    ensures Serial(crc, bits) == Shifted(Xor(crc, Word(bits)), |bits|)
    decreases |bits|
  {
    if bits == [] {
      XorZero(crc);
    } else {
      var rest := bits[1..];
      TopOfWord(rest);
      WordParts(bits[0], Word(rest));
      hide Shift, Step, Xor, Half, LowBit, Double, Bit;
      SerialWord(Step(crc, bits[0]), rest);
      ShiftIn(crc, Word(bits));
      ShiftedFront(Xor(crc, Word(bits)), |rest|);
    }
  }

  lemma {:induction false} WordInjective(a: seq<bool>, b: seq<bool>)
    requires |a| == |b| <= 32 && Word(a) == Word(b)
    ensures a == b
    decreases |a|
  {
    if a != [] {
      TopOfWord(a[1..]);
      TopOfWord(b[1..]);
      WordParts(a[0], Word(a[1..]));
      WordParts(b[0], Word(b[1..]));
      hide Xor, Half, LowBit, Double, Bit;
      WordInjective(a[1..], b[1..]);
      assert a == [a[0]] + a[1..] && b == [b[0]] + b[1..];
    }
  }

  lemma {:induction false} ShiftedInjective(x: bv32, y: bv32, n: nat)
    requires Shifted(x, n) == Shifted(y, n)
    ensures x == y
    decreases n
  {
    hide Shift;
    if n > 0 {
      ShiftInjective(Shifted(x, n - 1), Shifted(y, n - 1));
      ShiftedInjective(x, y, n - 1);
    }
  }

  lemma XorInjective(x: bv32, y: bv32, z: bv32)
    requires Xor(x, y) == Xor(x, z)
    ensures y == z
  {
  }

  /** From one register value, different bits of up to 32 in number lead to different values. */
  lemma WindowInjective(crc: bv32, a: seq<bool>, b: seq<bool>)
    requires |a| == |b| <= 32 && Serial(crc, a) == Serial(crc, b)
    ensures a == b
  {
    hide Xor, Shift, Serial, Word;
    SerialWord(crc, a);
    SerialWord(crc, b);
    ShiftedInjective(Xor(crc, Word(a)), Xor(crc, Word(b)), |a|);
    XorInjective(crc, Word(a), Word(b));
    WordInjective(a, b);
  }

  lemma {:induction false} BitsInjective(a: seq<bv8>, b: seq<bv8>)
    requires |a| == |b| && Bits(a) == Bits(b)
    ensures a == b
    decreases |a|
  {
    if a != [] {
      var n := |a| - 1;
      var x, y := Bits(a[..n]), Bits(b[..n]);
      hide Nibble;
      assert x == Bits(a)[..8 * n] && y == Bits(b)[..8 * n];
      assert ByteBits(a[n]) == Bits(a)[8 * n..] && ByteBits(b[n]) == Bits(b)[8 * n..];
      BitsInjective(a[..n], b[..n]);
      ByteInjective(a[n], b[n]);
      assert a == a[..n] + [a[n]] && b == b[..n] + [b[n]];
    }
  }

  lemma ByteInjective(a: bv8, b: bv8)
    requires ByteBits(a) == ByteBits(b)
    ensures a == b
  {
    var x, y := a as bv32, b as bv32;
    hide Nibble;
    assert Nibble(x) == ByteBits(a)[..4] && Nibble(x >> 4) == ByteBits(a)[4..];
    assert Nibble(y) == ByteBits(b)[..4] && Nibble(y >> 4) == ByteBits(b)[4..];
    NibbleInjective(x, y);
    NibbleInjective(x >> 4, y >> 4);
    NibblesMakeByte(a, b);
  }

  lemma NibbleInjective(c: bv32, d: bv32)
    requires Nibble(c) == Nibble(d)
    ensures Low4(c) == Low4(d)
  {
    assert Nibble(c)[0] == Nibble(d)[0] && Nibble(c)[1] == Nibble(d)[1];
    assert Nibble(c)[2] == Nibble(d)[2] && Nibble(c)[3] == Nibble(d)[3];
    SameLow4(c, d);
  }

  lemma SameLow4(c: bv32, d: bv32)
    requires (c & 1 == 1) == (d & 1 == 1) && ((c >> 1) & 1 == 1) == ((d >> 1) & 1 == 1)
    requires ((c >> 2) & 1 == 1) == ((d >> 2) & 1 == 1) && ((c >> 3) & 1 == 1) == ((d >> 3) & 1 == 1)
    ensures Low4(c) == Low4(d)
  {
  }

  lemma NibblesMakeByte(a: bv8, b: bv8)
    requires Low4(a as bv32) == Low4(b as bv32) && Low4((a as bv32) >> 4) == Low4((b as bv32) >> 4)
    ensures a == b
  {
  }

  /** Bit sequences that agree up to `lo` and from `hi` on, at most 32 bits later. */
  lemma BurstOfBits(start: bv32, x: seq<bool>, y: seq<bool>, lo: nat, hi: nat)
    requires |x| == |y| && lo <= hi <= |x| && hi - lo <= 32 && x[..lo] == y[..lo] && x[hi..] == y[hi..]
    requires Serial(start, x) == Serial(start, y)
    ensures x == y
  {
    hide Serial;
    var s := Serial(start, x[..lo]);
    assert x == x[..lo] + x[lo..] && y == y[..lo] + y[lo..];
    assert x[lo..] == x[lo..hi] + x[hi..] && y[lo..] == y[lo..hi] + y[hi..];
    SerialAppend(start, x[..lo], x[lo..]);
    SerialAppend(start, y[..lo], y[lo..]);
    SerialAppend(s, x[lo..hi], x[hi..]);
    SerialAppend(s, y[lo..hi], y[hi..]);
    SerialInjective(Serial(s, x[lo..hi]), Serial(s, y[lo..hi]), x[hi..]);
    WindowInjective(s, x[lo..hi], y[lo..hi]);
  }

  /** Two messages of one length that differ only within 32 consecutive bits have different checksums. */
  lemma BurstsAreDetected(a: seq<bv8>, b: seq<bv8>, p: nat)
    requires |a| == |b| && a != b
    requires forall i :: 0 <= i < 8 * |a| && !(p <= i < p + 32) ==> Bits(a)[i] == Bits(b)[i]
    ensures Crc(a) != Crc(b)
  {
    hide Bits, Serial;
    var n := 8 * |a|;
    var lo := if p <= n then p else n;
    var hi := if p + 32 <= n then p + 32 else n;
    var x, y := Bits(a), Bits(b);
    assert x[..lo] == y[..lo] && x[hi..] == y[hi..];
    Complement(Serial(0xFFFF_FFFF, x));
    Complement(Serial(0xFFFF_FFFF, y));
    if Serial(0xFFFF_FFFF, x) == Serial(0xFFFF_FFFF, y) {
      BurstOfBits(0xFFFF_FFFF, x, y, lo, hi);
      BitsInjective(a, b);
    }
  }

  lemma Complement(x: bv32)
    ensures !(!x) == x
  {
  }
}
