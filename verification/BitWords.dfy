/** 32-bit words and the numbers they stand for: masks and shifts are remainders and quotients. */
module BitWords {
  import opened MachineWords
  import opened MachineTypes
  import opened Arithmetic

  function Bit0(w: bv32): (b: nat)
    ensures b < 2
  {
    if w & 1 == 1 then 1 else 0
  }

  /** The number in the low n bits. */
  function ValueOf(w: bv32, n: nat): nat {
    if n == 0 then 0 else 2 * ValueOf(Half(w), n - 1) + Bit0(w)
  }

  function Value(w: bv32): nat { ValueOf(w, 32) }

  function Double(w: bv32, bit: nat): bv32 {
    if bit == 1 then (w << 1) | 1 else w << 1
  }

  /** The word whose low n bits are those of x. */
  function WordOf(x: nat, n: nat): bv32 {
    if n == 0 then 0 else Double(WordOf(x / 2, n - 1), x % 2)
  }

  function Shifted(w: bv32, n: nat): bv32 {
    if n == 0 then w else Shifted(Half(w), n - 1)
  }

  // ---------------------------------------------------------------- shifts

  lemma {:induction false} ShiftedTwice(w: bv32, m: nat, n: nat)
    ensures Shifted(w, m + n) == Shifted(Shifted(w, m), n)
    decreases m
  {
    hide Half;
    if m > 0 {
      ShiftedTwice(Half(w), m - 1, n);
    }
  }

  lemma {:induction false} ShiftedZero(n: nat)
    ensures Shifted(0, n) == 0
    decreases n
  {
    if n > 0 {
      assert Half(0) == 0;
      ShiftedZero(n - 1);
    }
  }

  function By2(w: bv32): bv32 { w >> 2 }
  function By4(w: bv32): bv32 { w >> 4 }
  function By8(w: bv32): bv32 { w >> 8 }
  function By16(w: bv32): bv32 { w >> 16 }

  /** The top bit is 0. */
  lemma HalfTwice(w: bv32)
    ensures Half(Half(w)) == By2(w)
  {
  }

  lemma By2Twice(w: bv32)
    ensures By2(By2(w)) == By4(w)
  {
  }

  lemma By4Twice(w: bv32)
    ensures By4(By4(w)) == By8(w)
  {
  }

  lemma By8Twice(w: bv32)
    ensures By8(By8(w)) == By16(w)
  {
  }

  lemma By16Twice(w: bv32)
    ensures By16(By16(w)) == 0
  {
  }

  lemma LastBit(w: bv32)
    ensures Half(By2(By4(By8(By16(w))))) == 0 ==> TopClear(w)
  {
  }

  lemma ShiftedBy2(w: bv32)
    ensures Shifted(w, 2) == By2(w) && Shifted(w, 1) == Half(w)
  {
    HalfTwice(w);
    hide Half, By2;
    assert Shifted(Half(w), 1) == Half(Half(w));
  }

  lemma ShiftedBy4(w: bv32)
    ensures Shifted(w, 4) == By4(w)
  {
    hide Shifted, By2, By4, Half;
    ShiftedTwice(w, 2, 2);
    ShiftedBy2(w);
    ShiftedBy2(By2(w));
    By2Twice(w);
  }

  lemma ShiftedBy8(w: bv32)
    ensures Shifted(w, 8) == By8(w)
  {
    hide Shifted, By4, By8, Half;
    ShiftedTwice(w, 4, 4);
    ShiftedBy4(w);
    ShiftedBy4(By4(w));
    By4Twice(w);
  }

  lemma ShiftedBy16(w: bv32)
    ensures Shifted(w, 16) == By16(w)
  {
    hide Shifted, By8, By16, Half;
    ShiftedTwice(w, 8, 8);
    ShiftedBy8(w);
    ShiftedBy8(By8(w));
    By8Twice(w);
  }

  /** Nothing is left after 32 shifts, and only the top bit after 31. */
  lemma ShiftedOut(w: bv32)
    ensures Shifted(w, 32) == 0
    ensures Shifted(w, 31) == 0 ==> TopClear(w)
  {
    hide Shifted, By2, By4, By8, By16, Half, TopClear;
    ShiftedTwice(w, 16, 16);
    ShiftedBy16(w);
    ShiftedBy16(By16(w));
    By16Twice(w);
    ShiftedTwice(w, 16, 15);
    ShiftedTwice(By16(w), 8, 7);
    ShiftedBy8(By16(w));
    ShiftedTwice(By8(By16(w)), 4, 3);
    ShiftedBy4(By8(By16(w)));
    ShiftedTwice(By4(By8(By16(w))), 2, 1);
    ShiftedBy2(By4(By8(By16(w))));
    ShiftedBy2(By2(By4(By8(By16(w)))));
    LastBit(w);
  }

  /** Bits that are shifted out count for nothing. */
  lemma {:induction false} ValueOfMore(w: bv32, n: nat)
    requires Shifted(w, n) == 0
    ensures ValueOf(w, n + 1) == ValueOf(w, n)
    decreases n
  {
    hide Half;
    if n == 0 {
      ValueOfZero();
    } else {
      ValueOfMore(Half(w), n - 1);
    }
  }

  lemma ValueOfZero()
    ensures ValueOf(0, 1) == 0
  {
  }

  lemma HalfValue(w: bv32)
    ensures Value(Half(w)) == Value(w) / 2
  {
    hide Half;
    ShiftedOut(w);
    assert Shifted(w, 32) == Shifted(Half(w), 31);
    hide Shifted;
    ValueOfMore(Half(w), 31);
    OneBit(w);
  }

  lemma OneBit(w: bv32)
    ensures ValueOf(w, 32) == 2 * ValueOf(Half(w), 31) + Bit0(w) && Bit0(w) < 2
  {
    hide Half;
  }

  lemma {:induction false} ShiftedValue(w: bv32, n: nat)
    ensures Value(Shifted(w, n)) == Value(w) / Power(n)
    decreases n
  {
    hide Half, Value;
    if n > 0 {
      HalfValue(w);
      ShiftedValue(Half(w), n - 1);
      DivTwice(Value(w), 2, Power(n - 1));
    }
  }

  lemma DivTwice(x: nat, a: nat, b: nat)
    requires a > 0 && b > 0
    ensures a * b > 0 && x / a / b == x / (a * b)
  {
    MulAtLeast(a, b);
    var q, r := x / a, x % a;
    var p, s := q / b, q % b;
    assert x == q * a + r && q == p * b + s;
    assert (p * b + s) * a == p * (a * b) + s * a;
    MulOrder(s, b, a);
    DivUnique(x, a * b, p, s * a + r);
  }

  // ---------------------------------------------------------------- masks

  /** m has ones in its low n bits and nothing above. */
  predicate Ones(m: bv32, n: nat) {
    if n == 0 then m == 0 else m & 1 == 1 && Ones(Half(m), n - 1)
  }

  lemma HalfAnd(w: bv32, m: bv32)
    ensures Half(w & m) == Half(w) & Half(m)
    ensures m & 1 == 1 ==> Bit0(w & m) == Bit0(w)
    ensures w & 0 == 0
  {
  }

  lemma {:induction false} MaskedValueOf(w: bv32, m: bv32, k: nat, n: nat)
    requires Ones(m, k) && k <= n
    ensures ValueOf(w & m, n) == ValueOf(w, n) % Power(k)
    decreases n
  {
    hide Half, Bit0;
    HalfAnd(w, m);
    if k == 0 {
      NothingMasked(n);
    } else {
      MaskedValueOf(Half(w), Half(m), k - 1, n - 1);
      DoubleModulo(ValueOf(Half(w), n - 1), Bit0(w), Power(k - 1));
    }
  }

  lemma {:induction false} NothingMasked(n: nat)
    ensures ValueOf(0, n) == 0
    decreases n
  {
    if n > 0 {
      assert Half(0) == 0;
      NothingMasked(n - 1);
    }
  }

  lemma DoubleModulo(v: nat, bit: nat, p: nat)
    requires p > 0 && bit < 2
    ensures (2 * v + bit) % (2 * p) == 2 * (v % p) + bit
  {
    var q := v / p;
    assert v == q * p + v % p;
    assert 2 * (q * p) == q * (2 * p);
    DivUnique(2 * v + bit, 2 * p, q, 2 * (v % p) + bit);
  }

  // ---------------------------------------------------------------- words of numbers

  lemma DoubleParts(w: bv32, bit: nat)
    requires TopClear(w) && bit < 2
    ensures Half(Double(w, bit)) == w && Bit0(Double(w, bit)) == bit
  {
  }

  lemma {:induction false} WordIsSmall(x: nat, n: nat)
    requires n <= 32
    ensures Shifted(WordOf(x, n), n) == 0
    ensures n < 32 ==> TopClear(WordOf(x, n))
    decreases n
  {
    hide Half, Double, TopClear;
    var w := WordOf(x, n);
    if n > 0 {
      WordIsSmall(x / 2, n - 1);
      DoubleParts(WordOf(x / 2, n - 1), x % 2);
    }
    if n < 32 {
      ShiftedTwice(w, n, 31 - n);
      ShiftedZero(31 - n);
      ShiftedOut(w);
    }
  }

  lemma {:induction false} WordValue(x: nat, n: nat)
    requires n <= 32 && x < Power(n)
    ensures ValueOf(WordOf(x, n), n) == x
    decreases n
  {
    hide Half, Double, Bit0, TopClear;
    if n > 0 {
      WordValue(x / 2, n - 1);
      WordIsSmall(x / 2, n - 1);
      DoubleParts(WordOf(x / 2, n - 1), x % 2);
    }
  }

  lemma Powers()
    ensures Power(10) == 1024 && Power(11) == 2048 && Power(12) == 4096 && Power(32) == 0x1_0000_0000
  {
    assert Power(8) == 256;
    assert Power(16) == 65536;
    assert Power(24) == 16777216;
    assert Power(28) == 268435456;
  }

  /** The word of an unsigned number. */
  function Unsigned(x: uint32): (w: bv32)
    ensures Value(w) == x
  {
    Powers();
    WordValue(x, 32);
    WordOf(x, 32)
  }

  lemma Masks()
    ensures Ones(0x3FF, 10) && Ones(0x7FF, 11) && Ones(0xFFF, 12)
  {
    assert Ones(0x1, 1);
    assert Ones(0x3, 2);
    assert Ones(0x7, 3);
    assert Ones(0xF, 4);
    assert Ones(0x1F, 5);
    assert Ones(0x3F, 6);
    assert Ones(0x7F, 7);
    assert Ones(0xFF, 8);
    assert Ones(0x1FF, 9);
    assert Ones(0x3FF, 10);
    assert Ones(0x7FF, 11);
  }

  function By10(w: bv32): bv32 { w >> 10 }
  function By11(w: bv32): bv32 { w >> 11 }
  function By12(w: bv32): bv32 { w >> 12 }

  lemma By10Is(w: bv32)
    ensures By2(By8(w)) == By10(w)
  {
  }

  lemma By11Is(w: bv32)
    ensures Half(By10(w)) == By11(w)
  {
  }

  lemma By12Is(w: bv32)
    ensures By4(By8(w)) == By12(w)
  {
  }

  lemma ShiftsTo12(w: bv32)
    ensures Shifted(w, 10) == By10(w) && Shifted(w, 11) == By11(w) && Shifted(w, 12) == By12(w)
  {
    hide Shifted, Half, By2, By4, By8, By10, By11, By12;
    ShiftedBy8(w);
    ShiftedTwice(w, 8, 2);
    ShiftedBy2(By8(w));
    By10Is(w);
    ShiftedTwice(w, 10, 1);
    ShiftedBy2(By10(w));
    By11Is(w);
    ShiftedTwice(w, 8, 4);
    ShiftedBy4(By8(w));
    By12Is(w);
  }

  /** For the three block sizes, mask and shift are remainder and quotient. */
  lemma MaskAndShift(w: bv32)
    ensures Value(w & 0x3FF) == Value(w) % 1024 && Value(w >> 10) == Value(w) / 1024
    ensures Value(w & 0x7FF) == Value(w) % 2048 && Value(w >> 11) == Value(w) / 2048
    ensures Value(w & 0xFFF) == Value(w) % 4096 && Value(w >> 12) == Value(w) / 4096
  {
    assert w >> 10 == By10(w) && w >> 11 == By11(w) && w >> 12 == By12(w);
    MaskedValues(w);
    hide By10, By11, By12, ValueOf;
    Powers();
    ShiftsTo12(w);
    ShiftedValue(w, 10);
    ShiftedValue(w, 11);
    ShiftedValue(w, 12);
  }

  lemma MaskedValues(w: bv32)
    ensures Value(w & 0x3FF) == Value(w) % 1024
    ensures Value(w & 0x7FF) == Value(w) % 2048
    ensures Value(w & 0xFFF) == Value(w) % 4096
  {
    Powers();
    Masks();
    hide ValueOf, Ones, Power;
    MaskedValueOf(w, 0x3FF, 10, 32);
    MaskedValueOf(w, 0x7FF, 11, 32);
    MaskedValueOf(w, 0xFFF, 12, 32);
  }
}
