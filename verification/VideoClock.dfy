/**
  Programming the pixel clock: `set_dvi_frequency` (software/bios/display.c:179-257) chooses an even output
  divider and a fractional multiplier a + b/c for the SI5351A and packs both into register bytes.
 */
module VideoClock {
  import opened MachineTypes
  import opened Arithmetic

  const SOURCE := 25_000_000
  const MIN_VCO := 600_000_000
  const LIMIT := 0x10_0000

  const SI5351A := 0x60
  const TFP410 := 0x38

  /** One I2C write: device address and bytes. */
  datatype Write = Write(device: int, bytes: seq<byte>)

  // ---------------------------------------------------------------- the registers of the chips

  /** What a write makes of a register: the first byte is the number of a register, the others go there and behind it. */
  function Stored(w: Write, device: int, reg: int, before: byte): byte {
    if w.device == device && w.bytes != [] && 0 <= reg - w.bytes[0] < |w.bytes| - 1 then w.bytes[1 + reg - w.bytes[0]] else before
  }

  /** A register after all writes. */
  function Final(writes: seq<Write>, device: int, reg: int, before: byte): byte
    decreases |writes|
  {
    if writes == [] then before else Final(writes[1..], device, reg, Stored(writes[0], device, reg, before))
  }

  lemma FinalFrom(writes: seq<Write>, i: nat, device: int, reg: int, before: byte)
    requires i < |writes|
    ensures Final(writes[i..], device, reg, before) == Final(writes[i + 1..], device, reg, Stored(writes[i], device, reg, before))
  {
    assert writes[i..][1..] == writes[i + 1..];
    hide Stored;
  }

  // ---------------------------------------------------------------- the output divider

  predicate InRange(freq: int) { 1_000_000 <= freq <= 200_000_000 }

  predicate GoodDivider(freq: int, div: int) {
    && div % 2 == 0 && 4 <= div <= 600
    && 600_000_000 <= freq * div < 900_000_000
    && (div == 4 || freq * (div - 2) < 600_000_000)
  }

  /** The smallest even divider, from 4 on, that brings the VCO to 600 MHz; 32 bits are always enough. */
  method FindDivider(freq: uint32) returns (div: uint32)
    requires InRange(freq)
    ensures GoodDivider(freq, div)
  {
    div := 4;
    while U32(freq * div) < MIN_VCO
      invariant 4 <= div <= 600 && div % 2 == 0 && freq * div < 0x1_0000_0000
      invariant div == 4 || freq * (div - 2) < MIN_VCO
      decreases MIN_VCO - freq * div
    {
      DividerBound(freq, div);
      div := div + 2;
    }
    if div != 4 { DividerBound(freq, div - 2); }
  }

  lemma DividerBound(freq: int, div: int)
    requires InRange(freq) && 4 <= div && div % 2 == 0 && freq * div < MIN_VCO
    ensures div <= 598 && freq * (div + 2) == freq * div + 2 * freq < 900_000_000
  {
    assert (freq - 1_000_000) * div >= 0;
    assert (div - 4) * freq >= 0;
  }

  // ---------------------------------------------------------------- reducing the fraction

  /** b0/SOURCE == b/c after dividing out g. */
  predicate Reduced(b0: int, b: int, c: int, g: int) {
    0 < g && 0 < c && 0 <= b < c && b * g == b0 && c * g == SOURCE
  }

  lemma ReduceStep(b0: int, b: int, c: int, g: int, i: int)
    requires Reduced(b0, b, c, g) && 2 <= i && b % i == 0 && c % i == 0
    ensures Reduced(b0, b / i, c / i, g * i) && c / i < c
  {
    var b', c' := b / i, c / i;
    assert b == b' * i && c == c' * i;
    assert b' * (g * i) == b' * i * g && c' * (g * i) == c' * i * g;
    if c' <= 0 { MulAtMost(c', 0, i); }
    if b' >= c' { MulAtMost(c', b', i); }
  }

  lemma MulAtMost(x: int, y: int, s: int)
    requires x <= y && s > 0
    ensures x * s <= y * s
  {
    if x < y { MulOrder(x, y, s); }
  }

  lemma FactorOfProduct(c: int, g: int, p: int)
    requires p > 0 && c % p == 0
    ensures c * g % p == 0
  {
    var k := c / p;
    assert c * g == (k * g) * p;
    DivUnique(c * g, p, k * g, 0);
  }

  lemma Divides(x: int, i: int, p: int)
    requires p > 0 && i > 0 && i % p == 0 && x % i == 0
    ensures x % p == 0
  {
    FactorOfProduct(i, x / i, p);
  }

  function SmallFactor(i: int): int {
    if i % 2 == 0 then 2 else if i % 3 == 0 then 3 else i
  }

  lemma SmallFactorDivides(i: int)
    requires 3 <= i <= 19 && i != 5
    ensures i % SmallFactor(i) == 0
    ensures SmallFactor(i) == 2 || (3 <= SmallFactor(i) <= 19 && SOURCE % SmallFactor(i) != 0)
  {
    if i == 3 {} else if i == 7 {} else if i == 9 {} else if i == 11 {} else if i == 13 {} else if i == 15 {}
    else if i == 17 {} else if i == 19 {}
  }

  /** SOURCE is 2^6 * 5^8: apart from 2 and 5 no number up to 19 still divides both sides. */
  lemma NothingElseDivides(b0: int, b: int, c: int, g: int, i: int)
    requires Reduced(b0, b, c, g) && 3 <= i <= 19 && i != 5 && (b % 2 != 0 || c % 2 != 0)
    ensures b % i != 0 || c % i != 0
  {
    hide SmallFactor;
    SmallFactorDivides(i);
    if b % i == 0 && c % i == 0 {
      var p := SmallFactor(i);
      Divides(b, i, p);
      Divides(c, i, p);
      FactorOfProduct(c, g, p);
    }
  }

  function Pow(base: nat, n: nat): (r: nat)
    ensures base > 0 ==> r > 0
  {
    if n == 0 then 1 else base * Pow(base, n - 1)
  }

  /** g is 2^x * 5^y. */
  predicate TwosAndFives(g: int, x: nat, y: nat) {
    g == Pow(2, x) * Pow(5, y)
  }

  lemma MoreTwos(g: int, x: nat, y: nat)
    requires TwosAndFives(g, x, y)
    ensures TwosAndFives(g * 2, x + 1, y)
  {
  }

  lemma MoreFives(g: int, x: nat, y: nat)
    requires TwosAndFives(g, x, y)
    ensures TwosAndFives(g * 5, x, y + 1)
  {
    assert Pow(2, x) * Pow(5, y + 1) == Pow(2, x) * Pow(5, y) * 5;
  }

  lemma PowAtLeast(base: nat, m: nat, n: nat)
    requires base >= 1 && m <= n
    ensures Pow(base, n) >= Pow(base, m)
    decreases n
  {
    if m < n {
      PowAtLeast(base, m, n - 1);
      MulAtMost(1, base, Pow(base, n - 1));
    }
  }

  lemma FewTwosAndFives(g: int, x: nat, y: nat)
    requires TwosAndFives(g, x, y) && g <= 23
    ensures (y == 0 && x <= 4) || (y == 1 && x <= 2)
  {
    PowersOfTwo();
    PowersOfFive();
    hide Pow;
    if y >= 2 {
      PowAtLeast(5, 2, y);
      MulAtMost(1, Pow(2, x), Pow(5, y));
    } else if x >= 5 {
      PowAtLeast(2, 5, x);
    } else if y == 1 && x >= 3 {
      PowAtLeast(2, 3, x);
    }
  }

  lemma PowersOfFive()
    ensures Pow(5, 0) == 1 && Pow(5, 1) == 5 && Pow(5, 2) == 25
  {
    assert Pow(5, 1) == 5;
  }

  lemma PowersOfTwo()
    ensures Pow(2, 0) == 1 && Pow(2, 1) == 2 && Pow(2, 2) == 4 && Pow(2, 3) == 8 && Pow(2, 4) == 16 && Pow(2, 5) == 32
  {
    assert Pow(2, 2) == 4;
    assert Pow(2, 4) == 16;
  }

  /** A denominator too large for the chip belongs to one of eight divisors, and is even. */
  lemma LargeDenominator(c: int, g: int, x: nat, y: nat)
    requires c * g == SOURCE && c >= LIMIT && TwosAndFives(g, x, y)
    ensures c % 2 == 0 && g in {1, 2, 4, 8, 16, 5, 10, 20}
  {
    if g > 23 { MulAtMost(24, g, c); }
    FewTwosAndFives(g, x, y);
    PowersOfTwo();
    PowersOfFive();
    hide Pow;
  }

  /** Common factors from 2 to 19 are divided out, each as often as it goes. */
  method ReduceFraction(b0: uint32) returns (b: uint32, c: uint32, ghost g: int, ghost x: nat, ghost y: nat)
    requires b0 < SOURCE
    ensures Reduced(b0, b, c, g) && TwosAndFives(g, x, y)
    ensures (b % 2 != 0 || c % 2 != 0) && (b % 5 != 0 || c % 5 != 0)
  {
    hide TwosAndFives;
    b, c := b0, SOURCE;
    g, x, y := 1, 0, 0;
    OneIsNothing();
    var i := 2;
    while i <= 19
      invariant 2 <= i <= 20 && Reduced(b0, b, c, g) && TwosAndFives(g, x, y) && c <= SOURCE
      invariant i > 2 ==> b % 2 != 0 || c % 2 != 0
      invariant i > 5 ==> b % 5 != 0 || c % 5 != 0
    {
      while b % i == 0 && c % i == 0
        invariant Reduced(b0, b, c, g) && TwosAndFives(g, x, y) && c <= SOURCE
        invariant i > 2 ==> b % 2 != 0 || c % 2 != 0
        invariant i > 5 ==> b % 5 != 0 || c % 5 != 0
        decreases c
      {
        ReduceStep(b0, b, c, g, i);
        if i == 2 {
          MoreTwos(g, x, y);
          x := x + 1;
        } else if i == 5 {
          MoreFives(g, x, y);
          StillOdd(b, c);
          y := y + 1;
        } else {
          NothingElseDivides(b0, b, c, g, i);
          assert false;
        }
        b, c, g := b / i, c / i, g * i;
      }
      i := i + 1;
    }
  }

  lemma OneIsNothing()
    ensures TwosAndFives(1, 0, 0)
  {
  }

  lemma StillOdd(b: int, c: int)
    requires b % 5 == 0 && c % 5 == 0 && (b % 2 != 0 || c % 2 != 0)
    ensures b / 5 % 2 != 0 || c / 5 % 2 != 0
  {
    assert b == b / 5 * 5 && c == c / 5 * 5;
    if b / 5 % 2 == 0 && c / 5 % 2 == 0 {
      FactorOfProduct(b / 5, 5, 2);
      FactorOfProduct(c / 5, 5, 2);
    }
  }

  // ---------------------------------------------------------------- making the denominator fit

  /** The VCO error in Hz of multiplying by a + b/c, where c * total == SOURCE. */
  function Loss(b0: int, b: int, total: int): int { b0 - b * total }

  /** b and c after halving: c is exact, b has lost less than one unit. */
  predicate Halved(b0: int, b: int, c: int, total: int) {
    0 < total && 0 <= b < c && c * total == SOURCE && 0 <= Loss(b0, b, total) < total
  }

  lemma HalveStep(b0: int, b: int, c: int, total: int)
    requires Halved(b0, b, c, total) && c % 2 == 0
    ensures Halved(b0, b / 2, c / 2, total * 2)
    ensures Loss(b0, b / 2, total * 2) == Loss(b0, b, total) + b % 2 * total
  {
    var b', r := b / 2, b % 2;
    assert b == 2 * b' + r;
    assert (2 * b' + r) * total == b' * (total * 2) + r * total;
    assert c == c / 2 * 2;
    assert c / 2 * (total * 2) == c / 2 * 2 * total;
    if r == 1 { assert r * total == total; }
  }

  /** Both are halved, rounding down, until the denominator fits its 20 bits. */
  method FitDenominator(b0: uint32, b1: uint32, c1: uint32, ghost g: int, ghost x: nat, ghost y: nat)
      returns (b: uint32, c: uint32, ghost total: int)
    requires Reduced(b0, b1, c1, g) && TwosAndFives(g, x, y) && (b1 % 2 != 0 || c1 % 2 != 0)
    ensures Halved(b0, b, c, total) && c < LIMIT
    ensures c1 < LIMIT ==> b == b1 && c == c1 && total == g && Loss(b0, b, total) == 0
    ensures c1 >= LIMIT ==> total <= 40 && Loss(b0, b, total) > 0
  {
    hide TwosAndFives;
    b, c, total := b1, c1, g;
    ghost var k := x;
    while c >= LIMIT
      invariant Halved(b0, b, c, total) && TwosAndFives(total, k, y)
      invariant if total == g then b == b1 && c == c1 && Loss(b0, b, total) == 0 else Loss(b0, b, total) > 0 && total <= 40
      invariant total >= g && (total > g ==> c1 >= LIMIT)
      decreases c
    {
      LargeDenominator(c, total, k, y);
      HalveStep(b0, b, c, total);
      MoreTwos(total, k, y);
      if total == g { assert b % 2 == 1; }
      b, c, total, k := b / 2, c / 2, total * 2, k + 1;
    }
  }

  // ---------------------------------------------------------------- when nothing is lost

  /** The frequencies that survive exactly: the VCO frequency shares a factor of at least 24 with the source. */
  predicate ExactVco(fvco: int) {
    fvco % 25 == 0 || fvco % 32 == 0 || fvco % 40 == 0
  }

  lemma LargeDivisor(g: int, x: nat, y: nat)
    requires TwosAndFives(g, x, y) && g >= 24
    ensures g % 25 == 0 || g % 32 == 0 || g % 40 == 0
  {
    PowersOfTwo();
    PowersOfFive();
    if y >= 2 {
      PowSplit(5, 2, y);
      hide Pow;
      FactorTwice(Pow(2, x), Pow(5, y - 2), 25);
    } else if y == 1 && x >= 3 {
      PowSplit(2, 3, x);
      hide Pow;
      FactorTwice(5, Pow(2, x - 3), 8);
      assert g == 8 * Pow(2, x - 3) * 5;
      DivUnique(g, 40, Pow(2, x - 3), 0);
    } else if y == 0 && x >= 5 {
      PowSplit(2, 5, x);
      hide Pow;
      DivUnique(g, 32, Pow(2, x - 5), 0);
    }
  }

  lemma MulAssociates(x: nat, y: nat, z: nat)
    ensures x * (y * z) == x * y * z
  {
  }

  lemma {:induction false} PowSplit(base: nat, m: nat, n: nat)
    requires m <= n
    ensures Pow(base, n) == Pow(base, m) * Pow(base, n - m)
    decreases m
  {
    if m > 0 {
      PowSplit(base, m - 1, n - 1);
      MulAssociates(base, Pow(base, m - 1), Pow(base, n - m));
    }
  }

  lemma FactorTwice(p: int, q: int, m: int)
    requires m > 0
    ensures p * (m * q) % m == 0
  {
    assert p * (m * q) == (p * q) * m;
    DivUnique(p * (m * q), m, p * q, 0);
  }

  lemma SmallDivisorLoses(b0: int, b: int, c: int, g: int)
    requires g in {1, 2, 4, 8, 16, 5, 10, 20} && b * g == b0 && c * g == SOURCE
    requires (b % 2 != 0 || c % 2 != 0) && (b % 5 != 0 || c % 5 != 0)
    ensures !ExactVco(b0)
  {
    SmallDivisorCofactor(c, g);
    NoFactor25(b, g);
    NoFactor32(b, g);
    NoFactor40(b, g);
  }

  lemma SmallDivisorCofactor(c: int, g: int)
    requires g in {1, 2, 4, 8, 16, 5, 10, 20} && c * g == SOURCE
    ensures c % 2 == 0 && c % 5 == 0
  {
    if g == 1 {} else if g == 2 {} else if g == 4 {} else if g == 8 {} else if g == 16 {}
    else if g == 5 {} else if g == 10 {} else {}
  }

  /** If p does not divide b and divides m/d, where d is common to g and m, then m does not divide b * g. */
  lemma NoFactor(b: int, g: int, m: int, p: int, d: int, g1: int, m1: int, u: int)
    requires g == d * g1 && m == d * m1 && d > 0 && m > 0 && p > 0 && m1 % p == 0 && u * g1 % p == 1 && b % p != 0
    ensures b * g % m != 0
  {
    if b * g % m == 0 {
      var t := b * g / m;
      assert b * g == t * m;
      CommonFactor(b, g1, t, m1, d);
      FactorShows(b, g1, t, m1, p, u);
    }
  }

  lemma CommonFactor(b: int, g1: int, t: int, m1: int, d: int)
    requires d > 0 && b * (d * g1) == t * (d * m1)
    ensures b * g1 == m1 * t
  {
    Rotate(b, d, g1);
    Rotate(t, d, m1);
    Cancel(b * g1, m1 * t, d);
  }

  lemma Rotate(x: int, d: int, y: int)
    ensures x * (d * y) == d * (x * y) && x * y == y * x
  {
  }

  /** u is the inverse of g1 modulo p. */
  lemma FactorShows(b: int, g1: int, t: int, m1: int, p: int, u: int)
    requires p > 0 && b * g1 == m1 * t && m1 % p == 0 && u * g1 % p == 1
    ensures b % p == 0
  {
    FactorOfProduct(m1, t * u, p);
    var w := u * g1 / p;
    assert u * g1 == p * w + 1;
    assert m1 * (t * u) == m1 * t * u;
    assert b * g1 * u == b * (u * g1);
    assert b * (p * w + 1) == p * (w * b) + b;
    SameRemainder(w * b, b, p);
  }

  lemma Cancel(x: int, y: int, d: int)
    requires d > 0 && d * x == d * y
    ensures x == y
  {
    if x < y { MulOrder(x, y, d); }
    if y < x { MulOrder(y, x, d); }
  }

  lemma NoFactor25(b: int, g: int)
    requires g in {1, 2, 4, 8, 16, 5, 10, 20} && b % 5 != 0
    ensures b * g % 25 != 0
  {
    if g == 1 { NoFactor(b, g, 25, 5, 1, 1, 25, 1); }
    else if g == 2 { NoFactor(b, g, 25, 5, 1, 2, 25, 3); }
    else if g == 4 { NoFactor(b, g, 25, 5, 1, 4, 25, 4); }
    else if g == 8 { NoFactor(b, g, 25, 5, 1, 8, 25, 2); }
    else if g == 16 { NoFactor(b, g, 25, 5, 1, 16, 25, 1); }
    else if g == 5 { NoFactor(b, g, 25, 5, 5, 1, 5, 1); }
    else if g == 10 { NoFactor(b, g, 25, 5, 5, 2, 5, 3); }
    else { NoFactor(b, g, 25, 5, 5, 4, 5, 4); }
  }

  lemma NoFactor32(b: int, g: int)
    requires g in {1, 2, 4, 8, 16, 5, 10, 20} && b % 2 != 0
    ensures b * g % 32 != 0
  {
    if g == 1 { NoFactor(b, g, 32, 2, 1, 1, 32, 1); }
    else if g == 2 { NoFactor(b, g, 32, 2, 2, 1, 16, 1); }
    else if g == 4 { NoFactor(b, g, 32, 2, 4, 1, 8, 1); }
    else if g == 8 { NoFactor(b, g, 32, 2, 8, 1, 4, 1); }
    else if g == 16 { NoFactor(b, g, 32, 2, 16, 1, 2, 1); }
    else if g == 5 { NoFactor(b, g, 32, 2, 1, 5, 32, 1); }
    else if g == 10 { NoFactor(b, g, 32, 2, 2, 5, 16, 1); }
    else { NoFactor(b, g, 32, 2, 4, 5, 8, 1); }
  }

  lemma NoFactor40(b: int, g: int)
    requires g in {1, 2, 4, 8, 16, 5, 10, 20} && b % 2 != 0 && b % 5 != 0
    ensures b * g % 40 != 0
  {
    if g == 1 { NoFactor(b, g, 40, 5, 1, 1, 40, 1); }
    else if g == 2 { NoFactor(b, g, 40, 5, 2, 1, 20, 1); }
    else if g == 4 { NoFactor(b, g, 40, 5, 4, 1, 10, 1); }
    else if g == 8 { NoFactor(b, g, 40, 5, 8, 1, 5, 1); }
    else if g == 16 { NoFactor(b, g, 40, 5, 8, 2, 5, 3); }
    else if g == 5 { NoFactor(b, g, 40, 2, 5, 1, 8, 1); }
    else if g == 10 { NoFactor(b, g, 40, 2, 10, 1, 4, 1); }
    else { NoFactor(b, g, 40, 2, 20, 1, 2, 1); }
  }

  lemma WhenItFits(fvco: nat, b: int, c: int, g: int, x: nat, y: nat)
    requires Reduced(fvco % SOURCE, b, c, g) && TwosAndFives(g, x, y)
    requires (b % 2 != 0 || c % 2 != 0) && (b % 5 != 0 || c % 5 != 0)
    ensures c < LIMIT <==> ExactVco(fvco)
  {
    var b0 := fvco % SOURCE;
    SameRemainders(fvco);
    hide TwosAndFives;
    if c < LIMIT {
      if g < 24 { MulAtMost(g, 23, c); }
      LargeDivisor(g, x, y);
      if g % 25 == 0 { FactorOfProduct(g, b, 25); }
      else if g % 32 == 0 { FactorOfProduct(g, b, 32); }
      else { FactorOfProduct(g, b, 40); }
    } else {
      LargeDenominator(c, g, x, y);
      SmallDivisorLoses(b0, b, c, g);
    }
  }

  lemma SameRemainders(fvco: nat)
    ensures ExactVco(fvco) <==> ExactVco(fvco % SOURCE)
  {
    var q, r := fvco / SOURCE, fvco % SOURCE;
    assert fvco == SOURCE * q + r;
    SameRemainder(1_000_000 * q, r, 25);
    SameRemainder(781_250 * q, r, 32);
    SameRemainder(625_000 * q, r, 40);
  }

  lemma SameRemainder(t: int, r: int, m: int)
    requires m > 0
    ensures (m * t + r) % m == r % m
  {
    var o := m * t + r;
    assert r == m * (r / m) + r % m;
    assert o == (t + r / m) * m + r % m;
    DivUnique(o, m, t + r / m, r % m);
  }

  // ---------------------------------------------------------------- the registers

  function Low8(x: int): byte { x % 256 }

  /** Silicon Labs AN619: P1 has 18 bits, P2 and P3 have 20, spread over eight registers. */
  function DecodeP1(r: seq<byte>): int
    requires |r| == 9
  {
    var r3: int, r4: int, r5: int := r[3], r[4], r[5];
    r3 % 4 * 0x1_0000 + r4 * 0x100 + r5
  }

  function DecodeP2(r: seq<byte>): int
    requires |r| == 9
  {
    var r6: int, r7: int, r8: int := r[6], r[7], r[8];
    r6 % 16 * 0x1_0000 + r7 * 0x100 + r8
  }

  function DecodeP3(r: seq<byte>): int
    requires |r| == 9
  {
    var r6: int, r1: int, r2: int := r[6], r[1], r[2];
    r6 / 16 * 0x1_0000 + r1 * 0x100 + r2
  }

  /** The multiplier or divider a + b/c that a register set stands for. */
  datatype Ratio = Ratio(a: int, b: int, c: int)

  function Decode(r: seq<byte>): Ratio
    requires |r| == 9
  {
    var p1, p2, p3 := DecodeP1(r) + 512, DecodeP2(r), DecodeP3(r);
    Ratio(p1 / 128, (p1 % 128 * p3 + p2) / 128, p3)
  }

  /** The register bytes of the multiplier, first the register number. */
  function MultiplierBytes(p1: int, p2: int, p3: int): seq<byte> {
    [0x1a, Low8(p3 / 0x100), Low8(p3), Low8(p1 / 0x1_0000), Low8(p1 / 0x100), Low8(p1),
     Low8(p3 / 0x1_0000 * 16 + p2 / 0x1_0000), Low8(p2 / 0x100), Low8(p2)]
  }

  function DividerBytes(div: int): seq<byte> {
    var p1 := div * 128 - 512;
    [0x2a, 0, 1, Low8((if div == 4 then 0xC else 0) + p1 / 0x1_0000), Low8(p1 / 0x100), Low8(p1), 0, 0, 0]
  }

  lemma BytesOf(x: int)
    requires 0 <= x < 0x10_0000
    ensures x / 0x1_0000 * 0x1_0000 + Low8(x / 0x100) * 0x100 + Low8(x) == x && 0 <= x / 0x1_0000 < 16
  {
  }

  lemma MultiplierDecodes(a: int, b: int, c: int)
    requires 4 <= a < 1000 && 0 <= b < c < LIMIT
    ensures var bc := b * 128 / c;
            Decode(MultiplierBytes(a * 128 + bc - 512, b * 128 - c * bc, c)) == Ratio(a, b, c)
  {
    var bc := b * 128 / c;
    var p1, p2 := a * 128 + bc - 512, b * 128 - c * bc;
    QuotientBelow(b, c);
    assert 0 <= p2 < c && 0 <= p1 < 0x4_0000;
    hide Decode, MultiplierBytes, DecodeP1, DecodeP2, DecodeP3;
    FieldsDecode(p1, p2, c);
    RatioDecodes(MultiplierBytes(p1, p2, c), a, b, c, bc);
  }

  lemma RatioDecodes(r: seq<byte>, a: int, b: int, c: int, bc: int)
    requires |r| == 9 && 0 <= bc < 128 && DecodeP3(r) == c
    requires DecodeP1(r) == a * 128 + bc - 512 && DecodeP2(r) == b * 128 - c * bc
    ensures Decode(r) == Ratio(a, b, c)
  {
    hide DecodeP1, DecodeP2, DecodeP3;
    DivUnique(a * 128 + bc, 128, a, bc);
    DivUnique(b * 128, 128, b, 0);
  }

  lemma QuotientBelow(b: int, c: int)
    requires 0 <= b < c
    ensures 0 <= b * 128 / c < 128 && 0 <= b * 128 - c * (b * 128 / c) < c
  {
    var q, r := b * 128 / c, b * 128 % c;
    assert b * 128 == c * q + r;
    if q >= 128 { MulAtMost(128, q, c); }
    if q < 0 { MulAtMost(q, -1, c); }
  }

  lemma PackedNibbles(hi: int, lo: int)
    requires 0 <= hi < 16 && 0 <= lo < 16
    ensures Low8(hi * 16 + lo) / 16 == hi && Low8(hi * 16 + lo) % 16 == lo
  {
  }

  lemma FieldsDecode(p1: int, p2: int, p3: int)
    requires 0 <= p1 < 0x4_0000 && 0 <= p2 < 0x10_0000 && 0 <= p3 < 0x10_0000
    ensures var r := MultiplierBytes(p1, p2, p3);
            DecodeP1(r) == p1 && DecodeP2(r) == p2 && DecodeP3(r) == p3
  {
    BytesOf(p1);
    BytesOf(p2);
    BytesOf(p3);
    PackedNibbles(p3 / 0x1_0000, p2 / 0x1_0000);
    assert Low8(p1 / 0x1_0000) % 4 == p1 / 0x1_0000;
    hide Low8;
  }

  /** The divider is an integer, and 4 has its own register bits. */
  lemma DividerDecodes(div: int)
    requires div % 2 == 0 && 4 <= div <= 600
    ensures Decode(DividerBytes(div)) == Ratio(div, 0, 1)
    ensures DividerBytes(div)[3] / 4 % 4 == (if div == 4 then 3 else 0)
  {
    BytesOf(div * 128 - 512);
  }

  // ---------------------------------------------------------------- the whole setting

  /** The pixel clock that multiplier and divider produce from the 25 MHz source. */
  function PixelClock(m: Ratio, div: Ratio): real
    requires m.c > 0 && div.c > 0 && div.a > 0 && div.b == 0
  {
    25_000_000.0 * (m.a as real + m.b as real / m.c as real) / div.a as real
  }

  /** What the registers promise for a requested frequency. */
  predicate Accurate(freq: int, m: Ratio, div: Ratio) {
    && div.b == 0 && div.c == 1 && GoodDivider(freq, div.a)
    && 24 <= m.a < 36 && 0 <= m.b < m.c < 0x10_0000
    && var pixel := PixelClock(m, div);
       && pixel <= freq as real < pixel + 10.0
       && (pixel == freq as real <==> ExactVco(freq * div.a))
  }

  /** Turning the loss in whole Hz of the VCO into a bound for the pixel clock. */
  lemma LossBound(freq: int, a: int, b: int, c: int, div: int, loss: int)
    requires 4 <= div && 0 < c && 0 <= loss < 40 && freq * div == SOURCE * a + loss + (SOURCE * b) / c && SOURCE * b % c == 0
    ensures var pixel := PixelClock(Ratio(a, b, c), Ratio(div, 0, 1));
            pixel <= freq as real < pixel + 10.0 && (pixel == freq as real <==> loss == 0)
  {
    var pixel := PixelClock(Ratio(a, b, c), Ratio(div, 0, 1));
    var k := SOURCE * b / c;
    assert SOURCE * b == k * c;
    assert SOURCE as real * (b as real / c as real) == k as real by {
      assert (SOURCE * b) as real == SOURCE as real * b as real;
      assert (k * c) as real == k as real * c as real;
      assert SOURCE as real * (b as real / c as real) == (SOURCE as real * b as real) / c as real;
    }
    var vco := SOURCE as real * a as real + k as real;
    assert pixel == vco / div as real;
    assert vco == (freq * div - loss) as real;
    RealDivision(freq, div, loss, pixel);
  }

  lemma RealDivision(freq: int, div: int, loss: int, pixel: real)
    requires 4 <= div && 0 <= loss < 40 && pixel == (freq * div - loss) as real / div as real
    ensures pixel <= freq as real < pixel + 10.0 && (pixel == freq as real <==> loss == 0)
  {
    var d := div as real;
    assert (freq * div - loss) as real == freq as real * d - loss as real;
    assert pixel * d == freq as real * d - loss as real;
    assert (freq as real - pixel) * d == loss as real;
    GapBounds(freq as real - pixel, d, loss as real);
  }

  lemma GapBounds(gap: real, d: real, loss: real)
    requires d >= 4.0 && gap * d == loss && 0.0 <= loss < 40.0
    ensures 0.0 <= gap < 10.0 && (gap == 0.0 <==> loss == 0.0)
  {
    if gap < 0.0 {
      RealProduct(-gap, d);
    } else if gap >= 10.0 {
      WideGap(gap, d);
    } else {
      RealProduct(gap, d);
    }
  }

  lemma WideGap(gap: real, d: real)
    requires d >= 4.0 && gap >= 10.0
    ensures gap * d >= 40.0
  {
    assert (gap - 10.0) * d == gap * d - 10.0 * d;
    RealProduct(gap - 10.0, d);
  }

  lemma RealProduct(x: real, d: real)
    requires x >= 0.0 && d > 0.0
    ensures x * d >= 0.0 && (x > 0.0 ==> x * d > 0.0)
  {
  }

  method ChooseMultiplier(fvco: uint32) returns (a: uint32, b: uint32, c: uint32, ghost loss: int)
    requires MIN_VCO <= fvco < 900_000_000
    ensures 24 <= a < 36 && 0 <= b < c < LIMIT && 0 <= loss < 40
    ensures SOURCE * b % c == 0 && fvco == SOURCE * a + loss + SOURCE * b / c
    ensures loss == 0 <==> ExactVco(fvco)
  {
    hide TwosAndFives;
    a := fvco / SOURCE;
    ghost var b0 := fvco % SOURCE;
    var b1, c1;
    ghost var g, x, y, total;
    b1, c1, g, x, y := ReduceFraction(fvco % SOURCE);
    WhenItFits(fvco, b1, c1, g, x, y);
    b, c, total := FitDenominator(fvco % SOURCE, b1, c1, g, x, y);
    loss := Loss(b0, b, total);
    assert SOURCE * b == c * total * b == total * b * c;
    DivUnique(SOURCE * b, c, total * b, 0);
  }

  /** Divider and multiplier of a frequency, packed into their registers. */
  method Registers(freq: uint32) returns (multiplier: seq<byte>, divider: seq<byte>)
    requires InRange(freq)
    ensures |multiplier| == |divider| == 9 && multiplier[0] == 0x1a && divider[0] == 0x2a
    ensures Accurate(freq, Decode(multiplier), Decode(divider))
  {
    hide Decode, MultiplierBytes, DividerBytes, ExactVco, Accurate;
    var div := FindDivider(freq);
    var a: int, b: int, c: int;
    ghost var loss;
    a, b, c, loss := ChooseMultiplier(freq * div);
    var bc: int := b * 128 / c;
    multiplier := MultiplierBytes(a * 128 + bc - 512, b * 128 - c * bc, c);
    divider := DividerBytes(div);
    MultiplierDecodes(a, b, c);
    DividerDecodes(div);
    RegisterNumbers(a * 128 + bc - 512, b * 128 - c * bc, c, div);
    SettingIsAccurate(freq, div, a, b, c, loss);
  }

  lemma SettingIsAccurate(freq: int, div: int, a: int, b: int, c: int, loss: int)
    requires GoodDivider(freq, div) && 24 <= a < 36 && 0 <= b < c < LIMIT && 0 <= loss < 40
    requires SOURCE * b % c == 0 && freq * div == SOURCE * a + loss + SOURCE * b / c
    requires loss == 0 <==> ExactVco(freq * div)
    ensures Accurate(freq, Ratio(a, b, c), Ratio(div, 0, 1))
  {
    hide PixelClock, ExactVco;
    LossBound(freq, a, b, c, div, loss);
  }

  /** Register `reg` of the clock chip (AN619) for a frequency in range: outputs on, multisynth 0 and seven unused clocks,
      multiplier and divider, no phase offset, no spread spectrum, load capacitance, and the reset of the PLL. */
  function ClockRegister(reg: int, before: byte, multiplier: seq<byte>, divider: seq<byte>): byte
    requires |multiplier| == |divider| == 9
  {
    if reg == 3 then 0
    else if reg == 16 then 0x4c
    else if 17 <= reg <= 23 then 0x8c
    else if 26 <= reg <= 33 then multiplier[reg - 25]
    else if 42 <= reg <= 49 then divider[reg - 41]
    else if 90 <= reg <= 91 || 149 <= reg <= 155 || 162 <= reg <= 164 then 0
    else if reg == 177 then 0xac
    else if reg == 183 then 0xd2
    else before
  }

  /** Whatever the registers of both chips held before, this is what they hold after the writes; the reset comes last. */
  ghost predicate Programs(writes: seq<Write>, multiplier: seq<byte>, divider: seq<byte>)
    requires |multiplier| == |divider| == 9
  {
    && (forall reg: int, before: byte :: Final(writes, 0x60, reg, before) == ClockRegister(reg, before, multiplier, divider))
    && (forall reg: int, before: byte :: Final(writes, 0x38, reg, before) == if reg == 8 then 3 else before)
    && |writes| > 0 && writes[|writes| - 1] == Write(0x60, [177, 0xac])
  }

  /** All outputs and the encoder are off, and nothing else has changed. */
  ghost predicate SwitchesOff(writes: seq<Write>) {
    && (forall reg: int, before: byte :: Final(writes, 0x60, reg, before) == if reg == 3 then 0xff else before)
    && (forall reg: int, before: byte :: Final(writes, 0x38, reg, before) == if reg == 8 then 0 else before)
  }

  /** Both chips after a request: outside the range everything is off, inside it the clock is accurate and on. */
  method SetDviFrequency(freq: uint32) returns (writes: seq<Write>)
    ensures !(1_000_000 <= freq <= 200_000_000) ==> SwitchesOff(writes)
    ensures 1_000_000 <= freq <= 200_000_000 ==>
              exists multiplier: seq<byte>, divider: seq<byte> :: |multiplier| == |divider| == 9
                && Programs(writes, multiplier, divider) && Accurate(freq, Decode(multiplier), Decode(divider))
  {
    if freq < 1_000_000 || freq > 200_000_000 {
      writes := [Write(SI5351A, [3, 0xff]), Write(TFP410, [8, 0])];
      OffWrites(writes);
      return;
    }
    hide Accurate, Decode;
    var multiplier, divider := Registers(freq);
    writes := [Write(TFP410, [8, 3]),
               Write(SI5351A, [0x10, 0x4c, 0x8c, 0x8c, 0x8c, 0x8c, 0x8c, 0x8c, 0x8c]),
               Write(SI5351A, multiplier),
               Write(SI5351A, divider),
               Write(SI5351A, [0x5a, 0, 0]),
               Write(SI5351A, [0x95, 0, 0, 0, 0, 0, 0, 0]),
               Write(SI5351A, [0xa2, 0, 0, 0]),
               Write(SI5351A, [0x03, 0x00]),
               Write(SI5351A, [0xb7, 0xd2]),
               Write(SI5351A, [0xb1, 0xac])];
    OnWrites(writes, multiplier, divider);
  }

  lemma OffWrites(writes: seq<Write>)
    requires writes == [Write(SI5351A, [3, 0xff]), Write(TFP410, [8, 0])]
    ensures SwitchesOff(writes)
  {
    forall device: int, reg: int, before: byte
      ensures Final(writes, device, reg, before) == Stored(writes[1], device, reg, Stored(writes[0], device, reg, before))
    {
      hide Stored;
      assert writes[0..] == writes && writes[2..] == [];
      FinalFrom(writes, 0, device, reg, before);
      FinalFrom(writes, 1, device, reg, Stored(writes[0], device, reg, before));
    }
  }

  /** Ten writes, the third and fourth of them with the registers of multiplier and divider. */
  lemma OnWrites(writes: seq<Write>, multiplier: seq<byte>, divider: seq<byte>)
    requires |multiplier| == |divider| == 9 && multiplier[0] == 0x1a && divider[0] == 0x2a
    requires writes == [Write(TFP410, [8, 3]),
                        Write(SI5351A, [0x10, 0x4c, 0x8c, 0x8c, 0x8c, 0x8c, 0x8c, 0x8c, 0x8c]),
                        Write(SI5351A, multiplier), Write(SI5351A, divider),
                        Write(SI5351A, [0x5a, 0, 0]), Write(SI5351A, [0x95, 0, 0, 0, 0, 0, 0, 0]), Write(SI5351A, [0xa2, 0, 0, 0]),
                        Write(SI5351A, [0x03, 0x00]), Write(SI5351A, [0xb7, 0xd2]), Write(SI5351A, [0xb1, 0xac])]
    ensures Programs(writes, multiplier, divider)
  {
    forall reg: int, before: byte
      ensures Final(writes, 0x60, reg, before) == ClockRegister(reg, before, multiplier, divider)
      ensures Final(writes, 0x38, reg, before) == if reg == 8 then 3 else before
    {
      TenWrites(writes, 0x60, reg, before);
      TenWrites(writes, 0x38, reg, before);
    }
  }

  lemma TenWrites(writes: seq<Write>, device: int, reg: int, before: byte)
    requires |writes| == 10
    ensures var half := Stored(writes[4], device, reg, Stored(writes[3], device, reg, Stored(writes[2], device, reg,
                        Stored(writes[1], device, reg, Stored(writes[0], device, reg, before)))));
            Final(writes, device, reg, before) ==
            Stored(writes[9], device, reg, Stored(writes[8], device, reg, Stored(writes[7], device, reg,
            Stored(writes[6], device, reg, Stored(writes[5], device, reg, half)))))
  {
    hide Stored;
    var xs := OneAfterTheOther(writes, device, reg, before);
    assert xs[1] == Stored(writes[0], device, reg, xs[0]);
    assert xs[2] == Stored(writes[1], device, reg, xs[1]);
    assert xs[3] == Stored(writes[2], device, reg, xs[2]);
    assert xs[4] == Stored(writes[3], device, reg, xs[3]);
    assert xs[5] == Stored(writes[4], device, reg, xs[4]);
    assert xs[6] == Stored(writes[5], device, reg, xs[5]);
    assert xs[7] == Stored(writes[6], device, reg, xs[6]);
    assert xs[8] == Stored(writes[7], device, reg, xs[7]);
    assert xs[9] == Stored(writes[8], device, reg, xs[8]);
    assert xs[10] == Stored(writes[9], device, reg, xs[9]);
  }

  lemma OneAfterTheOther(writes: seq<Write>, device: int, reg: int, before: byte) returns (xs: seq<byte>)
    requires |writes| == 10
    ensures |xs| == 11 && xs[0] == before && xs[10] == Final(writes, device, reg, before)
    ensures forall i :: 0 <= i < 10 ==> xs[i + 1] == Stored(writes[i], device, reg, xs[i])
  {
    hide Stored;
    xs := [before];
    assert writes[0..] == writes && writes[10..] == [];
    for i := 0 to 10
      invariant |xs| == i + 1 && xs[0] == before && Final(writes[i..], device, reg, xs[i]) == Final(writes, device, reg, before)
      invariant forall j :: 0 <= j < i ==> xs[j + 1] == Stored(writes[j], device, reg, xs[j])
    {
      FinalFrom(writes, i, device, reg, xs[i]);
      xs := xs + [Stored(writes[i], device, reg, xs[i])];
    }
  }

  lemma RegisterNumbers(p1: int, p2: int, p3: int, div: int)
    ensures |MultiplierBytes(p1, p2, p3)| == |DividerBytes(div)| == 9
    ensures MultiplierBytes(p1, p2, p3)[0] == 0x1a && DividerBytes(div)[0] == 0x2a
  {
  }
}
