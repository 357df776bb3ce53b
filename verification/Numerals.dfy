/** Numerals as the BIOS prints and parses them (software/bios/util.c:19-67). */
module Numerals {
  import opened Arithmetic
  import opened MachineTypes

  type Base = b: int | 2 <= b <= 16 witness 10

  function DigitChar(d: int): char
    requires 0 <= d < 16
  {
    "0123456789ABCDEF"[d]
  }

  /** The value of a character in parse_uint, or -1.  Decimal digits are taken in every base. */
  function DigitValue(c: char, base: int): int {
    if '0' <= c <= '9' then c as int - '0' as int
    else if base == 16 && 'a' <= c <= 'f' then c as int - 'a' as int + 10
    else if base == 16 && 'A' <= c <= 'F' then c as int - 'A' as int + 10
    else -1
  }

  /** Letters are digits of base 16 only, large or small. */
  lemma LettersAreDigits(d: int, base: int)
    requires 10 <= d < 16
    ensures DigitValue(DigitChar(d), 16) == DigitValue("abcdef"[d - 10], 16) == d
    ensures base != 16 ==> DigitValue(DigitChar(d), base) == DigitValue("abcdef"[d - 10], base) == -1
  {
  }

  predicate IsDigit(c: char, base: int) {
    DigitValue(c, base) >= 0
  }

  lemma DigitRoundTrip(d: int, base: Base)
    requires 0 <= d < base && (base <= 10 || base == 16)
    ensures DigitValue(DigitChar(d), base) == d
  {
  }

  // ---------------------------------------------------------------- digits of a number

  /** v divided k times by the base. */
  function Quot(v: nat, base: Base, k: nat): nat {
    if k == 0 then v else Quot(v, base, k - 1) / base
  }

  function DigitAt(v: nat, base: Base, k: nat): (d: nat)
    ensures d < base
  {
    Quot(v, base, k) % base
  }

  /** The last k digits of v, the highest first. */
  function Digits(v: nat, base: Base, k: nat): (s: string)
    ensures |s| == k
  {
    if k == 0 then "" else [DigitChar(DigitAt(v, base, k - 1))] + Digits(v, base, k - 1)
  }

  /** The length of the numeral: the number of digits without leading zeros, at least one. */
  function Length(v: nat, base: Base): (n: nat)
    ensures n >= 1
    decreases v
  {
    if v < base then 1 else 1 + Length(v / base, base)
  }

  lemma {:induction false} QuotOfQuot(v: nat, base: Base, k: nat)
    ensures Quot(v / base, base, k) == Quot(v, base, k + 1)
  {
    if k > 0 {
      QuotOfQuot(v, base, k - 1);
    }
  }

  lemma DivBase(v: nat, base: Base)
    ensures v < base ==> v / base == 0
    ensures v >= base ==> v / base >= 1
    ensures 2 * (v / base) <= v
  {
    var q, r := v / base, v % base;
    assert v == q * base + r;
    if v < base && q >= 1 {
      MulAtLeast(q, base);
    } else if q >= 1 {
      assert q * base - q * 2 == q * (base - 2);
    }
  }

  lemma QuotSmall(v: nat, base: Base, k: nat)
    requires v < base && k >= 1
    ensures Quot(v, base, k) == 0
    decreases k
  {
    DivBase(v, base);
    if k == 1 {
      assert Quot(v, base, 1) == Quot(v, base, 0) / base;
    } else {
      QuotSmall(v, base, k - 1);
    }
  }

  lemma {:induction false} QuotAtLength(v: nat, base: Base, k: nat)
    ensures Quot(v, base, k) == 0 <==> (v == 0 || k >= Length(v, base))
    decreases v, k
  {
    if v < base {
      if k > 0 {
        QuotSmall(v, base, k);
      }
    } else if k > 0 {
      hide Quot;
      DivBase(v, base);
      QuotOfQuot(v, base, k - 1);
      QuotAtLength(v / base, base, k - 1);
    }
  }

  lemma QuotStep(m: nat, base: Base, n: nat)
    ensures Quot(m, base, n + 1) == Quot(m, base, n) / base
    ensures DigitAt(m, base, n) == Quot(m, base, n) % base
  {
  }

  lemma TopDigit(m: nat, base: Base, n: nat)
    requires n >= Length(m, base) && n > 1
    ensures DigitAt(m, base, n - 1) == 0 <==> n > Length(m, base)
  {
    hide Quot;
    QuotAtLength(m, base, n - 1);
    QuotAtLength(m, base, n);
    QuotStep(m, base, n - 1);
  }

  // ---------------------------------------------------------------- parsing

  /** parse_uint: the number and what is left of the string. */
  function ParseUint(s: string, acc: uint32, base: Base): (uint32, string)
    decreases |s|
  {
    if s == "" || !IsDigit(s[0], base) then (acc, s)
    else ParseUint(s[1..], U32(acc * base + DigitValue(s[0], base)), base)
  }

  predicate NoDigit(s: string, base: int) {
    s == "" || !IsDigit(s[0], base)
  }

  lemma Recompose(q: nat, base: Base)
    ensures q / base * base + q % base == q && q / base <= q
  {
    DivBase(q, base);
  }

  /** One more digit: what has been read so far is the quotient before it. */
  lemma ParseDigit(q: uint32, base: Base, s: string)
    requires base <= 10 || base == 16
    requires s != "" && s[0] == DigitChar(q % base)
    ensures q / base < 0x1_0000_0000
    ensures ParseUint(s, q / base, base) == ParseUint(s[1..], q, base)
  {
    hide DigitChar, DigitValue;
    Recompose(q, base);
    DigitRoundTrip(q % base, base);
  }

  lemma {:induction false} QuotShrinks(v: uint32, base: Base, k: nat)
    ensures Quot(v, base, k) <= v
    decreases k
  {
    if k > 0 {
      QuotShrinks(v, base, k - 1);
      DivBase(Quot(v, base, k - 1), base);
    }
  }

  /** Reading the last k digits of v after all the others gives v. */
  lemma {:induction false} ParseDigits(v: uint32, base: Base, k: nat, rest: string)
    requires NoDigit(rest, base) && (base <= 10 || base == 16)
    ensures Quot(v, base, k) < 0x1_0000_0000
    ensures ParseUint(Digits(v, base, k) + rest, Quot(v, base, k), base) == (v, rest)
    decreases k
  {
    hide DigitChar, IsDigit;
    QuotShrinks(v, base, k);
    if k == 0 {
      assert Digits(v, base, k) + rest == rest;
    } else {
      hide ParseUint;
      ParseDigits(v, base, k - 1, rest);
      var s := Digits(v, base, k) + rest;
      assert s[1..] == Digits(v, base, k - 1) + rest;
      ParseDigit(Quot(v, base, k - 1), base, s);
    }
  }

  /** A numeral, with any number of leading zeros, is read back as the number. */
  lemma ParseNumeral(v: uint32, base: Base, k: nat, rest: string)
    requires NoDigit(rest, base) && (base <= 10 || base == 16) && k >= Length(v, base)
    ensures ParseUint(Digits(v, base, k) + rest, 0, base) == (v, rest)
  {
    hide Digits, ParseUint;
    QuotAtLength(v, base, k);
    ParseDigits(v, base, k, rest);
  }

  // ---------------------------------------------------------------- printing

  function Spaces(n: int): (s: string)
    ensures |s| == if n > 0 then n else 0
  {
    seq(if n > 0 then n else 0, _ => ' ')
  }

  predicate IsNegative(v: uint32, sign: bool) {
    sign && v >= 0x8000_0000
  }

  function Magnitude(v: uint32, sign: bool): uint32 {
    if IsNegative(v, sign) then 0x1_0000_0000 - v else v
  }

  /** The place for digits and blanks: one less for a minus sign. */
  function DigitWidth(v: uint32, width: int, zeros: bool, sign: bool): int {
    var w := if zeros && width > 32 then 32 else width;
    if !IsNegative(v, sign) then w else if w > 0 then w - 1 else if w < 0 then w + 1 else 0
  }

  /** A number in its field: blanks before it, or zeros, or (for a negative width) blanks after it. */
  function Field(v: uint32, base: Base, width: int, zeros: bool, sign: bool): string {
    var m := Magnitude(v, sign);
    var n := Length(m, base);
    var w := DigitWidth(v, width, zeros, sign);
    (if zeros then "" else Spaces(w - n))
    + (if IsNegative(v, sign) then "-" else "")
    + Digits(m, base, if zeros then Max(n, w) else n)
    + Spaces(-w - n)
  }

  /** The length of a field is its width, or that of the numeral with its sign if this is more. */
  lemma FieldLength(v: uint32, base: Base, width: int, zeros: bool, sign: bool)
    requires -32 <= width <= 32
    ensures |Field(v, base, width, zeros, sign)| ==
            Max(if width >= 0 then width else -width,
                Length(Magnitude(v, sign), base) + if IsNegative(v, sign) then 1 else 0)
  {
  }

  lemma PowerOf32()
    ensures Power(32) == 0x1_0000_0000
  {
    assert Power(8) == 256;
    assert Power(16) == 65536;
    assert Power(24) == 16777216;
  }

  lemma {:induction false} QuotHalves(v: uint32, base: Base, k: nat)
    requires k <= 32
    ensures Quot(v, base, k) < Power(32 - k)
    decreases k
  {
    if k == 0 {
      PowerOf32();
    } else {
      QuotHalves(v, base, k - 1);
      DivBase(Quot(v, base, k - 1), base);
    }
  }

  /** No 32-bit number has more than 32 digits. */
  lemma LengthBound(v: uint32, base: Base)
    ensures Length(v, base) <= 32
  {
    hide Quot;
    QuotHalves(v, base, 32);
    QuotAtLength(v, base, 32);
  }
}
