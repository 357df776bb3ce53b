/** print_number, parse_uint and parse_int with their buffers and loops (software/bios/util.c:19-67). */
module NumberPrinter {
  import opened MachineTypes
  import opened Arithmetic
  import opened Numerals

  /** What is left of a positive width after n digits. */
  function WidthLeft(w: int, n: nat): int {
    if w <= 0 then w else Max(w - n, 0)
  }

  lemma Unfinished(m: uint32, base: Base, w: int, n: nat)
    requires w <= 32 && (Quot(m, base, n) > 0 || WidthLeft(w, n) > 0 || n == 0)
    ensures n < 32 && n < Max(Length(m, base), w)
  {
    hide Quot, Length;
    QuotAtLength(m, base, n);
    LengthBound(m, base);
  }

  lemma Finished(m: uint32, base: Base, w: int, n: nat)
    requires Quot(m, base, n) == 0 && WidthLeft(w, n) <= 0 && n >= 1
    ensures n >= Length(m, base) && n >= w
  {
    hide Quot;
    QuotAtLength(m, base, n);
  }

  method FillDigits(buf: array<int>, m: uint32, base: Base, w: int) returns (n: nat, left: int)
    requires buf.Length == 32 && w <= 32
    modifies buf
    ensures n == Max(Length(m, base), w) && n <= 32 && left == WidthLeft(w, n)
    ensures forall j :: 0 <= j < n ==> buf[j] == DigitAt(m, base, j)
  {
    hide Length, WidthLeft, DigitAt;
    var v: nat := m;
    n, left := 0, w;
    WidthSteps(w, 0);
    while v > 0 || left > 0 || n == 0
      invariant n <= 32 && v == Quot(m, base, n) && left == WidthLeft(w, n)
      invariant n == 0 || n <= Max(Length(m, base), w)
      invariant forall j :: 0 <= j < n ==> buf[j] == DigitAt(m, base, j)
      decreases 32 - n
    {
      Unfinished(m, base, w, n);
      WidthSteps(w, n);
      QuotStep(m, base, n);
      buf[n] := v % base;
      v := v / base;
      n := n + 1;
      if left > 0 {
        left := left - 1;
      }
    }
    Finished(m, base, w, n);
  }

  lemma WidthSteps(w: int, n: nat)
    ensures WidthLeft(w, 0) == w
    ensures WidthLeft(w, n + 1) == if WidthLeft(w, n) > 0 then WidthLeft(w, n) - 1 else WidthLeft(w, n)
  {
  }

  lemma SpacesMore(n: int)
    requires n >= 0
    ensures Spaces(n) + " " == Spaces(n + 1)
  {
  }

  /** Leading zeros become blanks. */
  method SkipZeros(buf: array<int>, m: uint32, base: Base, n: nat) returns (k: nat, out: string)
    requires buf.Length == 32 && 1 <= n <= 32 && n >= Length(m, base)
    requires forall j :: 0 <= j < n ==> buf[j] == DigitAt(m, base, j)
    ensures k == Length(m, base) && out == Spaces(n - k)
  {
    hide Length, DigitAt, Spaces;
    k, out := n, "";
    SpacesNone();
    while buf[k - 1] == 0 && k > 1
      invariant Length(m, base) <= k <= n && out == Spaces(n - k)
    {
      TopDigit(m, base, k);
      SpacesMore(n - k);
      out := out + " ";
      k := k - 1;
    }
    if k > 1 {
      TopDigit(m, base, k);
    }
  }

  lemma SpacesNone()
    ensures Spaces(0) == ""
  {
  }

  lemma DigitsFrom(m: nat, base: Base, k: nat, out: string)
    requires k > 0
    ensures out + Digits(m, base, k) == out + [DigitChar(DigitAt(m, base, k - 1))] + Digits(m, base, k - 1)
  {
  }

  method PrintNumber(value: uint32, base: Base, width: int, zeros: bool, sign: bool) returns (out: string)
    requires zeros || width <= 32
    ensures out == Field(value, base, width, zeros, sign)
  {
    hide Length, DigitAt, Spaces, Digits, Field;
    var v, w := value, width;
    if zeros && w > 32 {
      w := 32;
    }
    var neg := sign && v >= 0x8000_0000;
    if neg {
      v := 0x1_0000_0000 - v;
      if w > 0 {
        w := w - 1;
      } else if w < 0 {
        w := w + 1;
      }
    }
    assert v == Magnitude(value, sign) && w == DigitWidth(value, width, zeros, sign);
    var buf := new int[32];
    var n, left := FillDigits(buf, v, base, w);
    out := "";
    var k := n;
    if !zeros {
      k, out := SkipZeros(buf, v, base, n);
    }
    if neg {
      out := out + "-";
    }
    var body := EmitDigits(buf, v, base, k);
    var after := TrailingBlanks(left + k);
    out := out + body + after;
    FieldParts(value, base, width, zeros, sign, n, k);
  }

  method EmitDigits(buf: array<int>, m: uint32, base: Base, k: nat) returns (out: string)
    requires buf.Length == 32 && k <= 32
    requires forall j :: 0 <= j < k ==> buf[j] == DigitAt(m, base, j)
    ensures out == Digits(m, base, k)
  {
    hide DigitAt, Digits, DigitChar;
    out := "";
    var i := k;
    while i != 0
      invariant 0 <= i <= k && out + Digits(m, base, i) == Digits(m, base, k)
    {
      DigitsFrom(m, base, i, out);
      i := i - 1;
      out := out + [DigitChar(buf[i])];
    }
    NoDigits(m, base, out);
  }

  lemma NoDigits(m: nat, base: Base, out: string)
    ensures out + Digits(m, base, 0) == out
  {
  }

  /** The blanks behind a field that is aligned to the left. */
  method TrailingBlanks(from: int) returns (out: string)
    ensures out == Spaces(-from)
  {
    hide Spaces;
    out := "";
    var w := from;
    SpacesNone();
    SpacesNegative(from);
    while w < 0
      invariant from <= w && (w <= 0 || w == from) && out == Spaces(if from < 0 then w - from else 0)
    {
      SpacesMore(w - from);
      out := out + " ";
      w := w + 1;
    }
  }

  lemma SpacesNegative(from: int)
    ensures from >= 0 ==> Spaces(-from) == ""
  {
  }

  lemma FieldParts(v: uint32, base: Base, width: int, zeros: bool, sign: bool, n: nat, k: nat)
    requires var m, w := Magnitude(v, sign), DigitWidth(v, width, zeros, sign);
             n == Max(Length(m, base), w) && k == if zeros then n else Length(m, base)
    ensures var m, w := Magnitude(v, sign), DigitWidth(v, width, zeros, sign);
            Field(v, base, width, zeros, sign)
            == (if zeros then "" else Spaces(n - k)) + (if IsNegative(v, sign) then "-" else "")
               + Digits(m, base, k) + Spaces(-(WidthLeft(w, n) + k))
  {
    hide Length, DigitAt, Digits;
  }

  // ---------------------------------------------------------------- parse_uint and parse_int

  /** The characters consumed are the digits at the front; `rest` is where *str points afterwards. */
  method ParseUnsigned(s: string, base: Base) returns (res: uint32, rest: string)
    ensures (res, rest) == ParseUint(s, 0, base)
    ensures |rest| <= |s|
  {
    res, rest := 0, s;
    while rest != "" && IsDigit(rest[0], base)
      invariant |rest| <= |s| && ParseUint(rest, res, base) == ParseUint(s, 0, base)
      decreases |rest|
    {
      res := U32(res * base + DigitValue(rest[0], base));
      rest := rest[1..];
    }
  }
}
