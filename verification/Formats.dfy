/** printf_impl and sscanf_impl (software/bios/util.c:88-197): what they do, and that one undoes the other. */
module Formats {
  import opened MachineTypes
  import opened Arithmetic
  import opened Numerals

  /** The words behind the argument pointer, and the strings that words point to. */
  type Arguments = nat -> uint32
  type Memory = uint32 -> string

  function AsInt(v: uint32): int {
    if v >= 0x8000_0000 then v - 0x1_0000_0000 else v
  }

  /** The signed number that a word stands for. */
  lemma AsIntIsSigned(v: int)
    requires -0x8000_0000 <= v < 0x8000_0000
    ensures AsInt(U32(v)) == v && Negated(U32(v)) == U32(-v)
  {
    if v < 0 {
      DivUnique(v, 0x1_0000_0000, -1, v + 0x1_0000_0000);
    } else if v > 0 {
      DivUnique(-v, 0x1_0000_0000, -1, 0x1_0000_0000 - v);
    }
  }

  function Negated(v: uint32): uint32 {
    if v == 0 then 0 else 0x1_0000_0000 - v
  }

  /** parse_int */
  function ParseInt(s: string, base: Base): (int, string) {
    if s != "" && s[0] == '-' then
      var (v, rest) := ParseUint(s[1..], 0, base);
      (AsInt(Negated(v)), rest)
    else
      var (v, rest) := ParseUint(s, 0, base);
      (AsInt(v), rest)
  }

  lemma {:induction false} ParseUintShrinks(s: string, acc: uint32, base: Base)
    ensures |ParseUint(s, acc, base).1| <= |s|
    decreases |s|
  {
    hide IsDigit, DigitValue;
    if s != "" && IsDigit(s[0], base) {
      ParseUintShrinks(s[1..], U32(acc * base + DigitValue(s[0], base)), base);
    }
  }

  lemma ParseIntShrinks(s: string, base: Base)
    ensures |ParseInt(s, base).1| <= |s|
  {
    hide ParseUint;
    if s != "" && s[0] == '-' {
      ParseUintShrinks(s[1..], 0, base);
    } else {
      ParseUintShrinks(s, 0, base);
    }
  }

  // ---------------------------------------------------------------- printf

  /** One conversion after its width: the letter (0 at the end of the format) and the rest of the format. */
  function Letter(s: string): (char, string) {
    if s == "" then ('\0', "")
    else if s[0] != 'l' then (s[0], s[1..])
    else if s[1..] == "" then ('\0', "")
    else (s[1], s[2..])
  }

  function StringField(text: string, width: int): string {
    Spaces(width - |text|) + text + Spaces(-width - |text|)
  }

  function Converted(f: char, a: uint32, width: int, zeros: bool, memory: Memory): string {
    if f == 'B' then Field(a, 2, width, zeros, false)
    else if f == 'p' || f == 'x' || f == 'X' then Field(a, 16, width, zeros, false)
    else if f == 'o' then Field(a, 8, width, zeros, false)
    else if f == 'c' then [(a % 256) as char]
    else if f == 'd' || f == 'i' then Field(a, 10, width, zeros, true)
    else if f == 'u' then Field(a, 10, width, zeros, false)
    else if f == 's' then StringField(memory(a), width)
    else "%" + [f]
  }

  function Printf(fmt: string, args: Arguments, i: nat, memory: Memory): string
    decreases |fmt|
  {
    if fmt == "" then ""
    else if fmt[0] == '\t' then "    " + Printf(fmt[1..], args, i, memory)
    else if fmt[0] != '%' then [fmt[0]] + Printf(fmt[1..], args, i, memory)
    else if |fmt| > 1 && fmt[1] == '%' then "%" + Printf(fmt[2..], args, i, memory)
    else
      var zeros := |fmt| > 1 && fmt[1] == '0';
      var (width, s) := ParseInt(fmt[1..], 10);
      var (f, rest) := Letter(s);
      ParseIntShrinks(fmt[1..], 10);
      if f == '\0' then "" else Converted(f, args(i), width, zeros, memory) + Printf(rest, args, i + 1, memory)
  }

  // ---------------------------------------------------------------- scanf

  datatype Stored = Number(v: uint32) | Text(s: string)

  function SkipBlanks(s: string): (r: string)
    ensures |r| <= |s|
  {
    if s != "" && (s[0] == ' ' || s[0] == '\t') then SkipBlanks(s[1..]) else s
  }

  /** The characters up to the next blank, at most `width` of them. */
  function Word(s: string, width: nat): (r: (string, string))
    ensures |r.1| <= |s|
  {
    if s != "" && s[0] != ' ' && s[0] != '\t' && width > 0 then
      var (w, rest) := Word(s[1..], width - 1);
      ([s[0]] + w, rest)
    else ("", s)
  }

  /** Base, sign and the digits that are to be read. */
  function Prefix(f: char, s: string): (Base, bool, string) {
    if f == 'o' then (8, false, s)
    else if f == 'i' && s != "" && s[0] == '0' then
      if |s| > 1 && s[1] == 'x' then (16, false, s[2..]) else (8, false, s)
    else if f == 'i' || f == 'd' then
      if s != "" && s[0] == '-' then (10, true, s[1..]) else (10, false, s)
    else if f == 'u' then (10, false, s)
    else (16, false, s)
  }

  function ScanNumber(f: char, s: string): (uint32, string) {
    var (base, neg, digits) := Prefix(f, s);
    var (v, rest) := ParseUint(digits, 0, base);
    (if neg then Negated(v) else v, rest)
  }

  /** The width of a scan conversion, if it has one, and what follows it. */
  function ScanWidth(fmt: string): (uint32, string) {
    if fmt != "" && '0' <= fmt[0] <= '9' then ParseUint(fmt, 0, 10) else (0xffff_ffff, fmt)
  }

  lemma ScanWidthShrinks(fmt: string)
    ensures |ScanWidth(fmt).1| <= |fmt|
  {
    hide ParseUint;
    if fmt != "" {
      ParseUintShrinks(fmt, 0, 10);
    }
  }

  /** A format that ends inside a conversion makes the program read on behind it; here the scan stops. */
  function Scanf(str: string, fmt: string): seq<Stored>
    decreases |fmt|
  {
    if fmt == "" || str == "" then []
    else if fmt[0] != '%' then
      if fmt[0] != str[0] then [] else Scanf(str[1..], fmt[1..])
    else
      var (width, s) := ScanWidth(fmt[1..]);
      ScanWidthShrinks(fmt[1..]);
      if s == "" then []
      else if s[0] == '%' then
        if str[0] != '%' then [] else Scanf(str[1..], s[1..])
      else
        var input := SkipBlanks(str);
        if s[0] == 's' then
          var (w, rest) := Word(input, width);
          [Text(w)] + Scanf(rest, s[1..])
        else
          var (f, more) := Letter(s);
          if f == '\0' then []
          else
            var (v, rest) := ScanNumber(f, input);
            [Number(v)] + Scanf(rest, more)
  }

  // ---------------------------------------------------------------- the round trip

  /** Conversions that both functions know: %u %d %x %X %p %o with a width from 0 to 32, blanks or zeros in front. */
  datatype Spec = Spec(letter: char, width: nat, zeros: bool)

  predicate IsLetter(c: char) {
    c == 'u' || c == 'd' || c == 'x' || c == 'X' || c == 'p' || c == 'o'
  }

  predicate IsSpec(p: Spec) {
    IsLetter(p.letter) && p.width <= 32
  }

  function BaseOf(c: char): Base {
    if c == 'o' then 8 else if c == 'u' || c == 'd' then 10 else 16
  }

  function WidthText(p: Spec): string {
    (if p.zeros then "0" else "") + (if p.width > 0 then Digits(p.width, 10, Length(p.width, 10)) else "")
  }

  /** The format: all conversions with one space between two of them. */
  function FormatOf(specs: seq<Spec>): string
    decreases |specs|
  {
    if specs == [] then ""
    else "%" + WidthText(specs[0]) + [specs[0].letter] + (if |specs| == 1 then "" else " " + FormatOf(specs[1..]))
  }

  function FieldOf(p: Spec, v: uint32): string {
    Field(v, BaseOf(p.letter), p.width, p.zeros, p.letter == 'd')
  }

  /** The fields with one space between two of them. */
  function TextOf(specs: seq<Spec>, args: Arguments, i: nat): string
    decreases |specs|
  {
    if specs == [] then ""
    else FieldOf(specs[0], args(i)) + (if |specs| == 1 then "" else " " + TextOf(specs[1..], args, i + 1))
  }

  lemma WidthDigits(w: nat)
    requires 0 < w <= 32
    ensures Digits(w, 10, Length(w, 10)) != ""
    ensures var c := Digits(w, 10, Length(w, 10))[0]; '1' <= c <= '9'
    ensures "0" + Digits(w, 10, Length(w, 10)) == Digits(w, 10, Length(w, 10) + 1)
  {
    var n := Length(w, 10);
    TopDigit(w, 10, n + 1);
    if n > 1 {
      TopDigit(w, 10, n);
    } else {
      assert DigitAt(w, 10, 0) == w;
    }
  }

  /** The width in a format: parsed as it was meant, with the letter after it. */
  lemma WidthParsed(p: Spec, tail: string)
    requires IsSpec(p) && tail != "" && tail[0] == p.letter
    ensures ParseUint(WidthText(p) + tail, 0, 10) == (p.width, tail)
    ensures var c := (WidthText(p) + tail)[0]; (c == '0' <==> p.zeros) && c != '-' && c != '%'
  {
    hide ParseUint, Digits, Length;
    var n := Length(p.width, 10);
    if p.width > 0 {
      WidthDigits(p.width);
      ParseNumeral(p.width, 10, n, tail);
      ParseNumeral(p.width, 10, n + 1, tail);
      assert WidthText(p) == if p.zeros then Digits(p.width, 10, n + 1) else Digits(p.width, 10, n);
    } else if p.zeros {
      ZeroText();
      assert WidthText(p) == "0";
      ParseNumeral(0, 10, 1, tail);
    } else {
      LetterAlone(tail);
      assert WidthText(p) + tail == tail;
    }
  }

  lemma ZeroText()
    ensures Digits(0, 10, 1) == "0" && Length(0, 10) == 1
  {
    assert Digits(0, 10, 0) == "";
  }

  lemma LetterAlone(tail: string)
    requires tail != "" && IsLetter(tail[0])
    ensures ParseUint(tail, 0, 10) == (0, tail)
  {
  }

  function Conversion(p: Spec): string {
    "%" + WidthText(p) + [p.letter]
  }

  lemma ConversionParts(p: Spec, rest: string)
    ensures Conversion(p) + rest == "%" + (WidthText(p) + ([p.letter] + rest))
    ensures (Conversion(p) + rest)[0] == '%'
    ensures (Conversion(p) + rest)[1..] == WidthText(p) + ([p.letter] + rest)
  {
  }

  lemma PrintfField(p: Spec, rest: string, args: Arguments, i: nat, memory: Memory)
    requires IsSpec(p)
    ensures Printf(Conversion(p) + rest, args, i, memory) == FieldOf(p, args(i)) + Printf(rest, args, i + 1, memory)
  {
    hide ParseUint, Digits, Length, Field, Conversion, WidthText;
    var tail := [p.letter] + rest;
    ConversionParts(p, rest);
    WidthParsed(p, tail);
    var fmt := Conversion(p) + rest;
    assert ParseInt(fmt[1..], 10) == (p.width, tail);
    assert fmt[1] == (WidthText(p) + tail)[0];
    assert tail[1..] == rest;
  }

  lemma {:induction false} SkipSpaces(n: int, t: string)
    requires t != "" && t[0] != ' ' && t[0] != '\t'
    ensures SkipBlanks(Spaces(n) + t) == t
    decreases n
  {
    if n > 0 {
      SkipSpaces(n - 1, t);
      assert (Spaces(n) + t)[1..] == Spaces(n - 1) + t;
    } else {
      assert Spaces(n) + t == t;
    }
  }

  lemma DigitsHead(v: uint32, base: Base, k: nat)
    requires k >= 1
    ensures Digits(v, base, k) != "" && Digits(v, base, k)[0] == DigitChar(DigitAt(v, base, k - 1))
  {
  }

  lemma NotBlank(d: int)
    requires 0 <= d < 16
    ensures var c := DigitChar(d); c != ' ' && c != '\t' && c != '-'
  {
  }

  /** A field is blanks, perhaps a minus sign, and enough digits. */
  lemma FieldShape(p: Spec, v: uint32) returns (blanks: int, k: nat)
    requires IsSpec(p)
    ensures var sign := p.letter == 'd';
            var m := Magnitude(v, sign);
            k >= Length(m, BaseOf(p.letter)) && FieldOf(p, v) ==
            Spaces(blanks) + ((if IsNegative(v, sign) then "-" else "") + Digits(m, BaseOf(p.letter), k))
  {
    hide Length, Digits;
    var sign := p.letter == 'd';
    var m, base := Magnitude(v, sign), BaseOf(p.letter);
    var n, w := Length(m, base), DigitWidth(v, p.width, p.zeros, sign);
    k := if p.zeros then Max(n, w) else n;
    blanks := if p.zeros then 0 else w - n;
    assert Spaces(-w - n) == "";
  }

  lemma ScanNumeral(p: Spec, v: uint32, k: nat, more: string)
    requires IsSpec(p) && NoDigit(more, 16)
    requires k >= Length(Magnitude(v, p.letter == 'd'), BaseOf(p.letter))
    ensures var sign := p.letter == 'd';
            var t := (if IsNegative(v, sign) then "-" else "") + Digits(Magnitude(v, sign), BaseOf(p.letter), k) + more;
            t != "" && t[0] != ' ' && t[0] != '\t' && ScanNumber(p.letter, t) == (v, more)
  {
    hide Length, Digits, ParseUint, DigitChar, DigitAt;
    var sign := p.letter == 'd';
    var m, base := Magnitude(v, sign), BaseOf(p.letter);
    ParseNumeral(m, base, k, more);
    DigitsHead(m, base, k);
    NotBlank(DigitAt(m, base, k - 1));
    var d := Digits(m, base, k);
    if IsNegative(v, sign) {
      var t := "-" + d + more;
      assert t[1..] == d + more;
      assert Negated(m) == v;
    } else {
      assert "" + d + more == d + more;
    }
  }

  lemma ScanfField(p: Spec, v: uint32, more: string, rest: string)
    requires IsSpec(p) && NoDigit(more, 16)
    ensures Scanf(FieldOf(p, v) + more, Conversion(p) + rest) == [Number(v)] + Scanf(more, rest)
  {
    hide ParseUint, Digits, Length, Conversion, WidthText, FieldOf, ScanNumber, Spaces, Magnitude, SkipBlanks;
    var tail := [p.letter] + rest;
    ConversionParts(p, rest);
    WidthParsed(p, tail);
    var fmt := Conversion(p) + rest;
    WidthScanned(p, tail);
    var blanks, k := FieldShape(p, v);
    ScanNumeral(p, v, k, more);
    var sign := p.letter == 'd';
    var t := (if IsNegative(v, sign) then "-" else "") + Digits(Magnitude(v, sign), BaseOf(p.letter), k) + more;
    SkipSpaces(blanks, t);
    assert FieldOf(p, v) + more == Spaces(blanks) + t;
    assert tail[1..] == rest;
    assert Letter(tail) == (p.letter, rest);
  }

  lemma WidthScanned(p: Spec, tail: string)
    requires IsSpec(p) && tail != "" && tail[0] == p.letter
    ensures ScanWidth(WidthText(p) + tail).1 == tail
  {
    hide ParseUint, Digits, Length;
    WidthParsed(p, tail);
    if p.width > 0 {
      WidthDigits(p.width);
    } else if !p.zeros {
      assert WidthText(p) + tail == tail;
    }
  }

  lemma FormatParts(specs: seq<Spec>)
    requires specs != []
    ensures FormatOf(specs) == Conversion(specs[0]) + (if |specs| == 1 then "" else " " + FormatOf(specs[1..]))
  {
  }

  /** printf writes the fields of the values, separated as the format separates them. */
  lemma {:induction false} PrintfFields(specs: seq<Spec>, args: Arguments, i: nat, memory: Memory)
    requires forall p :: p in specs ==> IsSpec(p)
    ensures Printf(FormatOf(specs), args, i, memory) == TextOf(specs, args, i)
    decreases |specs|
  {
    if specs != [] {
      hide Conversion, FieldOf, FormatOf, IsSpec;
      FormatParts(specs);
      var rest := if |specs| == 1 then "" else " " + FormatOf(specs[1..]);
      PrintfField(specs[0], rest, args, i, memory);
      if |specs| > 1 {
        PrintfFields(specs[1..], args, i + 1, memory);
        assert rest[1..] == FormatOf(specs[1..]);
      }
    }
  }

  function Numbers(n: nat, args: Arguments, i: nat): seq<Stored> {
    seq(n, k requires 0 <= k < n => Number(args(i + k)))
  }

  lemma NumbersNext(n: nat, args: Arguments, i: nat)
    requires n > 0
    ensures Numbers(n, args, i) == [Number(args(i))] + Numbers(n - 1, args, i + 1)
    ensures Numbers(0, args, i + 1) == []
  {
  }

  lemma ScanfSpace(more: string, rest: string)
    ensures Scanf(" " + more, " " + rest) == Scanf(more, rest)
  {
    assert (" " + more)[1..] == more && (" " + rest)[1..] == rest;
  }

  lemma {:induction false} ScanfFields(specs: seq<Spec>, args: Arguments, i: nat)
    requires forall p :: p in specs ==> IsSpec(p)
    ensures Scanf(TextOf(specs, args, i), FormatOf(specs)) == Numbers(|specs|, args, i)
    decreases |specs|
  {
    if specs != [] {
      hide Conversion, FieldOf, FormatOf, IsSpec, Numbers;
      FormatParts(specs);
      NumbersNext(|specs|, args, i);
      var rest := if |specs| == 1 then "" else " " + FormatOf(specs[1..]);
      var more := if |specs| == 1 then "" else " " + TextOf(specs[1..], args, i + 1);
      ScanfField(specs[0], args(i), more, rest);
      if |specs| > 1 {
        ScanfFields(specs[1..], args, i + 1);
        ScanfSpace(TextOf(specs[1..], args, i + 1), FormatOf(specs[1..]));
      }
      hide Scanf, TextOf;
    }
  }

  /** Scanning what printf has written with the same format gives back every value. */
  lemma ScanfUndoesPrintf(specs: seq<Spec>, args: Arguments, memory: Memory)
    requires forall p :: p in specs ==> IsSpec(p)
    ensures Scanf(Printf(FormatOf(specs), args, 0, memory), FormatOf(specs)) == Numbers(|specs|, args, 0)
  {
    hide Printf, Scanf, FormatOf, TextOf;
    PrintfFields(specs, args, 0, memory);
    ScanfFields(specs, args, 0);
  }
}
