/** The loops of printf_impl and sscanf_impl (software/bios/util.c:62-67, 88-197). */
module FormattedIo {
  import opened MachineTypes
  import opened Numerals
  import opened NumberPrinter
  import opened Formats

  method ParseSigned(s: string, base: Base) returns (v: int, rest: string)
    ensures (v, rest) == ParseInt(s, base) && |rest| <= |s|
  {
    hide ParseUint;
    var neg := s != "" && s[0] == '-';
    var res: uint32;
    res, rest := ParseUnsigned(if neg then s[1..] else s, base);
    v := AsInt(if neg then Negated(res) else res);
  }

  /** The digit buffer of print_number has 32 places: no wider field without leading zeros. */
  predicate WidthsFit(fmt: string)
    decreases |fmt|
  {
    if fmt == "" then true
    else if fmt[0] != '%' then WidthsFit(fmt[1..])
    else if |fmt| > 1 && fmt[1] == '%' then WidthsFit(fmt[2..])
    else
      var zeros := |fmt| > 1 && fmt[1] == '0';
      var (width, s) := ParseInt(fmt[1..], 10);
      var (f, rest) := Letter(s);
      ParseIntShrinks(fmt[1..], 10);
      (zeros || width <= 32) && (f != '\0' ==> WidthsFit(rest))
  }

  method PrintString(text: string, width: int) returns (out: string)
    ensures out == StringField(text, width)
  {
    hide Spaces;
    var before := TrailingBlanks(|text| - width);
    var after := TrailingBlanks(|text| + width);
    out := before + text + after;
  }

  method Convert(f: char, a: uint32, width: int, zeros: bool, memory: Memory) returns (out: string)
    requires zeros || width <= 32
    ensures out == Converted(f, a, width, zeros, memory)
  {
    hide Field, StringField;
    if f == 'B' {
      out := PrintNumber(a, 2, width, zeros, false);
    } else if f == 'p' || f == 'x' || f == 'X' {
      out := PrintNumber(a, 16, width, zeros, false);
    } else if f == 'o' {
      out := PrintNumber(a, 8, width, zeros, false);
    } else if f == 'c' {
      out := [(a % 256) as char];
    } else if f == 'd' || f == 'i' {
      out := PrintNumber(a, 10, width, zeros, true);
    } else if f == 'u' {
      out := PrintNumber(a, 10, width, zeros, false);
    } else if f == 's' {
      out := PrintString(memory(a), width);
    } else {
      out := "%" + [f];
    }
  }

  method NextLetter(s: string) returns (f: char, rest: string)
    ensures (f, rest) == Letter(s) && |rest| <= |s|
  {
    if s == "" {
      return '\0', "";
    }
    f, rest := s[0], s[1..];
    if f == 'l' {
      if rest == "" {
        return '\0', "";
      }
      f, rest := rest[0], rest[1..];
    }
  }

  /** What has been written, and what is still to come, make up the whole output. */
  ghost predicate PrintedSoFar(out: string, fmt: string, all: string, args: Arguments, i: nat, memory: Memory) {
    out + Printf(fmt, args, i, memory) == all
  }

  lemma PrintedMore(out: string, x: string, fmt: string, rest: string, all: string, args: Arguments, i: nat, j: nat, memory: Memory)
    requires PrintedSoFar(out, fmt, all, args, i, memory)
    requires Printf(fmt, args, i, memory) == x + Printf(rest, args, j, memory)
    ensures PrintedSoFar(out + x, rest, all, args, j, memory)
  {
    hide Printf;
    assert out + (x + Printf(rest, args, j, memory)) == (out + x) + Printf(rest, args, j, memory);
  }

  method PrintfImpl(format: string, args: Arguments, memory: Memory) returns (out: string)
    requires WidthsFit(format)
    ensures out == Printf(format, args, 0, memory)
  {
    hide PrintedSoFar, Letter, ParseInt, Converted;
    ghost var all := Printf(format, args, 0, memory);
    out := "";
    var fmt, i := format, 0;
    PrintedStart(format, args, memory);
    while fmt != ""
      invariant WidthsFit(fmt) && PrintedSoFar(out, fmt, all, args, i, memory)
      decreases |fmt|
    {
      var c := fmt[0];
      if c == '\t' {
        PrintedMore(out, "    ", fmt, fmt[1..], all, args, i, i, memory);
        out, fmt := out + "    ", fmt[1..];
        continue;
      }
      if c != '%' {
        PrintedMore(out, [c], fmt, fmt[1..], all, args, i, i, memory);
        out, fmt := out + [c], fmt[1..];
        continue;
      }
      if |fmt| > 1 && fmt[1] == '%' {
        PrintedMore(out, "%", fmt, fmt[2..], all, args, i, i, memory);
        out, fmt := out + "%", fmt[2..];
        continue;
      }
      var zeros := |fmt| > 1 && fmt[1] == '0';
      var width, s := ParseSigned(fmt[1..], 10);
      var f, rest := NextLetter(s);
      if f == '\0' {
        PrintedMore(out, "", fmt, "", all, args, i, i, memory);
        out, fmt := out + "", "";
        break;
      }
      var x := Convert(f, args(i), width, zeros, memory);
      PrintedMore(out, x, fmt, rest, all, args, i, i + 1, memory);
      out, fmt, i := out + x, rest, i + 1;
    }
    PrintedEnd(out, all, args, i, memory);
  }

  lemma PrintedStart(format: string, args: Arguments, memory: Memory)
    ensures PrintedSoFar("", format, Printf(format, args, 0, memory), args, 0, memory)
  {
    hide Printf;
  }

  lemma PrintedEnd(out: string, all: string, args: Arguments, i: nat, memory: Memory)
    requires PrintedSoFar(out, "", all, args, i, memory)
    ensures out == all
  {
    assert out + "" == out;
  }

  // ---------------------------------------------------------------- sscanf

  method SkipBlanksOf(s: string) returns (r: string)
    ensures r == SkipBlanks(s) && |r| <= |s|
  {
    r := s;
    while r != "" && (r[0] == ' ' || r[0] == '\t')
      invariant |r| <= |s| && SkipBlanks(r) == SkipBlanks(s)
      decreases |r|
    {
      r := r[1..];
    }
  }

  method CopyWord(s: string, width: nat) returns (w: string, rest: string)
    ensures (w, rest) == Word(s, width) && |rest| <= |s|
  {
    w, rest := "", s;
    var left := width;
    assert w + Word(rest, left).0 == Word(s, width).0;
    while rest != "" && rest[0] != ' ' && rest[0] != '\t' && left > 0
      invariant |rest| <= |s|
      invariant Word(s, width) == (w + Word(rest, left).0, Word(rest, left).1)
      decreases |rest|
    {
      assert w + Word(rest, left).0 == (w + [rest[0]]) + Word(rest[1..], left - 1).0;
      w, rest, left := w + [rest[0]], rest[1..], left - 1;
    }
    assert w + "" == w;
  }

  method ReadNumber(f: char, s: string) returns (v: uint32, rest: string)
    ensures (v, rest) == ScanNumber(f, s) && |rest| <= |s|
  {
    hide ParseUint;
    var str := s;
    var base: Base := 16;
    var neg := false;
    if f == 'o' {
      base := 8;
    } else if f == 'i' && str != "" && str[0] == '0' {
      if |str| > 1 && str[1] == 'x' {
        str := str[2..];
      } else {
        base := 8;
      }
    } else if f == 'i' || f == 'd' {
      if str != "" && str[0] == '-' {
        str := str[1..];
        neg := true;
      }
      base := 10;
    } else if f == 'u' {
      base := 10;
    }
    v, rest := ParseUnsigned(str, base);
    if neg {
      v := Negated(v);
    }
  }

  ghost predicate ScannedSoFar(stored: seq<Stored>, str: string, fmt: string, all: seq<Stored>) {
    stored + Scanf(str, fmt) == all
  }

  lemma ScannedMore(stored: seq<Stored>, x: seq<Stored>, str: string, fmt: string, str': string, fmt': string, all: seq<Stored>)
    requires ScannedSoFar(stored, str, fmt, all) && Scanf(str, fmt) == x + Scanf(str', fmt')
    ensures ScannedSoFar(stored + x, str', fmt', all)
  {
    hide Scanf;
    assert stored + (x + Scanf(str', fmt')) == (stored + x) + Scanf(str', fmt');
  }

  lemma ScannedEnd(stored: seq<Stored>, str: string, fmt: string, all: seq<Stored>)
    requires ScannedSoFar(stored, str, fmt, all) && Scanf(str, fmt) == []
    ensures stored == all
  {
    hide Scanf;
    assert stored + [] == stored;
  }

  /** One turn of the loop: what is stored, and whether the loop ends. */
  method ScanStep(str: string, fmt: string) returns (stop: bool, x: seq<Stored>, str': string, fmt': string)
    requires fmt != "" && str != ""
    ensures if stop then x == [] && Scanf(str, fmt) == [] else |fmt'| < |fmt| && Scanf(str, fmt) == x + Scanf(str', fmt')
  {
    hide SkipBlanks, Word, ScanNumber, Letter;
    stop, x, str', fmt' := false, [], str, fmt[1..];
    if fmt[0] != '%' {
      if fmt[0] != str[0] {
        stop := true;
        return;
      }
      str' := str[1..];
      assert Scanf(str, fmt) == [] + Scanf(str', fmt');
      return;
    }
    stop, x, str', fmt' := ScanConversion(str, fmt);
  }

  method ScanConversion(str: string, fmt: string) returns (stop: bool, x: seq<Stored>, str': string, fmt': string)
    requires fmt != "" && str != "" && fmt[0] == '%'
    ensures if stop then x == [] && Scanf(str, fmt) == [] else |fmt'| < |fmt| && Scanf(str, fmt) == x + Scanf(str', fmt')
  {
    hide SkipBlanks, Word, ScanNumber, Letter, ParseUint;
    stop, x, str', fmt' := false, [], str, fmt[1..];
    var width: uint32 := 0xffff_ffff;
    if fmt' != "" && '0' <= fmt'[0] <= '9' {
      width, fmt' := ParseUnsigned(fmt', 10);
    }
    assert (width, fmt') == ScanWidth(fmt[1..]);
    if fmt' == "" {
      stop := true;
      return;
    }
    var s := fmt'[0];
    if s == '%' {
      if str[0] != '%' {
        stop := true;
        return;
      }
      str', fmt' := str[1..], fmt'[1..];
      assert Scanf(str, fmt) == [] + Scanf(str', fmt');
      return;
    }
    str' := SkipBlanksOf(str');
    if s == 's' {
      var w: string;
      w, str' := CopyWord(str', width);
      x, fmt' := [Text(w)], fmt'[1..];
      return;
    }
    var f, rest := NextLetter(fmt');
    if f == '\0' {
      stop := true;
      return;
    }
    var r: uint32;
    r, str' := ReadNumber(f, str');
    x, fmt' := [Number(r)], rest;
  }

  /** sscanf_impl: the values in the order in which they are stored; it returns their number. */
  method SscanfImpl(str0: string, format: string) returns (count: nat, stored: seq<Stored>)
    ensures stored == Scanf(str0, format) && count == |stored|
  {
    hide ScannedSoFar, Scanf;
    var str, fmt := str0, format;
    ghost var all := Scanf(str0, format);
    stored := [];
    ScannedStart(str0, format);
    while fmt != "" && str != ""
      invariant ScannedSoFar(stored, str, fmt, all)
      decreases |fmt|
    {
      var stop, x, str', fmt' := ScanStep(str, fmt);
      if stop {
        ScannedEnd(stored, str, fmt, all);
        return |stored|, stored;
      }
      ScannedMore(stored, x, str, fmt, str', fmt', all);
      stored, str, fmt := stored + x, str', fmt';
    }
    ScanExhausted(str, fmt);
    ScannedEnd(stored, str, fmt, all);
    count := |stored|;
  }

  lemma ScanExhausted(str: string, fmt: string)
    requires str == "" || fmt == ""
    ensures Scanf(str, fmt) == []
  {
  }

  lemma ScannedStart(str: string, fmt: string)
    ensures ScannedSoFar([], str, fmt, Scanf(str, fmt))
  {
    hide Scanf;
    assert [] + Scanf(str, fmt) == Scanf(str, fmt);
  }
}
