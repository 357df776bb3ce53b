/** The byte parser of the text window manager: escape sequences and UTF-8 (software/textwm2/tty.c:340-457). */
module TtyParser {
  import opened MachineTypes

  const CSI_MAX_LEN := 32

  /** The field `state`: 0 or one of five characters. */
  datatype State = Ground | Escape | Csi | CharsetG0 | CharsetG1 | Utf

  /** What the parser asks the rest of the terminal to do. */
  datatype Action =
    | Print(ucode: uint32)
    | Control(c: byte)
    | EscapeCode(c: byte)
    | Sequence(text: seq<byte>)

  /** The fields of struct TTY that only the parser uses; `csi` is csi[0..csi_len). */
  datatype Parser = Parser(state: State, csi: seq<byte>, ucode: uint32, ucount: uint32)

  predicate IsControl(c: int) {
    c == 7 || c == 8 || c == 9 || c == 10 || c == 11 || c == 12 || c == 13 || c == 14 || c == 15
  }

  const ESC: byte := 0x1b
  const CAN: byte := 0x18
  const SUB: byte := 0x1a
  const BRACKET: byte := 0x5b
  const CSI_CODE := 0x9b

  predicate IsFinal(c: int) {
    0x40 <= c <= 0x7e
  }

  // ---------------------------------------------------------------- the meaning of one byte

  function Next(p: Parser, c: byte): (Parser, seq<Action>) {
    match p.state
    case Ground => FromGround(p, c)
    case Escape => FromEscape(p.(csi := []), c)
    case CharsetG0 => (p.(state := Ground), [])
    case CharsetG1 => (p.(state := Ground), [])
    case Utf => FromUtf(p, c)
    case Csi => FromCsi(p, c)
  }

  /** tty_print drops the codes below the space. */
  function TtyPrint(ucode: uint32): seq<Action> {
    if ucode < 32 then [] else [Print(ucode)]
  }

  function FromGround(p: Parser, c: byte): (Parser, seq<Action>) {
    if IsControl(c) then (p, [Control(c)])
    else if c == ESC then (p.(state := Escape), [])
    else if c < 128 then (p, TtyPrint(c))
    else if c / 32 % 2 == 0 then (p.(state := Utf, ucount := 2, ucode := c % 32), [])
    else if c / 16 % 2 == 0 then (p.(state := Utf, ucount := 3, ucode := c % 16), [])
    else (p.(state := Utf, ucount := 4, ucode := c % 8), [])
  }

  function FromEscape(p: Parser, c: byte): (Parser, seq<Action>) {
    if c == BRACKET then (p.(state := Csi), [])
    else if c == 0x28 then (p.(state := CharsetG0), [])
    else if c == 0x29 then (p.(state := CharsetG1), [])
    else (p.(state := Ground), [EscapeCode(c)])
  }

  /** Six more bits of the code, and one byte less to come, both in 32-bit arithmetic. */
  function FromUtf(p: Parser, c: byte): (Parser, seq<Action>) {
    var ucode: uint32 := U32(p.ucode * 64) + c % 64;
    var q := p.(ucode := ucode, ucount := U32(p.ucount - 1));
    if q.ucount != 1 then (q, [])
    else if ucode == CSI_CODE then (q.(state := Csi, csi := []), [])
    else (q.(state := Ground), TtyPrint(ucode))
  }

  function FromCsi(p: Parser, c: byte): (Parser, seq<Action>) {
    if c == CAN || c == SUB then (p.(state := Ground), [])
    else
      var text := p.csi + [c];
      if IsFinal(c) || |text| == CSI_MAX_LEN - 1 then (p.(state := Ground, csi := text), [Sequence(text)])
      else (p.(csi := text), [])
  }

  function Run(p: Parser, input: seq<byte>): (Parser, seq<Action>)
    decreases |input|
  {
    if input == [] then (p, [])
    else
      var (q, a) := Next(p, input[0]);
      var (r, b) := Run(q, input[1..]);
      (r, a + b)
  }

  lemma {:induction false} RunSplit(p: Parser, s: seq<byte>, t: seq<byte>)
    ensures Run(p, s + t) == (Run(Run(p, s).0, t).0, Run(p, s).1 + Run(Run(p, s).0, t).1)
    decreases |s|
  {
    hide Next;
    if s == [] {
      assert s + t == t;
      assert [] + Run(p, t).1 == Run(p, t).1;
    } else {
      var q, a := Next(p, s[0]).0, Next(p, s[0]).1;
      assert (s + t)[1..] == s[1..] + t;
      RunSplit(q, s[1..], t);
      var b, c := Run(q, s[1..]).1, Run(Run(q, s[1..]).0, t).1;
      assert a + (b + c) == (a + b) + c;
    }
  }

  // ---------------------------------------------------------------- what holds in every state

  /** csi_len stays below the size of the array, with room for the final zero; no shift loses a bit. */
  predicate Legal(p: Parser) {
    |p.csi| <= CSI_MAX_LEN - 1
    && (p.state == Csi ==> |p.csi| <= CSI_MAX_LEN - 2)
    && (p.state == Utf ==> 2 <= p.ucount <= 4 && p.ucode < UcodeBound(p.ucount))
  }

  function UcodeBound(ucount: int): int {
    if ucount == 2 then 0x8000 else if ucount == 3 then 0x200 else 8
  }

  lemma NextIsLegal(p: Parser, c: byte)
    requires Legal(p)
    ensures Legal(Next(p, c).0)
    ensures forall a :: a in Next(p, c).1 && a.Sequence? ==> 1 <= |a.text| <= CSI_MAX_LEN - 1
    ensures forall a :: a in Next(p, c).1 && a.Print? ==> 32 <= a.ucode < 0x200000 && a.ucode != CSI_CODE
  {
  }

  lemma {:induction false} RunIsLegal(p: Parser, input: seq<byte>)
    requires Legal(p)
    ensures Legal(Run(p, input).0)
    ensures forall a :: a in Run(p, input).1 && a.Sequence? ==> 1 <= |a.text| <= CSI_MAX_LEN - 1
    ensures forall a :: a in Run(p, input).1 && a.Print? ==> 32 <= a.ucode < 0x200000 && a.ucode != CSI_CODE
    decreases |input|
  {
    hide Next, Legal;
    if input != [] {
      NextIsLegal(p, input[0]);
      RunIsLegal(Next(p, input[0]).0, input[1..]);
    }
  }

  // ---------------------------------------------------------------- the parser never hangs

  /** How many bytes it can take to come back to the ground state. */
  function Rank(p: Parser): int {
    match p.state
    case Ground => 0
    case Escape => 32
    case CharsetG0 => 1
    case CharsetG1 => 1
    case Csi => 31 - |p.csi|
    case Utf => 30 + p.ucount
  }

  lemma NextRanks(p: Parser, c: byte)
    requires Legal(p) && p.state != Ground
    ensures 0 <= Rank(Next(p, c).0) < Rank(p) <= 34
  {
  }

  lemma RankPositive(p: Parser)
    requires Legal(p) && p.state != Ground
    ensures Rank(p) > 0
  {
  }

  /** Whatever the bytes are, the ground state comes back within 34 of them. */
  lemma {:induction false} BackToGround(p: Parser, input: seq<byte>) returns (n: nat)
    requires Legal(p) && Rank(p) <= |input|
    ensures n <= Rank(p) <= 34 && n <= |input| && Run(p, input[..n]).0.state == Ground
    decreases |input|
  {
    hide Next, Legal;
    if p.state == Ground {
      n := 0;
    } else {
      RankPositive(p);
      NextRanks(p, input[0]);
      NextIsLegal(p, input[0]);
      var m := BackToGround(Next(p, input[0]).0, input[1..]);
      n := m + 1;
      assert input[..n][1..] == input[1..][..m];
    }
  }

  // ---------------------------------------------------------------- UTF-8

  /** Section 3 of RFC 3629. */
  type CodePoint = u: int | 0 <= u <= 0x10ffff

  function Encode(u: CodePoint): seq<byte> {
    if u < 0x80 then [u]
    else if u < 0x800 then [0xc0 + u / 64, 0x80 + u % 64]
    else if u < 0x10000 then [0xe0 + u / 4096, 0x80 + u / 64 % 64, 0x80 + u % 64]
    else [0xf0 + u / 262144, 0x80 + u / 4096 % 64, 0x80 + u / 64 % 64, 0x80 + u % 64]
  }

  function EncodeAll(text: seq<CodePoint>): seq<byte>
    decreases |text|
  {
    if text == [] then [] else Encode(text[0]) + EncodeAll(text[1..])
  }

  /** The code points that put a character on the screen. */
  predicate Printable(u: CodePoint) {
    u >= 32 && u != CSI_CODE
  }

  lemma RunOf1(p: Parser, a: byte)
    ensures Run(p, [a]) == Next(p, a)
  {
    hide Next;
    assert [a][1..] == [];
    assert Next(p, a).1 + [] == Next(p, a).1;
    assert Run(Next(p, a).0, []) == (Next(p, a).0, []);
  }

  lemma RunOf2(p: Parser, a: byte, b: byte)
    ensures var q := Next(p, a);
            Run(p, [a, b]) == (Next(q.0, b).0, q.1 + Next(q.0, b).1)
  {
    hide Next;
    assert [a, b][1..] == [b];
    RunOf1(Next(p, a).0, b);
  }

  lemma RunOf3(p: Parser, a: byte, b: byte, c: byte)
    ensures var q := Next(p, a);
            var r := Next(q.0, b);
            Run(p, [a, b, c]) == (Next(r.0, c).0, q.1 + (r.1 + Next(r.0, c).1))
  {
    hide Next;
    assert [a, b, c][1..] == [b, c];
    RunOf2(Next(p, a).0, b, c);
  }

  lemma RunOf4(p: Parser, a: byte, b: byte, c: byte, d: byte)
    ensures var q := Next(p, a);
            var r := Next(q.0, b);
            var s := Next(r.0, c);
            Run(p, [a, b, c, d]) == (Next(s.0, d).0, q.1 + (r.1 + (s.1 + Next(s.0, d).1)))
  {
    hide Next;
    assert [a, b, c, d][1..] == [b, c, d];
    RunOf3(Next(p, a).0, b, c, d);
  }

  /** One code point: it is printed, whole and once, exactly when it is neither below the space nor the one that starts a
      control sequence; otherwise nothing is printed at all. */
  lemma CodePointPrinted(p: Parser, u: CodePoint)
    requires p.state == Ground
    ensures Run(p, Encode(u)).1 == [Print(u)] <==> Printable(u)
    ensures !Printable(u) ==> forall a :: a in Run(p, Encode(u)).1 ==> !a.Print?
    ensures Printable(u) ==> Run(p, Encode(u)).0.state == Ground
  {
    hide Next;
    if u < 0x80 {
      RunOf1(p, u);
      Ascii(p, u);
    } else if u < 0x800 {
      RunOf2(p, 0xc0 + u / 64, 0x80 + u % 64);
      TwoBytes(p, u);
    } else if u < 0x10000 {
      RunOf3(p, 0xe0 + u / 4096, 0x80 + u / 64 % 64, 0x80 + u % 64);
      ThreeBytes(p, u);
    } else {
      RunOf4(p, 0xf0 + u / 262144, 0x80 + u / 4096 % 64, 0x80 + u / 64 % 64, 0x80 + u % 64);
      FourBytes(p, u);
    }
  }

  lemma Ascii(p: Parser, u: byte)
    requires p.state == Ground && u < 0x80
    ensures Next(p, u).1 == [Print(u)] <==> Printable(u)
    ensures !Printable(u) ==> forall a :: a in Next(p, u).1 ==> !a.Print?
    ensures Printable(u) ==> Next(p, u).0.state == Ground
  {
  }

  lemma Lead2(p: Parser, c: byte)
    requires p.state == Ground && 0xc0 <= c < 0xe0
    ensures Next(p, c) == (p.(state := Utf, ucount := 2, ucode := c - 0xc0), [])
  {
  }

  lemma Lead3(p: Parser, c: byte)
    requires p.state == Ground && 0xe0 <= c < 0xf0
    ensures Next(p, c) == (p.(state := Utf, ucount := 3, ucode := c - 0xe0), [])
  {
  }

  lemma Lead4(p: Parser, c: byte)
    requires p.state == Ground && 0xf0 <= c < 0xf8
    ensures Next(p, c) == (p.(state := Utf, ucount := 4, ucode := c - 0xf0), [])
  {
  }

  lemma Continuation(p: Parser, x: int)
    requires p.state == Utf && 0 <= x < 64 && p.ucode < 0x8000
    ensures p.ucount > 2 ==>
              Next(p, 0x80 + x) == (p.(ucode := p.ucode * 64 + x, ucount := p.ucount - 1), [])
    ensures p.ucount == 2 && p.ucode * 64 + x != CSI_CODE ==>
              Next(p, 0x80 + x) == (p.(state := Ground, ucode := p.ucode * 64 + x, ucount := 1), TtyPrint(p.ucode * 64 + x))
    ensures p.ucount == 2 && p.ucode * 64 + x == CSI_CODE ==> Next(p, 0x80 + x).1 == []
  {
  }

  lemma TwoBytes(p: Parser, u: CodePoint)
    requires p.state == Ground && 0x80 <= u < 0x800
    ensures var q := Next(p, 0xc0 + u / 64);
            var r := Next(q.0, 0x80 + u % 64);
            q.1 + r.1 == (if Printable(u) then [Print(u)] else [])
            && (Printable(u) ==> r.0.state == Ground)
  {
    hide Next;
    Lead2(p, 0xc0 + u / 64);
    Continuation(Next(p, 0xc0 + u / 64).0, u % 64);
  }

  lemma ThreeBytes(p: Parser, u: CodePoint)
    requires p.state == Ground && 0x800 <= u < 0x10000
    ensures var q := Next(p, 0xe0 + u / 4096);
            var r := Next(q.0, 0x80 + u / 64 % 64);
            var s := Next(r.0, 0x80 + u % 64);
            q.1 + (r.1 + s.1) == [Print(u)] && s.0.state == Ground
  {
    hide Next;
    Lead3(p, 0xe0 + u / 4096);
    var q := Next(p, 0xe0 + u / 4096);
    Continuation(q.0, u / 64 % 64);
    assert u / 4096 * 64 + u / 64 % 64 == u / 64;
    Continuation(Next(q.0, 0x80 + u / 64 % 64).0, u % 64);
  }

  lemma FourBytes(p: Parser, u: CodePoint)
    requires p.state == Ground && 0x10000 <= u
    ensures var q := Next(p, 0xf0 + u / 262144);
            var r := Next(q.0, 0x80 + u / 4096 % 64);
            var s := Next(r.0, 0x80 + u / 64 % 64);
            var t := Next(s.0, 0x80 + u % 64);
            q.1 + (r.1 + (s.1 + t.1)) == [Print(u)] && t.0.state == Ground
  {
    hide Next;
    Lead4(p, 0xf0 + u / 262144);
    var q := Next(p, 0xf0 + u / 262144);
    Continuation(q.0, u / 4096 % 64);
    assert u / 262144 * 64 + u / 4096 % 64 == u / 4096;
    var r := Next(q.0, 0x80 + u / 4096 % 64);
    Continuation(r.0, u / 64 % 64);
    assert u / 4096 * 64 + u / 64 % 64 == u / 64;
    Continuation(Next(r.0, 0x80 + u / 64 % 64).0, u % 64);
  }

  function Printed(text: seq<CodePoint>): seq<Action> {
    seq(|text|, i requires 0 <= i < |text| => Print(text[i]))
  }

  lemma {:induction false} PrintableText(p: Parser, text: seq<CodePoint>)
    requires p.state == Ground
    requires forall i :: 0 <= i < |text| ==> Printable(text[i])
    ensures Run(p, EncodeAll(text)).1 == Printed(text)
    ensures Run(p, EncodeAll(text)).0.state == Ground
    decreases |text|
  {
    hide Next, Encode, Printable;
    if text != [] {
      var e := Encode(text[0]);
      RunSplit(p, e, EncodeAll(text[1..]));
      CodePointPrinted(p, text[0]);
      PrintableText(Run(p, e).0, text[1..]);
      assert Printed(text) == [Print(text[0])] + Printed(text[1..]);
    }
  }

  /** A text is printed as it is, code point by code point, exactly when it consists of such code points. */
  lemma TextPrinted(p: Parser, text: seq<CodePoint>)
    requires p.state == Ground && Legal(p)
    ensures Run(p, EncodeAll(text)).1 == Printed(text) <==> forall i :: 0 <= i < |text| ==> Printable(text[i])
    ensures (forall i :: 0 <= i < |text| ==> Printable(text[i])) ==> Run(p, EncodeAll(text)).0.state == Ground
  {
    hide Run, EncodeAll, Legal;
    if forall i :: 0 <= i < |text| ==> Printable(text[i]) {
      PrintableText(p, text);
    } else {
      var i :| 0 <= i < |text| && !Printable(text[i]);
      RunIsLegal(p, EncodeAll(text));
      assert Printed(text)[i] == Print(text[i]);
    }
  }

  // ---------------------------------------------------------------- control sequences

  predicate IsBody(body: seq<byte>) {
    forall i :: 0 <= i < |body| ==> !IsFinal(body[i]) && body[i] != CAN && body[i] != SUB
  }

  /** Collecting: as long as there is room the bytes are kept, and nothing else happens. */
  lemma {:induction false} Collected(p: Parser, body: seq<byte>)
    requires p.state == Csi && IsBody(body) && |p.csi| + |body| <= CSI_MAX_LEN - 2
    ensures Run(p, body) == (p.(csi := p.csi + body), [])
    decreases |body|
  {
    if body == [] {
      assert p.csi + body == p.csi;
    } else {
      hide Next;
      var q := p.(csi := p.csi + [body[0]]);
      CollectOne(p, body[0]);
      Collected(q, body[1..]);
      assert q.csi + body[1..] == p.csi + body;
      assert Run(p, body).1 == [];
    }
  }

  lemma CollectOne(p: Parser, c: byte)
    requires p.state == Csi && !IsFinal(c) && c != CAN && c != SUB && |p.csi| + 1 <= CSI_MAX_LEN - 2
    ensures Next(p, c) == (p.(csi := p.csi + [c]), [])
  {
  }

  /** A control sequence is handed over whole exactly when it fits into the array. */
  lemma SequenceDelivered(p: Parser, body: seq<byte>, last: byte)
    requires p.state == Ground && IsBody(body) && IsFinal(last)
    ensures |Run(p, [ESC, BRACKET] + (body + [last])).1| > 0
    ensures Run(p, [ESC, BRACKET] + (body + [last])).1[0] == Sequence((body + [last])[..if |body| < 30 then |body| + 1 else 31])
    ensures Run(p, [ESC, BRACKET] + (body + [last])).1 == [Sequence(body + [last])] <==> |body| <= CSI_MAX_LEN - 2
    ensures |body| <= CSI_MAX_LEN - 2 ==> Run(p, [ESC, BRACKET] + (body + [last])).0.state == Ground
  {
    hide Next;
    var q := p.(state := Csi, csi := []);
    Introduced(p);
    RunSplit(p, [ESC, BRACKET], body + [last]);
    var n := if |body| < 30 then |body| else 30;
    var kept, next, rest := (body + [last])[..n], (body + [last])[n], (body + [last])[n + 1..];
    assert body + [last] == kept + ([next] + rest);
    assert kept == body[..n];
    Collected(q, kept);
    assert q.csi + kept == kept;
    RunSplit(q, kept, [next] + rest);
    var r := q.(csi := kept);
    Completed(r, next);
    RunSplit(r, [next], rest);
    RunOf1(r, next);
    var tail := Run(Next(r, next).0, rest).1;
    assert Run(r, [next] + rest).1 == [Sequence(kept + [next])] + tail;
    assert Run(q, kept + ([next] + rest)).1 == [Sequence(kept + [next])] + tail;
    assert Run(p, [ESC, BRACKET] + (body + [last])).1 == [Sequence(kept + [next])] + tail;
    assert (body + [last])[..n + 1] == kept + [next];
  }

  lemma Introduced(p: Parser)
    requires p.state == Ground
    ensures Run(p, [ESC, BRACKET]) == (p.(state := Csi, csi := []), [])
  {
    RunOf2(p, ESC, BRACKET);
    var q: Parser := p.(state := Escape);
    assert Next(p, ESC) == (q, []);
    assert Next(q, BRACKET) == (q.(state := Csi, csi := []), []);
    assert Run(p, [ESC, BRACKET]).1 == [];
  }

  lemma Completed(p: Parser, c: byte)
    requires p.state == Csi && c != CAN && c != SUB && |p.csi| <= CSI_MAX_LEN - 2
    requires IsFinal(c) || |p.csi| == CSI_MAX_LEN - 2
    ensures Next(p, c) == (p.(state := Ground, csi := p.csi + [c]), [Sequence(p.csi + [c])])
  {
  }
}
