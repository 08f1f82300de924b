/** The firmware's number and format printer (firmware/common/print.c) on a 32-bit target: digits are made
    in a ten-byte buffer, and the format is walked by a pointer that once steps back. */
module Printer {
  import opened Multiplication
  import opened Options

  const TWO32: int := 0x1_0000_0000
  const TWO31: int := 0x8000_0000
  const NUL: char := '\0'

  type Digit = d: nat | d < 10

  type Word32 = x: nat | x < TWO32

  // ---------------------------------------------------------------- decimal

  function DecDigit(d: nat): char
    requires d < 10
  {
    (48 + d) as char
  }

  function DecText(n: nat): (s: string)
    ensures s != []
  {
    if n < 10 then [DecDigit(n)] else DecText(n / 10) + [DecDigit(n % 10)]
  }

  predicate AllDec(s: string) {
    forall i | 0 <= i < |s| :: '0' <= s[i] <= '9'
  }

  function DecValue(s: string): nat
    requires AllDec(s)
  {
    if s == [] then 0 else 10 * DecValue(s[..|s| - 1]) + (s[|s| - 1] as int - 48)
  }

  /** A decimal numeral without leading zeros. */
  predicate Canonical(s: string) {
    s != [] && AllDec(s) && (|s| > 1 ==> s[0] != '0')
  }

  /** Printing a number gives a leading-zero-free numeral that reads back as the number. */
  lemma {:induction false} DecReadsBack(n: nat)
    ensures Canonical(DecText(n)) && DecValue(DecText(n)) == n
    ensures n > 0 ==> DecText(n)[0] != '0'
  {
    if n >= 10 {
      DecReadsBack(n / 10);
      assert DecText(n)[..|DecText(n)| - 1] == DecText(n / 10);
    }
  }

  /** It is the only such numeral. */
  lemma {:induction false} DecIsUnique(s: string)
    requires Canonical(s)
    ensures DecText(DecValue(s)) == s
    ensures s[0] != '0' ==> DecValue(s) > 0
  {
    var front, last := s[..|s| - 1], s[|s| - 1];
    if |s| > 1 {
      assert front[0] == s[0];
      DecIsUnique(front);
      assert DecValue(s) / 10 == DecValue(front);
      assert DecValue(s) % 10 == last as int - 48;
    } else {
      assert DecValue(front) == 0;
    }
  }

  function Pow10(k: nat): (p: nat)
    ensures p > 0
  {
    if k == 0 then 1 else 10 * Pow10(k - 1)
  }

  /** A numeral of a number below 10^k has at most k digits. */
  lemma {:induction false} DecLength(n: nat, k: nat)
    requires k > 0 && n < Pow10(k)
    ensures |DecText(n)| <= k
  {
    if n >= 10 {
      assert Pow10(k) == 10 * Pow10(k - 1);
      assert k > 1;
      DecLength(n / 10, k - 1);
    }
  }

  lemma TenDigitsSuffice(n: Word32)
    ensures |DecText(n)| <= 10
  {
    assert Pow10(10) == 10_000_000_000 by {
      assert Pow10(5) == 100_000;
    }
    DecLength(n, 10);
  }

  /** What print_signed_dec prints of an int. */
  function SignedText(v: int): string {
    if v < 0 then "-" + DecText(-v) else DecText(v)
  }

  function SignedValue(s: string): int
    requires s != [] && AllDec(if s[0] == '-' then s[1..] else s)
  {
    if s[0] == '-' then var n: int := DecValue(s[1..]); -n else DecValue(s)
  }

  lemma SignedReadsBack(v: int)
    ensures var s := SignedText(v);
            s != [] && AllDec(if s[0] == '-' then s[1..] else s) && SignedValue(s) == v
  {
    var n: nat := if v < 0 then -v else v;
    DecReadsBack(n);
    assert v < 0 ==> SignedText(v)[1..] == DecText(n);
    assert '0' <= DecText(n)[0];
  }

  // ---------------------------------------------------------------- hexadecimal

  function Pow2(k: nat): (p: nat)
    ensures p > 0
  {
    if k == 0 then 1 else 2 * Pow2(k - 1)
  }

  lemma Pow2By4(k: nat)
    ensures Pow2(k + 4) == 16 * Pow2(k)
  {
    assert Pow2(k + 4) == 2 * Pow2(k + 3);
    assert Pow2(k + 3) == 2 * Pow2(k + 2);
    assert Pow2(k + 2) == 2 * Pow2(k + 1);
  }

  function HexDigit(d: nat): char
    requires d < 16
  {
    "0123456789ABCDEF"[d]
  }

  predicate IsHex(c: char) {
    '0' <= c <= '9' || 'A' <= c <= 'F'
  }

  function HexDigitValue(c: char): (d: nat)
    requires IsHex(c)
    ensures d < 16 && HexDigit(d) == c
  {
    if c <= '9' then c as int - 48 else c as int - 55
  }

  lemma HexDigitReadsBack(d: nat)
    requires d < 16
    ensures IsHex(HexDigit(d)) && HexDigitValue(HexDigit(d)) == d
  {
  }

  /** The k low hexadecimal digits of v, most significant first. */
  function HexText(v: nat, k: nat): (s: string)
    ensures |s| == k
  {
    if k == 0 then [] else [HexDigit(v / Pow2(4 * (k - 1)) % 16)] + HexText(v, k - 1)
  }

  predicate AllHex(s: string) {
    forall i | 0 <= i < |s| :: IsHex(s[i])
  }

  /** Positional value, most significant digit first. */
  function HexValue(s: string): (v: nat)
    requires AllHex(s)
    decreases |s|
  {
    if s == [] then 0
    else
      HexDigitValue(s[0]) * Pow2(4 * (|s| - 1)) + HexValue(s[1..])
  }

  lemma Regroup(h: nat, d: nat, p: nat)
    ensures (16 * h + d) * p == h * (16 * p) + d * p
  {
  }

  lemma Below16(d: nat, r: nat, p: nat)
    requires d < 16 && r < p
    ensures d * p + r < 16 * p
  {
    MulMonotone(d, 15, p);
  }

  lemma Quotient16(v: nat, p: nat)
    requires p > 0
    ensures v == (v / p / 16) * (16 * p) + (v / p % 16) * p + v % p
  {
    var q := v / p;
    assert v == q * p + v % p;
    assert q == 16 * (q / 16) + q % 16;
    Regroup(q / 16, q % 16, p);
  }

  /** The quotient-and-remainder step of positional notation in base 16. */
  lemma {:induction false} Positional(v: nat, p: nat)
    requires p > 0
    ensures v % (16 * p) == (v / p % 16) * p + v % p
  {
    Quotient16(v, p);
    Below16(v / p % 16, v % p, p);
    DivModUnique(v, 16 * p, v / p / 16, (v / p % 16) * p + v % p);
  }

  /** What print_hex prints reads back as the value modulo 16^k. */
  lemma {:induction false} HexReadsBack(v: nat, k: nat)
    ensures AllHex(HexText(v, k)) && HexValue(HexText(v, k)) == v % Pow2(4 * k)
  {
    if k == 0 {
      NoHexDigits([], v);
      assert Pow2(0) == 1;
    } else {
      HexReadsBack(v, k - 1);
      HexStep(v, k);
    }
  }

  lemma {:induction false} HexStep(v: nat, k: nat)
    requires k > 0 && AllHex(HexText(v, k - 1)) && HexValue(HexText(v, k - 1)) == v % Pow2(4 * (k - 1))
    ensures AllHex(HexText(v, k)) && HexValue(HexText(v, k)) == v % Pow2(4 * k)
  {
    var s, p := HexText(v, k - 1), Pow2(4 * (k - 1));
    var d := v / p % 16;
    assert HexText(v, k) == [HexDigit(d)] + s;
    Pow2By4(4 * (k - 1));
    assert 4 * (k - 1) + 4 == 4 * k;
    hide Pow2, HexText, HexValue, HexDigit, AllHex, IsHex, HexDigitValue;
    HexDigitReadsBack(d);
    HexCons(HexDigit(d), s);
    HexModulus(v, p, Pow2(4 * k), d);
  }

  lemma HexModulus(v: nat, p: nat, m: nat, d: nat)
    requires p > 0 && m == 16 * p && d == v / p % 16
    ensures m > 0 && d * p + v % p == v % m
  {
    Positional(v, p);
  }

  lemma {:induction false} HexCons(c: char, s: string)
    requires IsHex(c) && AllHex(s)
    ensures AllHex([c] + s) && HexValue([c] + s) == HexDigitValue(c) * Pow2(4 * |s|) + HexValue(s)
  {
    hide IsHex, HexDigitValue, Pow2;
    assert ([c] + s)[1..] == s;
  }

  lemma {:induction false} HexValueBound(s: string)
    requires AllHex(s)
    ensures HexValue(s) < Pow2(4 * |s|)
    decreases |s|
  {
    if s != [] {
      HexValueBound(s[1..]);
      Pow2By4(4 * (|s| - 1));
      var p := Pow2(4 * (|s| - 1));
      MulMonotone(HexDigitValue(s[0]), 15, p);
    }
  }

  /** Every upper-case hexadecimal string is what print_hex prints of its value. */
  lemma HexIsUnique(s: string, k: nat)
    requires AllHex(s) && k == |s|
    ensures HexText(HexValue(s), k) == s
  {
    HexValueBound(s);
    HexIsUniqueAbove(s, 0, k);
    assert HexValue(s) == 0 * Pow2(4 * k) + HexValue(s);
  }

  /** The same with any higher digits h in front, which print_hex cuts off. */
  lemma {:induction false} HexIsUniqueAbove(s: string, h: nat, k: nat)
    requires AllHex(s) && k == |s|
    ensures HexText(h * Pow2(4 * k) + HexValue(s), k) == s
    decreases |s|
  {
    hide IsHex, HexDigit, Pow2;
    if s != [] {
      hide HexValue, HexDigitValue, AllHex;
      var rest, d, p := s[1..], HexDigitValue(s[0]), Pow2(4 * (k - 1));
      HexIsUniqueAbove(rest, 16 * h + d, k - 1);
      HexValueBound(rest);
      Pow2By4(4 * (k - 1));
      assert HexValue(s) == d * p + HexValue(rest);
      Peel(h, d, p, HexValue(rest));
    }
  }

  lemma {:induction false} Peel(h: nat, d: nat, p: nat, r: nat)
    requires d < 16 && r < p
    ensures h * (16 * p) + (d * p + r) == (16 * h + d) * p + r
    ensures ((16 * h + d) * p + r) / p % 16 == d
  {
    Regroup(h, d, p);
    DivModUnique((16 * h + d) * p + r, p, 16 * h + d, r);
  }

  // ---------------------------------------------------------------- the format

  /** An argument slot: a 32-bit word (int, unsigned or pointer), or a string pointer, None for NULL. A
      string is the memory from its address on, and must hold a NUL. */
  datatype Arg = Number(bits: Word32) | Text(chars: Option<string>)

  predicate Terminated(buf: string) {
    NUL in buf
  }

  /** The characters before the first NUL. */
  function CStr(buf: string): (s: string)
    requires Terminated(buf)
    ensures |s| < |buf| && s == buf[..|s|] && buf[|s|] == NUL && NUL !in s
  {
    if buf[0] == NUL then [] else [buf[0]] + CStr(buf[1..])
  }

  function AsInt(w: Word32): int {
    if w < TWO31 then w else w - TWO32
  }

  predicate TakesNumber(c: char) {
    c == 'c' || c == 'd' || c == 'u' || c == 'x' || c == 'p'
  }

  function Uses(c: char): nat {
    if TakesNumber(c) || c == 's' then 1 else 0
  }

  /** The next argument is of the kind conversion c takes; %d of INT_MIN is undefined in C. */
  predicate Supplies(c: char, args: seq<Arg>): (b: bool)
    ensures b ==> Uses(c) <= |args|
  {
    && (TakesNumber(c) ==> args != [] && args[0].Number? && (c == 'd' ==> args[0].bits != TWO31))
    && (c == 's' ==> args != [] && args[0].Text? && (args[0].chars.Some? ==> Terminated(args[0].chars.value)))
  }

  /** What conversion c prints. */
  function Shown(c: char, args: seq<Arg>): string
    requires Supplies(c, args)
  {
    if c == '%' then "%"
    else if c == 'c' then [(args[0].bits % 256) as char]
    else if c == 's' then (if args[0].chars.Some? then CStr(args[0].chars.value) else "(null)")
    else if c == 'd' then SignedText(AsInt(args[0].bits))
    else if c == 'u' then DecText(args[0].bits)
    else if c == 'x' then HexText(args[0].bits, 8)
    else if c == 'p' then "0x" + HexText(args[0].bits, 8)
    else ['%', c]
  }

  /** The arguments supply what the format asks for, in order. */
  predicate Fits(fmt: string, args: seq<Arg>) {
    if fmt == [] then true
    else if fmt[0] != '%' then Fits(fmt[1..], args)
    else if |fmt| == 1 then true
    else Supplies(fmt[1], args) && Fits(fmt[2..], args[Uses(fmt[1])..])
  }

  function Output(fmt: string, args: seq<Arg>): string
    requires Fits(fmt, args)
  {
    if fmt == [] then []
    else if fmt[0] != '%' then [fmt[0]] + Output(fmt[1..], args)
    else if |fmt| == 1 then []
    else Shown(fmt[1], args) + Output(fmt[2..], args[Uses(fmt[1])..])
  }

  /** How many arguments a format takes. */
  function Taken(fmt: string): nat {
    if fmt == [] then 0
    else if fmt[0] != '%' then Taken(fmt[1..])
    else if |fmt| == 1 then 0
    else Uses(fmt[1]) + Taken(fmt[2..])
  }

  /** The format does not end inside a conversion. */
  predicate Closed(fmt: string) {
    if fmt == [] then true
    else if fmt[0] != '%' then Closed(fmt[1..])
    else |fmt| > 1 && Closed(fmt[2..])
  }

  /** The rendering of two formats in a row is the two renderings in a row, the second one starting at
      the arguments the first one left. */
  lemma {:induction false} OutputConcatenates(f: string, g: string, args: seq<Arg>)
    requires Closed(f) && Fits(f + g, args)
    ensures Fits(f, args) && Taken(f) <= |args| && Fits(g, args[Taken(f)..])
    ensures Output(f + g, args) == Output(f, args) + Output(g, args[Taken(f)..])
  {
    hide Shown, Supplies, Uses;
    if f == [] {
      assert f + g == g;
    } else if f[0] != '%' {
      assert (f + g)[1..] == f[1..] + g;
      OutputConcatenates(f[1..], g, args);
    } else {
      assert (f + g)[2..] == f[2..] + g;
      assert (f + g)[1] == f[1];
      var rest := args[Uses(f[1])..];
      OutputConcatenates(f[2..], g, rest);
      assert rest[Taken(f[2..])..] == args[Taken(f)..];
    }
  }

  /** A lone trailing '%' prints nothing. */
  lemma LonePercentIsSilent(f: string, args: seq<Arg>)
    requires Closed(f) && Fits(f + "%", args)
    ensures Fits(f, args) && Output(f + "%", args) == Output(f, args)
  {
    OutputConcatenates(f, "%", args);
    assert Output("%", args[Taken(f)..]) == [];
  }

  function Escaped(s: string): string {
    if s == [] then [] else (if s[0] == '%' then "%%" else [s[0]]) + Escaped(s[1..])
  }

  /** A text with its percent signs doubled prints as itself and takes no arguments. */
  lemma {:induction false} EscapedPrintsItself(s: string, args: seq<Arg>)
    ensures Closed(Escaped(s)) && Taken(Escaped(s)) == 0
    ensures Fits(Escaped(s), args) && Output(Escaped(s), args) == s
  {
    if s != [] {
      EscapedPrintsItself(s[1..], args);
      var e := Escaped(s);
      if s[0] == '%' {
        assert e[0] == '%' && e[1] == '%' && e[2..] == Escaped(s[1..]);
        assert args[0..] == args;
      } else {
        assert e[0] == s[0] && e[1..] == Escaped(s[1..]);
      }
    }
  }

  /** Takes one argument. */
  predicate OneArgument(c: char) {
    c == 'c' || c == 's' || c == 'd' || c == 'u' || c == 'x' || c == 'p'
  }

  /** The first argument is what conversion c needs; %d of INT_MIN is undefined in C. */
  predicate Given(c: char, args: seq<Arg>) {
    && (c == 'c' || c == 'u' || c == 'x' || c == 'p' ==> args != [] && args[0].Number?)
    && (c == 'd' ==> args != [] && args[0].Number? && args[0].bits != 0x8000_0000)
    && (c == 's' ==> args != [] && args[0].Text? && (args[0].chars.Some? ==> '\0' in args[0].chars.value))
  }

  /** s consists of the k upper-case hexadecimal digits of v. */
  predicate IsHexOf(s: string, v: nat, k: nat) {
    |s| == k && AllHex(s) && HexValue(s) == v
  }

  /** What the text s that conversion c prints says of its argument: a numeral that reads back as the number, two's
      complement for %d, eight hexadecimal digits, the characters before the NUL. */
  predicate Tells(c: char, args: seq<Arg>, s: string)
    requires Given(c, args)
  {
    if c == '%' then s == "%"
    else if c == 'c' then |s| == 1 && s[0] as int == args[0].bits % 256
    else if c == 's' then
      if args[0].chars.None? then s == "(null)"
      else
        var buf := args[0].chars.value;
        |s| < |buf| && s == buf[..|s|] && '\0' !in s && buf[|s|] == '\0'
    else if c == 'd' then
      var n := args[0].bits;
      if n < 0x8000_0000 then Canonical(s) && DecValue(s) == n
      else s != [] && s[0] == '-' && Canonical(s[1..]) && DecValue(s[1..]) == 0x1_0000_0000 - n
    else if c == 'u' then Canonical(s) && DecValue(s) == args[0].bits
    else if c == 'x' then IsHexOf(s, args[0].bits, 8)
    else if c == 'p' then |s| >= 2 && s[0] == '0' && s[1] == 'x' && IsHexOf(s[2..], args[0].bits, 8)
    else |s| == 2 && s[0] == '%' && s[1] == c
  }

  lemma GivenIsSupplied(c: char, args: seq<Arg>)
    requires Given(c, args)
    ensures Supplies(c, args) && Uses(c) == if OneArgument(c) then 1 else 0
  {
  }

  lemma {:induction false} Pow2Of32()
    ensures Pow2(32) == 0x1_0000_0000
  {
    assert Pow2(4) == 16;
    hide Pow2;
    Pow2By4(4);
    Pow2By4(8);
    Pow2By4(12);
    Pow2By4(16);
    Pow2By4(20);
    Pow2By4(24);
    Pow2By4(28);
  }

  lemma {:induction false} EightHexDigits(n: Word32)
    ensures IsHexOf(HexText(n, 8), n, 8)
  {
    hide AllHex, HexValue, HexText, Pow2;
    HexReadsBack(n, 8);
    Pow2Of32();
  }

  lemma {:induction false} ShownTells(c: char, args: seq<Arg>)
    requires Given(c, args) && Supplies(c, args)
    ensures Tells(c, args, Shown(c, args))
  {
    hide DecText, HexText, Canonical, DecValue, IsHexOf, CStr;
    if c == 'x' || c == 'p' {
      EightHexDigits(args[0].bits);
      assert c == 'p' ==> Shown(c, args)[2..] == HexText(args[0].bits, 8);
    } else if c == 'u' {
      DecReadsBack(args[0].bits);
    } else if c == 'd' {
      var n := args[0].bits;
      if n < 0x8000_0000 {
        DecReadsBack(n);
      } else {
        DecReadsBack(TWO32 - n);
        assert Shown(c, args)[1..] == DecText(TWO32 - n);
      }
    }
  }

  /** One conversion anywhere in a format: after any text, percent signs and all, it prints what tells its argument, and
      the rest of the format goes on with the arguments it leaves. */
  lemma {:induction false} ConversionTells(before: string, c: char, rest: string, args: seq<Arg>) returns (s: string)
    requires Given(c, args)
    requires var n := if OneArgument(c) then 1 else 0; n <= |args| && Fits(rest, args[n..])
    ensures var n := if OneArgument(c) then 1 else 0;
            var fmt := Escaped(before) + (['%', c] + rest);
            && Fits(fmt, args) && Output(fmt, args) == before + s + Output(rest, args[n..])
    ensures Tells(c, args, s)
  {
    GivenIsSupplied(c, args);
    s := Shown(c, args);
    ShownTells(c, args);
    var tail := ['%', c] + rest;
    ConversionFirst(c, rest, args);
    EscapedPrintsItself(before, args);
    hide Output, Fits, Closed, Taken, Shown, Supplies, Uses, Tells, Given;
    assert args[0..] == args;
    FitsTogether(Escaped(before), tail, args);
    OutputConcatenates(Escaped(before), tail, args);
    assert before + (s + Output(rest, args[if OneArgument(c) then 1 else 0..]))
           == before + s + Output(rest, args[if OneArgument(c) then 1 else 0..]);
  }

  lemma ConversionFirst(c: char, rest: string, args: seq<Arg>)
    requires Supplies(c, args) && Fits(rest, args[Uses(c)..])
    ensures Fits(['%', c] + rest, args)
    ensures Output(['%', c] + rest, args) == Shown(c, args) + Output(rest, args[Uses(c)..])
  {
    hide Supplies, Shown, Uses;
    var tail := ['%', c] + rest;
    assert tail[0] == '%' && tail[1] == c && tail[2..] == rest;
  }

  /** Ordinary characters print as themselves and take nothing. */
  lemma PlainCharacter(c: char, rest: string, args: seq<Arg>)
    requires c != '%' && Fits(rest, args)
    ensures Fits([c] + rest, args) && Output([c] + rest, args) == [c] + Output(rest, args)
  {
    assert ([c] + rest)[1..] == rest;
  }

  lemma {:induction false} FitsTogether(f: string, g: string, args: seq<Arg>)
    requires Closed(f) && Fits(f, args) && Taken(f) <= |args| && Fits(g, args[Taken(f)..])
    ensures Fits(f + g, args)
  {
    if f == [] {
      assert f + g == g && args[0..] == args;
    } else if f[0] != '%' {
      assert (f + g)[1..] == f[1..] + g;
      FitsTogether(f[1..], g, args);
    } else {
      assert (f + g)[2..] == f[2..] + g;
      assert (f + g)[1] == f[1];
      var rest := args[Uses(f[1])..];
      assert rest[Taken(f[2..])..] == args[Taken(f)..];
      FitsTogether(f[2..], g, rest);
    }
  }

  // ---------------------------------------------------------------- the printer itself

  /** The console behind sim_putc. */
  class Console {
    ghost var out: string

    constructor ()
      ensures out == []
    {
      out := [];
    }

    method PrintChr(c: char)
      modifies this
      ensures out == old(out) + [c]
    {
      out := out + [c];
    }

    method PrintStr(buf: string)
      requires Terminated(buf)
      modifies this
      ensures out == old(out) + CStr(buf)
    {
      var p := 0;
      while buf[p] != NUL
        invariant p <= |CStr(buf)|
        invariant out == old(out) + CStr(buf)[..p]
        decreases |CStr(buf)| - p
      {
        PrintChr(buf[p]);
        p := p + 1;
      }
    }

    /** The buffer has ten bytes, and the digits of every 32-bit value fit. */
    method PrintDec(value: Word32)
      modifies this
      ensures out == old(out) + DecText(value)
    {
      hide DecText, DigitsDown, Pending;
      var buffer := new Digit[10];
      var p: nat, v: nat := 0, value;
      StartPending(value);
      while v != 0 || p == 0
        invariant p <= 10 && v <= value && out == old(out)
        invariant Pending(v, buffer[..p]) == DecText(value)
        decreases v, p == 0
      {
        PendingLength(value, v, buffer[..p]);
        buffer[p] := v % 10;
        assert buffer[..p + 1] == buffer[..p] + [v % 10];
        OneDigit(v, buffer[..p]);
        p := p + 1;
        v := v / 10;
      }
      NonePending(buffer[..p]);
      while p != 0
        invariant p <= 10
        invariant out + DigitsDown(buffer[..p]) == old(out) + DecText(value)
      {
        assert buffer[..p][..p - 1] == buffer[..p - 1];
        LastDigit(out, buffer[..p]);
        p := p - 1;
        PrintChr(DecDigit(buffer[p]));
      }
    }

    method PrintSignedDec(value: int)
      requires -TWO31 < value < TWO31
      modifies this
      ensures out == old(out) + SignedText(value)
    {
      var magnitude: Word32;
      if value < 0 {
        PrintChr('-');
        magnitude := -value;
      } else {
        magnitude := value;
      }
      PrintDec(magnitude);
    }

    /** A shift by 32 or more is undefined in C, hence the bound on the digits. */
    method PrintHex(value: Word32, digits: int)
      requires digits <= 8
      modifies this
      ensures out == old(out) + if digits < 0 then [] else HexText(value, digits)
    {
      hide HexText, HexDigit, Pow2;
      var i := 4 * digits - 4;
      var k := if digits < 0 then 0 else digits;
      while i >= 0
        invariant k >= 0 && (i == 4 * k - 4 || (i < 0 && k == 0))
        invariant out + HexText(value, k) == old(out) + if digits < 0 then [] else HexText(value, digits)
      {
        NextHexDigit(out, value, k);
        PrintChr(HexDigit(value / Pow2(i) % 16));
        i := i - 4;
        k := k - 1;
      }
      NoHexDigits(out, value);
    }

    method PrintArg(c: char, args: seq<Arg>)
      requires c != NUL && Supplies(c, args)
      modifies this
      ensures out == old(out) + Shown(c, args)
    {
      hide CStr, DecText, HexText, SignedText;
      if c == '%' {
        PrintChr('%');
      } else if c == 'c' {
        PrintChr((args[0].bits % 256) as char);
      } else if c == 's' {
        PrintStr(if args[0].chars.Some? then args[0].chars.value else "(null)\0");
        NullText();
      } else if c == 'd' {
        PrintSignedDec(AsInt(args[0].bits));
      } else if c == 'u' {
        PrintDec(args[0].bits);
      } else if c == 'x' {
        PrintHex(args[0].bits, 8);
      } else if c == 'p' {
        PrintStr("0x\0");
        PrefixText();
        PrintHex(args[0].bits, 8);
      } else {
        PrintChr('%');
        PrintChr(c);
      }
    }

    /** The walk never reads past the NUL, ends on every format, and prints its rendering. */
    method Printf(buf: string, args: seq<Arg>)
      requires Terminated(buf) && Fits(CStr(buf), args)
      modifies this
      ensures out == old(out) + Output(CStr(buf), args)
    {
      hide Output, Fits, Shown, Supplies, CStr;
      ghost var fmt := CStr(buf);
      var p: nat, next: nat := 0, 0;
      while buf[p] != NUL
        invariant p <= |fmt| && next <= |args|
        invariant Fits(fmt[p..], args[next..])
        invariant out + Output(fmt[p..], args[next..]) == old(out) + Output(fmt, args)
        decreases |fmt| - p
      {
        WalkStep(out, fmt[p..], args[next..]);
        if buf[p] != '%' {
          assert fmt[p..][1..] == fmt[p + 1..];
          PrintChr(buf[p]);
          p := p + 1;
          continue;
        }
        p := p + 1;
        if buf[p] == NUL {
          assert fmt[p..] == [];
          p := p - 1;
        } else {
          var c := buf[p];
          assert fmt[p - 1..][1] == c && fmt[p - 1..][2..] == fmt[p + 1..];
          assert args[next..][Uses(c)..] == args[next + Uses(c)..];
          PrintArg(c, args[next..]);
          next := next + Uses(c);
        }
        if buf[p] != NUL {
          p := p + 1;
        }
      }
      WalkEnds(out, fmt[p..], args[next..]);
    }
  }

  /** One turn of the walk moves the front of the rendering behind what has been shown. */
  lemma {:induction false} WalkStep(shown: string, fmt: string, args: seq<Arg>)
    requires fmt != [] && Fits(fmt, args)
    ensures if fmt[0] != '%' then
              Fits(fmt[1..], args) && shown + Output(fmt, args) == (shown + [fmt[0]]) + Output(fmt[1..], args)
            else if |fmt| == 1 then
              Fits([], args) && Output(fmt, args) == Output([], args)
            else
              && Supplies(fmt[1], args) && Fits(fmt[2..], args[Uses(fmt[1])..])
              && shown + Output(fmt, args) == (shown + Shown(fmt[1], args)) + Output(fmt[2..], args[Uses(fmt[1])..])
  {
    hide Shown, Supplies, Uses;
  }

  lemma {:induction false} WalkEnds(shown: string, fmt: string, args: seq<Arg>)
    requires fmt == []
    ensures Fits(fmt, args) && shown + Output(fmt, args) == shown
  {
  }

  /** The characters of a buffer of digits, last one first. */
  function DigitsDown(b: seq<Digit>): (s: string)
    ensures |s| == |b|
  {
    if b == [] then [] else [DecDigit(b[|b| - 1])] + DigitsDown(b[..|b| - 1])
  }

  lemma {:induction false} NextHexDigit(shown: string, v: nat, k: nat)
    requires k > 0
    ensures shown + HexText(v, k)
            == (shown + [HexDigit(v / Pow2(4 * (k - 1)) % 16)]) + HexText(v, k - 1)
  {
    hide HexDigit, Pow2;
  }

  lemma {:induction false} NoHexDigits(shown: string, v: nat)
    ensures HexText(v, 0) == [] && shown + HexText(v, 0) == shown
  {
  }

  /** What is still to be printed when v is left over and the digits b have been made. */
  function Pending(v: nat, b: seq<Digit>): string {
    (if v == 0 && b != [] then [] else DecText(v)) + DigitsDown(b)
  }

  lemma {:induction false} StartPending(v: nat)
    ensures Pending(v, []) == DecText(v)
  {
  }

  lemma {:induction false} OneDigit(v: nat, b: seq<Digit>)
    requires v != 0 || b == []
    ensures Pending(v, b) == Pending(v / 10, b + [v % 10])
  {
    assert (b + [v % 10])[..|b|] == b;
  }

  lemma {:induction false} PendingLength(value: Word32, v: nat, b: seq<Digit>)
    requires Pending(v, b) == DecText(value) && (v != 0 || b == [])
    ensures |b| < 10
  {
    TenDigitsSuffice(value);
  }

  lemma {:induction false} NonePending(b: seq<Digit>)
    requires b != []
    ensures Pending(0, b) == DigitsDown(b)
  {
  }

  lemma {:induction false} LastDigit(shown: string, b: seq<Digit>)
    requires b != []
    ensures shown + DigitsDown(b) == (shown + [DecDigit(b[|b| - 1])]) + DigitsDown(b[..|b| - 1])
  {
  }

  lemma NullText()
    ensures Terminated("(null)\0") && CStr("(null)\0") == "(null)"
  {
    assert "(null)\0"[6] == NUL;
    assert forall i | 0 <= i < 6 :: "(null)\0"[i] != NUL;
    assert |CStr("(null)\0")| == 6;
  }

  lemma PrefixText()
    ensures Terminated("0x\0") && CStr("0x\0") == "0x"
  {
    assert "0x\0"[2] == NUL;
    assert forall i | 0 <= i < 2 :: "0x\0"[i] != NUL;
    assert |CStr("0x\0")| == 2;
  }
}
