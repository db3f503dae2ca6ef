/** The bounded formatter of lib/libc/snprintf.c against an unbounded one. */
module Snprintf {
  import opened Words

  datatype Option<+T> = None | Some(value: T)

  /** The variable arguments. A number is taken modulo the width that is read; an argument that is
      missing or of the other kind, for which C promises nothing, reads as 0 or as a null pointer. */
  datatype Arg = Num(v: int) | Str(s: Option<string>)

  const NUL := '\0'

  function NumOf(args: seq<Arg>): int {
    if args != [] && args[0].Num? then args[0].v else 0
  }

  function StrOf(args: seq<Arg>): string {
    if args != [] && args[0].Str? && args[0].s.Some? then args[0].s.value else "(null)"
  }

  function Rest(args: seq<Arg>): seq<Arg> {
    if args == [] then [] else args[1..]
  }

  /** The modulus of the type read: int and long are 32 bits wide, long long 64. */
  function Modulus(longflag: nat): nat {
    if longflag <= 1 then 0x1_0000_0000 else 0x1_0000_0000_0000_0000
  }

  function GetUint(args: seq<Arg>, longflag: nat): nat {
    NumOf(args) % Modulus(longflag)
  }

  function GetInt(args: seq<Arg>, longflag: nat): int {
    var u := GetUint(args, longflag);
    if u < Modulus(longflag) / 2 then u else u - Modulus(longflag)
  }

  // ---------------------------------------------------------------- digits

  /** The macro digits(). */
  function Digit(x: nat): char
    requires x < 16
  {
    if x <= 9 then '0' + x as char else 'a' + (x - 10) as char
  }

  function DigitValue(c: char): nat {
    if '0' <= c <= '9' then (c - '0') as nat else if 'a' <= c <= 'f' then (c - 'a') as nat + 10 else 0
  }

  /** The digits of a number above zero, lowest first. */
  function DigitsUp(u: nat, base: nat): string
    requires 2 <= base <= 16
  {
    if u == 0 then [] else [Digit(u % base)] + DigitsUp(u / base, base)
  }

  function Buf(u: nat, base: nat): (buf: string)
    requires 2 <= base <= 16
    ensures |buf| > 0
  {
    if u == 0 then ['0'] else DigitsUp(u, base)
  }

  /** The `n` lowest digits of `buf`, highest first, with zeros where it has none. */
  function Field(buf: string, n: nat): (s: string)
    ensures |s| == n
  {
    if n == 0 then []
    else [if n - 1 >= |buf| then '0' else buf[n - 1]] + Field(buf, n - 1)
  }

  /** A number as printed: all its digits without a width, otherwise exactly `width` digits. */
  function NumText(neg: bool, u: nat, base: nat, width: nat): string
    requires 2 <= base <= 16
  {
    var buf := Buf(u, base);
    (if neg then ['-'] else []) + Field(buf, if width == 0 then |buf| else width)
  }

  function Spaces(n: nat): (s: string)
    ensures |s| == n
  {
    if n == 0 then [] else [' '] + Spaces(n - 1)
  }

  function StrText(s: string, width: nat): string {
    s + Spaces(if width > |s| then width - |s| else 0)
  }

  // ---------------------------------------------------------------- the unbounded formatter

  function IsDigit(c: char): bool { '0' <= c <= '9' }

  /** The number read by the width loop, and what follows it. */
  function ReadWidth(f: string, w: nat): (string, nat)
    decreases |f|
  {
    if f != [] && IsDigit(f[0]) then ReadWidth(f[1..], w * 10 + (f[0] - '0') as nat) else (f, w)
  }

  lemma {:induction false} ReadWidthShrinks(f: string, w: nat)
    ensures |ReadWidth(f, w).0| <= |f|
    ensures f != [] && IsDigit(f[0]) ==> |ReadWidth(f, w).0| < |f|
    decreases |f|
  {
    if f != [] && IsDigit(f[0]) { ReadWidthShrinks(f[1..], w * 10 + (f[0] - '0') as nat); }
  }

  function Then(head: string, tail: Option<string>): Option<string> {
    if tail.None? then None else Some(head + tail.value)
  }

  /** The largest `ssize_t`: a width beyond it overflows. */
  const MAX_WIDTH := 0x7FFF_FFFF

  lemma {:induction false} ReadWidthGrows(f: string, w: nat)
    ensures w <= ReadWidth(f, w).1
    decreases |f|
  {
    if f != [] && IsDigit(f[0]) { ReadWidthGrows(f[1..], w * 10 + (f[0] - '0') as nat); }
  }

  /** The output for the format `f`; None when it ends inside a directive or a width overflows. A width and an `l`
      stay in force until a directive takes them. */
  function Ideal(f: string, args: seq<Arg>, width: nat, longflag: nat): Option<string>
    decreases |f|, 1
  {
    if f == [] then Some([])
    else if f[0] != '%' then Then([f[0]], Ideal(f[1..], args, width, longflag))
    else Directive(f[1..], args, width, longflag)
  }

  function Directive(f: string, args: seq<Arg>, width: nat, longflag: nat): Option<string>
    decreases |f|, 0
  {
    if f == [] then None
    else if f[0] == 'l' then Directive(f[1..], args, width, longflag + 1)
    else if f[0] == '0' then Directive(f[1..], args, width, longflag)
    else if IsDigit(f[0]) then
      ReadWidthShrinks(f, width);
      var (g, w) := ReadWidth(f, width);
      if w > MAX_WIDTH then None else Directive(g, args, w, longflag)
    else if f[0] in "doxup" then
      Then(Conversion(f[0], args, width, longflag), Ideal(f[1..], Rest(args), 0, 0))
    else if f[0] == 'c' then Then([CharOf(args)], Ideal(f[1..], Rest(args), 0, longflag))
    else if f[0] == 's' then Then(StrText(StrOf(args), width), Ideal(f[1..], Rest(args), 0, longflag))
    else if f[0] == '%' then Then(['%'], Ideal(f[1..], args, 0, longflag))
    else Then(['%', f[0]], Ideal(f[1..], args, width, longflag))
  }

  function CharOf(args: seq<Arg>): char { (NumOf(args) % 256) as char }

  function BaseOf(c: char): nat { if c == 'o' then 8 else if c == 'x' || c == 'p' then 16 else 10 }

  /** %d, %o, %x, %u; %p is %08lx. */
  function Conversion(c: char, args: seq<Arg>, width: nat, longflag: nat): string {
    if c == 'd' then
      var val := GetInt(args, longflag);
      NumText(val < 0, if val < 0 then -val else val, 10, width)
    else
      NumText(false, GetUint(args, if c == 'p' then 1 else longflag), BaseOf(c), if c == 'p' then 8 else width)
  }

  // ---------------------------------------------------------------- printed numbers can be read back

  function Pow(base: nat, n: nat): (p: nat)
    ensures base > 0 ==> p > 0
  {
    if n == 0 then 1
    else
      MulMonotone(base, 1, Pow(base, n - 1));
      base * Pow(base, n - 1)
  }

  /** The value of digits, highest first. */
  function Parse(s: string, base: nat): nat {
    if s == [] then 0 else DigitValue(s[0]) * Pow(base, |s| - 1) + Parse(s[1..], base)
  }

  lemma DigitReads(x: nat)
    requires x < 16
    ensures DigitValue(Digit(x)) == x
  {
  }

  lemma {:induction false} ParseAppend(s: string, c: char, base: nat)
    ensures Parse(s + [c], base) == Parse(s, base) * base + DigitValue(c)
  {
    if s == [] {
      assert [] + [c] == [c];
      assert [c][1..] == [];
    } else {
      ParseAppend(s[1..], c, base);
      assert (s + [c])[1..] == s[1..] + [c];
      var d, p := DigitValue(s[0]), Pow(base, |s| - 1);
      assert Pow(base, |s|) == base * p;
      ShuffleProduct(d, base, p, Parse(s[1..], base));
    }
  }

  lemma ShuffleProduct(d: nat, base: nat, p: nat, q: nat)
    ensures d * (base * p) + q * base == (d * p + q) * base
  {
  }

  lemma {:induction false} FieldAt(buf: string, n: nat, i: nat)
    requires i < n
    ensures Field(buf, n)[i] == if n - 1 - i >= |buf| then '0' else buf[n - 1 - i]
  {
    if i > 0 { FieldAt(buf, n - 1, i - 1); }
  }

  lemma FieldOfTail(d: char, rest: string, n: nat, i: nat)
    requires i < n
    ensures Field([d] + rest, n)[i] == (Field(rest, n - 1) + [d])[i]
  {
    hide Field;
    FieldAt([d] + rest, n, i);
    if i < n - 1 { FieldAt(rest, n - 1, i); }
  }

  lemma FieldOfNone(n: nat, i: nat)
    requires i < n
    ensures Field([], n)[i] == '0' && (Field([], n - 1) + ['0'])[i] == '0'
  {
    FieldAt([], n, i);
    if i < n - 1 { FieldAt([], n - 1, i); }
  }

  /** Printing `n` digits is printing the `n - 1` above the lowest, then the lowest. */
  lemma FieldLow(u: nat, base: nat, n: nat)
    requires 2 <= base <= 16 && n > 0
    ensures Field(DigitsUp(u, base), n) == Field(DigitsUp(u / base, base), n - 1) + [Digit(u % base)]
  {
    hide Field, Digit;
    var a, b := Field(DigitsUp(u, base), n), Field(DigitsUp(u / base, base), n - 1) + [Digit(u % base)];
    DigitZero();
    forall i | 0 <= i < n ensures a[i] == b[i] {
      if u == 0 { FieldOfNone(n, i); } else { FieldOfTail(Digit(u % base), DigitsUp(u / base, base), n, i); }
    }
  }

  lemma DigitZero()
    ensures Digit(0) == '0'
  {
  }

  lemma FieldOfBuf(u: nat, base: nat, n: nat)
    requires 2 <= base <= 16
    ensures Field(Buf(u, base), n) == Field(DigitsUp(u, base), n)
  {
    forall i | 0 <= i < n ensures Field(Buf(u, base), n)[i] == Field(DigitsUp(u, base), n)[i] {
      FieldAt(Buf(u, base), n, i);
      FieldAt(DigitsUp(u, base), n, i);
    }
  }

  lemma ModParts(b: nat, m: nat, t: nat, s: nat, r: nat)
    requires s < m && r < b
    ensures b * (m * t + s) + r == (b * m) * t + (b * s + r)
    ensures b * s + r < b * m
  {
    MulMonotone(b, s + 1, m);
    MulAssociates(b, m, t);
  }

  lemma ModCompute(u: nat, b: nat, m: nat, q: nat, r: nat, t: nat, s: nat)
    requires u == b * q + r && r < b && q == m * t + s && s < m
    ensures b * m > 0 && u % (b * m) == s * b + r
  {
    ModParts(b, m, t, s, r);
    DivUnique(u, b * m, t, b * s + r);
  }

  lemma DivModParts(u: nat, b: nat)
    requires b > 0
    ensures u == b * (u / b) + u % b && u % b < b
  {
  }

  lemma ModStep(u: nat, b: nat, m: nat)
    requires b > 0 && m > 0
    ensures b * m > 0 && u % (b * m) == (u / b % m) * b + u % b
  {
    DivModParts(u, b);
    DivModParts(u / b, m);
    ModCompute(u, b, m, u / b, u % b, u / b / m, u / b % m);
  }

  lemma PowStep(base: nat, n: nat)
    requires n > 0
    ensures Pow(base, n) == base * Pow(base, n - 1)
  {
  }

  lemma ReadsBackStep(u: nat, base: nat, n: nat)
    requires 2 <= base <= 16 && n > 0
    requires Parse(Field(DigitsUp(u / base, base), n - 1), base) == (u / base) % Pow(base, n - 1)
    ensures Parse(Field(DigitsUp(u, base), n), base) == u % Pow(base, n)
  {
    hide Field, DigitsUp, Parse, DigitValue, Digit, Pow;
    FieldLow(u, base, n);
    var p := Pow(base, n - 1);
    ParseAppend(Field(DigitsUp(u / base, base), n - 1), Digit(u % base), base);
    DigitReads(u % base);
    PowStep(base, n);
    ModStep(u, base, p);
    assert Pow(base, n) == base * p;
  }

  /** The `n` digits printed stand for the number modulo base^n. */
  lemma {:induction false} FieldReadsBack(u: nat, base: nat, n: nat)
    requires 2 <= base <= 16
    ensures Parse(Field(DigitsUp(u, base), n), base) == u % Pow(base, n)
  {
    if n == 0 {
      NoDigits(u, base);
    } else {
      FieldReadsBack(u / base, base, n - 1);
      ReadsBackStep(u, base, n);
    }
  }

  lemma NoDigits(u: nat, base: nat)
    requires 2 <= base <= 16
    ensures Parse(Field(DigitsUp(u, base), 0), base) == u % Pow(base, 0)
  {
  }

  lemma QuotientBound(u: nat, b: nat, p: nat)
    requires b > 0 && u / b < p
    ensures u < b * p
  {
    DivModParts(u, b);
    MulMonotone(b, u / b + 1, p);
    assert b * (u / b + 1) == b * (u / b) + b;
  }

  lemma {:induction false} DigitsSuffice(u: nat, base: nat)
    requires 2 <= base <= 16
    ensures u < Pow(base, |DigitsUp(u, base)|)
  {
    hide Pow, DigitsUp, Digit;
    if u > 0 {
      DigitsStep(u, base);
      DigitsSuffice(u / base, base);
      PowStep(base, |DigitsUp(u, base)|);
      QuotientBound(u, base, Pow(base, |DigitsUp(u / base, base)|));
    } else {
      NoMoreDigits(base);
      PowPositive(base, |DigitsUp(u, base)|);
    }
  }

  lemma PowPositive(base: nat, n: nat)
    requires base > 0
    ensures Pow(base, n) > 0
  {
  }

  /** What is printed for a number reads back as the number, in every base: always without a width, and
      with a width exactly when the number has no more digits than that. */
  lemma NumberReadsBack(u: nat, base: nat, width: nat)
    requires 2 <= base <= 16
    ensures var text := NumText(false, u, base, width);
            if width == 0 then Parse(text, base) == u
            else |text| == width && Parse(text, base) == u % Pow(base, width)
    ensures width > 0 ==> (Parse(NumText(false, u, base, width), base) == u <==> u < Pow(base, width))
    ensures NumText(true, u, base, width) == ['-'] + NumText(false, u, base, width)
  {
    ZeroReadsBack(base);
    SignInFront(u, base, width);
    FieldOfBuf(u, base, if width == 0 then |Buf(u, base)| else width);
    FieldReadsBack(u, base, if width == 0 then |Buf(u, base)| else width);
    DigitsSuffice(u, base);
    BufLength(u, base);
    hide Parse, Pow, DigitsUp, Field, NumText, Buf;
    SmallMod(u, Pow(base, if width == 0 then |Buf(u, base)| else width));
  }

  lemma BufLength(u: nat, base: nat)
    requires 2 <= base <= 16
    ensures u > 0 ==> Buf(u, base) == DigitsUp(u, base)
  {
  }

  lemma SignInFront(u: nat, base: nat, width: nat)
    requires 2 <= base <= 16
    ensures NumText(false, u, base, width) == Field(Buf(u, base), if width == 0 then |Buf(u, base)| else width)
    ensures NumText(true, u, base, width) == ['-'] + NumText(false, u, base, width)
  {
    assert [] + Field(Buf(u, base), if width == 0 then |Buf(u, base)| else width)
        == Field(Buf(u, base), if width == 0 then |Buf(u, base)| else width);
  }

  lemma ZeroReadsBack(base: nat)
    requires 2 <= base <= 16
    ensures Parse(Field(Buf(0, base), |Buf(0, base)|), base) == 0
  {
    assert Field(['0'], 1) == ['0'];
  }

  lemma SmallMod(u: nat, m: nat)
    requires m > 0
    ensures u % m == u <==> u < m
  {
  }

  /** Every conversion by its character: `%o` reads back in base 8, `%x` in base 16, `%u` in base 10, as the
      argument modulo 2^32, or 2^64 with two `l`; `%p` in base 16 and 8 digits; `%d` in base 10, with a sign
      for the arguments whose top bit is set. A width that is too small keeps the low digits. */
  lemma ConversionReadsBack(c: char, args: seq<Arg>, width: nat, longflag: nat)
    requires c in "doxup"
    ensures var text := Conversion(c, args, width, longflag);
            var m: nat := if longflag >= 2 && c != 'p' then 0x1_0000_0000_0000_0000 else 0x1_0000_0000;
            var base: nat := if c == 'o' then 8 else if c == 'd' || c == 'u' then 10 else 16;
            var u := NumOf(args) % m;
            var w := if c == 'p' then 8 else width;
            if c == 'd' && 2 * u >= m
            then text != [] && text[0] == '-' && Parse(text[1..], base) == (if w == 0 then m - u else (m - u) % Pow(base, w))
            else Parse(text, base) == if w == 0 then u else u % Pow(base, w)
  {
    hide Parse, Pow, NumText, DigitValue;
    var lf := if c == 'p' then 1 else longflag;
    var u := GetUint(args, lf);
    if c == 'd' {
      var val := GetInt(args, longflag);
      var a: nat := if val < 0 then -val else val;
      NumberReadsBack(a, 10, width);
      MinusInFront(NumText(false, a, 10, width));
    } else {
      NumberReadsBack(u, if c == 'o' then 8 else if c == 'u' then 10 else 16, if c == 'p' then 8 else width);
    }
  }

  lemma MinusInFront(s: string)
    ensures (['-'] + s)[0] == '-' && (['-'] + s)[1..] == s
  {
  }

  /** A string is printed as it is, then spaces up to the width. */
  lemma StringFirst(s: string, width: nat)
    ensures var text := StrText(s, width);
            && |text| == (if |s| < width then width else |s|) && text[..|s|] == s
            && forall i :: |s| <= i < |text| ==> text[i] == ' '
  {
    AllSpaces(if width > |s| then width - |s| else 0);
  }

  lemma {:induction false} AllSpaces(n: nat)
    ensures forall i :: 0 <= i < n ==> Spaces(n)[i] == ' '
  {
    if n > 0 { AllSpaces(n - 1); }
  }

  // ---------------------------------------------------------------- the bounded writer

  /** `str`, `size` and `pos`, with everything the macro set_ch was given so far. */
  class Writer {
    const str: array<char>
    const size: nat
    var pos: nat
    ghost const was: seq<char>
    ghost var out: string

    /** There is room for one more character; nothing from `pos` on has been written. */
    ghost predicate Open()
      reads this, str
    {
      && size <= str.Length == |was| && pos == |out| < size && str[..pos] == out
      && str[pos..] == was[pos..]
    }

    /** The buffer is full: the last character gave way to the terminator; nothing beyond was written. */
    ghost predicate Full()
      reads this, str
    {
      && 0 < size <= str.Length == |was| && |out| == size && str[..size - 1] == out[..size - 1]
      && str[size - 1] == NUL && str[size..] == was[size..]
    }

    constructor (str: array<char>, size: nat)
      requires 1 <= size <= str.Length
      ensures Open() && out == [] && this.str == str && this.size == size && was == str[..]
    {
      this.str, this.size, this.pos := str, size, 0;
      was, out := str[..], [];
    }

    /** The macro set_ch; `full` is its return from the function. */
    method SetCh(ch: char) returns (full: bool)
      requires Open()
      modifies this, str
      ensures out == old(out) + [ch] && (if full then Full() else Open())
    {
      str[pos] := ch;
      pos := pos + 1;
      out := out + [ch];
      if pos == size {
        str[size - 1] := NUL;
        return true;
      }
      return false;
    }

    /** Character by character, until the buffer is full. */
    method SetText(s: string) returns (full: bool)
      requires Open()
      modifies this, str
      ensures if full then Full() && out <= old(out) + s else Open() && out == old(out) + s
    {
      hide Open, Full;
      assert s[..0] == [];
      for i := 0 to |s|
        invariant Open() && out == old(out) + s[..i]
      {
        assert s[..i + 1] == s[..i] + [s[i]];
        full := SetCh(s[i]);
        if full {
          return;
        }
      }
      assert s[..|s|] == s;
      full := false;
    }

    /** The label print_uint: digits into a buffer, then out again from the highest. */
    method SetNumber(neg: bool, u: nat, base: nat, width: nat) returns (full: bool)
      requires Open() && u < 0x1_0000_0000_0000_0000 && 8 <= base <= 16
      modifies this, str
      ensures var text := NumText(neg, u, base, width);
              if full then Full() && out <= old(out) + text else Open() && out == old(out) + text
    {
      hide Open, Full, Field, Buf;
      var buf, bufPos := FillDigits(u, base);
      ghost var digits := buf[..bufPos];
      full := false;
      if neg {
        full := SetCh('-');
        if full { return; }
      }
      var n: nat := if width == 0 then bufPos else width;
      ghost var total := old(out) + NumText(neg, u, base, width);
      assert total == out + Field(digits, n);
      hide NumText;
      while n > 0
        invariant Open() && total == out + Field(digits, n) && buf[..bufPos] == digits
      {
        FieldStep(digits, n);
        n := n - 1;
        full := SetCh(if n >= bufPos then '0' else buf[n]);
        if full { return; }
      }
      FieldEnd(digits);
    }
  }

  /** The local array `buf[25]` of the formatter, filled lowest digit first and never overrun. */
  method FillDigits(u: nat, base: nat) returns (buf: array<char>, bufPos: nat)
    requires u < 0x1_0000_0000_0000_0000 && 8 <= base <= 16
    ensures fresh(buf) && buf.Length == 25 && bufPos <= 22 && buf[..bufPos] == Buf(u, base)
  {
    hide Digit, DigitsUp;
    DigitsFit(u, base, 22);
    buf := new char[25];
    bufPos := 0;
    var uval: nat := u;
    while uval > 0
      invariant bufPos <= 22 && DigitsUp(u, base) == buf[..bufPos] + DigitsUp(uval, base)
      decreases uval
    {
      DigitsStep(uval, base);
      ghost var done, rest := buf[..bufPos], DigitsUp(uval / base, base);
      buf[bufPos] := Digit(uval % base);
      bufPos, uval := bufPos + 1, uval / base;
      assert buf[..bufPos] + rest == done + ([buf[bufPos - 1]] + rest);
    }
    NoMoreDigits(base);
    if bufPos == 0 {
      buf[bufPos] := '0';
      bufPos := bufPos + 1;
      assert buf[..bufPos] == ['0'];
    }
  }

  lemma DigitsStep(u: nat, base: nat)
    requires 2 <= base <= 16 && u > 0
    ensures DigitsUp(u, base) == [Digit(u % base)] + DigitsUp(u / base, base) && u / base < u
  {
    QuotientShrinks(u, base);
    hide Digit;
  }

  lemma QuotientShrinks(u: nat, base: nat)
    requires 2 <= base && u > 0
    ensures u / base < u
  {
    DivModParts(u, base);
    MulMonotone(u / base, 2, base);
  }

  lemma NoMoreDigits(base: nat)
    requires 2 <= base <= 16
    ensures DigitsUp(0, base) == []
  {
  }

  lemma FieldStep(buf: string, n: nat)
    requires n > 0
    ensures Field(buf, n) == [if n - 1 >= |buf| then '0' else buf[n - 1]] + Field(buf, n - 1)
  {
  }

  lemma FieldEnd(buf: string)
    ensures Field(buf, 0) == []
  {
  }

  function Pow8(n: nat): nat {
    if n == 0 then 1 else 8 * Pow8(n - 1)
  }

  lemma {:induction false} DigitsBound(u: nat, base: nat, n: nat)
    requires 8 <= base <= 16 && u < Pow8(n)
    ensures |DigitsUp(u, base)| <= n
  {
    hide DigitsUp, Pow8, Digit;
    NoMoreDigits(base);
    Pow8Step(n);
    if u > 0 {
      DigitsStep(u, base);
      SmallerQuotient(u, base, Pow8(n - 1));
      DigitsBound(u / base, base, n - 1);
    }
  }

  lemma Pow8Step(n: nat)
    ensures Pow8(n) == if n == 0 then 1 else 8 * Pow8(n - 1)
  {
  }

  lemma SmallerQuotient(u: nat, base: nat, p: nat)
    requires 8 <= base && u < 8 * p
    ensures u / base < p
  {
    DivModParts(u, base);
    MulMonotone(base, p, u / base);
    MulMonotone(p, 8, base);
  }

  /** A 64-bit number has at most 22 digits in base 8 and up: `buf` is never overrun. */
  lemma DigitsFit(u: nat, base: nat, n: nat)
    requires 8 <= base <= 16 && u < 0x1_0000_0000_0000_0000 && n == 22
    ensures |DigitsUp(u, base)| <= n
  {
    assert Pow8(11) == 0x2_0000_0000;
    assert Pow8(22) == 0x4_0000_0000_0000_0000;
    DigitsBound(u, base, 22);
  }

  // ---------------------------------------------------------------- the format loop

  /** What is still to come is what the unbounded formatter says about the rest of the format. */
  ghost predicate Pending(total: string, out: string, rest: Option<string>) {
    rest.Some? && total == out + rest.value
  }

  lemma PendingThen(total: string, out: string, head: string, tail: Option<string>)
    requires Pending(total, out, Then(head, tail))
    ensures tail.Some? && out + head <= total && Pending(total, out + head, tail)
  {
    assert out + (head + tail.value) == (out + head) + tail.value;
  }

  /** The directive at `f` up to its conversion character: lengths, flags and width. */
  method ReadModifiers(f0: string, args: seq<Arg>, width0: nat, longflag0: nat) returns (f: string, width: nat, longflag: nat)
    requires Directive(f0, args, width0, longflag0).Some?
    ensures width0 <= MAX_WIDTH ==> width <= MAX_WIDTH
    ensures f != [] && |f| <= |f0| && f[0] != 'l' && !IsDigit(f[0])
    ensures Directive(f, args, width, longflag) == Directive(f0, args, width0, longflag0)
  {
    f, width, longflag := f0, width0, longflag0;
    while f[0] == 'l' || IsDigit(f[0])
      invariant f != [] && |f| <= |f0| && (width0 <= MAX_WIDTH ==> width <= MAX_WIDTH)
      invariant Directive(f, args, width, longflag) == Directive(f0, args, width0, longflag0)
      decreases |f|
    {
      if f[0] == 'l' {
        f, longflag := f[1..], longflag + 1;
      } else if f[0] == '0' {
        f := f[1..];
      } else {
        ghost var g, w := f, width;
        ReadWidthShrinks(f, width);
        while f != [] && IsDigit(f[0])
          invariant |f| <= |g| && ReadWidth(f, width) == ReadWidth(g, w) && ReadWidth(g, w).1 <= MAX_WIDTH
          invariant f != g ==> |f| < |g|
          decreases |f|
        {
          ReadWidthGrows(f[1..], width * 10 + (f[0] - '0') as nat);
          assert width * 10 + (f[0] - '0') as nat <= MAX_WIDTH;
          width := width * 10 + (f[0] - '0') as nat;
          f := f[1..];
        }
      }
    }
  }

  /** One directive, from behind its `%`. */
  method Directive1(o: Writer, f0: string, args0: seq<Arg>, width0: nat, longflag0: nat, ghost total: string)
    returns (full: bool, f: string, args: seq<Arg>, width: nat, longflag: nat)
    requires o.Open() && Pending(total, o.out, Directive(f0, args0, width0, longflag0))
    modifies o, o.str
    ensures full ==> o.Full() && o.out <= total
    ensures !full ==> o.Open() && |f| < |f0| && Pending(total, o.out, Ideal(f, args, width, longflag))
  {
    f, width, longflag := ReadModifiers(f0, args0, width0, longflag0);
    args := args0;
    hide Ideal, Pending, Then, Conversion, NumText, StrText, Writer.Open, Writer.Full;
    var ch := f[0];
    ghost var out0 := o.out;
    if ch in "doxup" {
      PendingThen(total, out0, Conversion(ch, args, width, longflag), Ideal(f[1..], Rest(args), 0, 0));
      full := Number(o, ch, args, width, longflag);
      args, longflag := Rest(args), 0;
    } else if ch == 'c' {
      PendingThen(total, out0, [CharOf(args)], Ideal(f[1..], Rest(args), 0, longflag));
      full := o.SetCh(CharOf(args));
      args := Rest(args);
    } else if ch == 's' {
      PendingThen(total, out0, StrText(StrOf(args), width), Ideal(f[1..], Rest(args), 0, longflag));
      full := Text(o, StrOf(args), width);
      args := Rest(args);
    } else if ch == '%' {
      PendingThen(total, out0, ['%'], Ideal(f[1..], args, 0, longflag));
      full := o.SetCh('%');
    } else {
      PendingThen(total, out0, ['%', ch], Ideal(f[1..], args, width, longflag));
      assert out0 + ['%'] + [ch] == out0 + ['%', ch];
      full := o.SetCh('%');
      if full { return; }
      full := o.SetCh(ch);
      f := f[1..];
      return;
    }
    width := 0;
    f := f[1..];
  }

  method Number(o: Writer, c: char, args: seq<Arg>, width: nat, longflag: nat) returns (full: bool)
    requires o.Open() && c in "doxup"
    modifies o, o.str
    ensures var text := Conversion(c, args, width, longflag);
            if full then o.Full() && o.out <= old(o.out) + text else o.Open() && o.out == old(o.out) + text
  {
    hide NumText, Writer.Open, Writer.Full;
    if c == 'd' {
      var val := GetInt(args, longflag);
      full := o.SetNumber(val < 0, if val < 0 then -val else val, 10, width);
    } else {
      var uval := GetUint(args, if c == 'p' then 1 else longflag);
      full := o.SetNumber(false, uval, BaseOf(c), if c == 'p' then 8 else width);
    }
  }

  method Text(o: Writer, s: string, width: nat) returns (full: bool)
    requires o.Open()
    modifies o, o.str
    ensures var text := StrText(s, width);
            if full then o.Full() && o.out <= old(o.out) + text else o.Open() && o.out == old(o.out) + text
  {
    hide Writer.Open, Writer.Full, Spaces;
    full := o.SetText(s);
    if full { return; }
    full := Pad(o, |s|, width);
  }

  /** Spaces from column `len0` up to `width`. */
  method Pad(o: Writer, len0: nat, width: nat) returns (full: bool)
    requires o.Open()
    modifies o, o.str
    ensures var text := Spaces(if width > len0 then width - len0 else 0);
            if full then o.Full() && o.out <= old(o.out) + text else o.Open() && o.out == old(o.out) + text
  {
    hide Writer.Open, Writer.Full, Spaces;
    var len := len0;
    ghost var n: nat := if width > len0 then width - len0 else 0;
    ghost var total := o.out + Spaces(n);
    while len < width
      invariant n == (if width > len then width - len else 0)
      invariant o.Open() && o.out + Spaces(n) == total
    {
      SpacesStep(n);
      full := o.SetCh(' ');
      if full { return; }
      len, n := len + 1, n - 1;
    }
    SpacesStep(0);
    full := false;
  }

  lemma SpacesStep(n: nat)
    ensures Spaces(n) == if n == 0 then [] else [' '] + Spaces(n - 1)
  {
  }

  /** For every format that does not end inside a directive and has no overflowing width, every argument
      list and every buffer: the buffer gets the first characters of the ideal output that fit and a
      terminator, and nothing beyond; the result is the length of the output when it and the terminator
      fit with room to spare, and `size` otherwise. */
  method Vsnprintf(str: array<char>, size: nat, fmt: string, args: seq<Arg>) returns (ret: nat)
    requires 1 <= size <= str.Length && Ideal(fmt, args, 0, 0).Some?
    modifies str
    ensures var t := Ideal(fmt, args, 0, 0).value;
            if |t| + 1 < size
            then ret == |t| && str[..ret] == t && str[ret] == NUL && str[ret + 1..] == old(str[ret + 1..])
            else ret == size && str[..size - 1] == t[..size - 1] && str[size - 1] == NUL && str[size..] == old(str[size..])
  {
    hide Pending, Then, Directive, Writer.Open, Writer.Full;
    ghost var total := Ideal(fmt, args, 0, 0).value;
    var o := new Writer(str, size);
    var f, ap, width: nat, longflag: nat := fmt, args, 0, 0;
    PendingStart(total, fmt, args);
    while f != []
      invariant o.Open() && o.str == str && o.size == size && o.was == old(str[..]) && fresh(o)
      invariant Pending(total, o.out, Ideal(f, ap, width, longflag))
      decreases |f|
    {
      var full;
      if f[0] == '%' {
        full, f, ap, width, longflag := Directive1(o, f[1..], ap, width, longflag, total);
      } else {
        PendingThen(total, o.out, [f[0]], Ideal(f[1..], ap, width, longflag));
        full := o.SetCh(f[0]);
        f := f[1..];
      }
      if full {
        WhenFull(o, total);
        return size;
      }
    }
    PendingEnd(total, o.out, ap, width, longflag);
    var full := o.SetCh(NUL);
    if full {
      LastCharacter(o, total);
      return size;
    }
    Terminated(o, total);
    ret := o.pos - 1;
  }

  lemma PendingStart(total: string, fmt: string, args: seq<Arg>)
    requires Ideal(fmt, args, 0, 0) == Some(total)
    ensures Pending(total, [], Ideal(fmt, args, 0, 0))
  {
  }

  lemma PendingEnd(total: string, out: string, args: seq<Arg>, width: nat, longflag: nat)
    requires Pending(total, out, Ideal([], args, width, longflag))
    ensures total == out
  {
  }

  lemma WhenFull(o: Writer, total: string)
    requires o.Full() && o.out <= total
    ensures |total| + 1 >= o.size && o.str[..o.size - 1] == total[..o.size - 1]
    ensures o.str[o.size - 1] == NUL && o.str[o.size..] == o.was[o.size..]
  {
  }

  lemma LastCharacter(o: Writer, total: string)
    requires o.Full() && o.out == total + [NUL]
    ensures |total| + 1 == o.size && o.str[..o.size - 1] == total[..o.size - 1]
    ensures o.str[o.size - 1] == NUL && o.str[o.size..] == o.was[o.size..]
  {
  }

  lemma Terminated(o: Writer, total: string)
    requires o.Open() && o.out == total + [NUL]
    ensures o.pos == |total| + 1 < o.size && o.str[..|total|] == total && o.str[|total|] == NUL
    ensures o.str[|total| + 1..] == o.was[|total| + 1..]
  {
    assert o.str[..|total|] == o.str[..o.pos][..|total|];
    assert o.str[|total|] == o.str[..o.pos][|total|];
  }
}
