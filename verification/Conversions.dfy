/** What a format prints, in the terms of section 7.21.6.1 of the C standard (ISO/IEC 9899:2011), and where the code
    departs from it. Only the text of a format and the bits of its arguments are spoken of. */
module Conversions {
  import opened Format

  // ---------------------------------------------------------------- directives as they are written

  /** A width or a precision: absent, in decimal, or taken from an argument. */
  datatype Amount = Absent | Decimal(digits: string) | Star

  datatype Directive = Directive(flags: string, width: Amount, precision: Amount, length: string, conversion: char)

  function Spelled(d: Directive): string {
    d.flags + SpelledWidth(d.width) + SpelledPrecision(d.precision) + d.length + [d.conversion]
  }
  function SpelledWidth(w: Amount): string {
    match w
    case Absent => ""
    case Decimal(s) => s
    case Star => "*"
  }
  function SpelledPrecision(p: Amount): string {
    match p
    case Absent => ""
    case Decimal(s) => "." + s
    case Star => ".*"
  }

  predicate DigitsOnly(s: string) { forall i :: 0 <= i < |s| ==> IsDigit(s[i]) }

  /** A width does not start with a zero, which is a flag; a precision can be a dot alone. */
  predicate Correct(d: Directive) {
    && (forall i :: 0 <= i < |d.flags| ==> d.flags[i] in "0-+ #")
    && (d.width.Decimal? ==> d.width.digits != "" && d.width.digits[0] != '0' && DigitsOnly(d.width.digits))
    && (d.precision.Decimal? ==> DigitsOnly(d.precision.digits))
    && d.length in {"", "h", "hh", "l", "ll", "j", "z", "t"}
    && d.conversion !in "0123456789-+ #*.hljzt"
  }

  function Stars(d: Directive): nat { (if d.width.Star? then 1 else 0) + (if d.precision.Star? then 1 else 0) }

  /** The arguments are there: a number for each star, and one for the conversion. */
  predicate Supplied(d: Directive, args: seq<Arg>) {
    && |args| >= Stars(d) && (forall i :: 0 <= i < Stars(d) ==> args[i].Num?)
    && (d.conversion in "diuxXobcp" ==> |args| > Stars(d) && args[Stars(d)].Num?)
    && (d.conversion == 's' ==> |args| > Stars(d) && args[Stars(d)].Text? && '\0' !in args[Stars(d)].s)
  }

  /** The arguments left behind the directive. */
  function Behind(d: Directive, args: seq<Arg>): seq<Arg>
    requires Supplied(d, args)
  {
    args[Stars(d) + if d.conversion in "diuxXobcsp" then 1 else 0..]
  }

  // ---------------------------------------------------------------- numbers in arguments

  function TwoTo(size: int): int
    requires size in {8, 16, 32, 64}
  {
    if size == 8 then 0x100 else if size == 16 then 0x1_0000 else if size == 32 then 0x1_0000_0000
    else 0x1_0000_0000_0000_0000
  }

  /** The top bit of the low `size` bits. */
  predicate TopBit(bits: nat, size: int)
    requires size in {8, 16, 32, 64}
  {
    bits / (TwoTo(size) / 2) % 2 == 1
  }

  /** The low bits in two's complement. */
  function TwosComplement(bits: nat, size: int): int
    requires size in {8, 16, 32, 64}
  {
    bits % TwoTo(size) - if TopBit(bits, size) then TwoTo(size) else 0
  }

  lemma SignedOf(bits: nat, size: int)
    requires size in {16, 32, 64}
    ensures ToSigned(bits, size) == TwosComplement(bits, size)
    ensures ToSigned(bits, size) < 0 <==> TopBit(bits, size)
    ensures -TwoTo(size) < ToSigned(bits, size) < TwoTo(size)
  {
    TopHalf(bits, TwoTo(size) / 2);
  }

  lemma TopHalf(bits: nat, half: int)
    requires half > 0
    ensures bits / half % 2 == 1 <==> bits % (2 * half) >= half
  {
    var q, r := bits / half, bits % half;
    assert bits == half * q + r && 0 <= r < half;
    var k := q / 2;
    if q % 2 == 1 {
      assert bits == 2 * half * k + (half + r) by { assert half * q == half * (2 * k) + half; }
      QuotientUnique(bits, 2 * half, k, half + r);
    } else {
      assert bits == 2 * half * k + r by { assert half * q == half * (2 * k); }
      QuotientUnique(bits, 2 * half, k, r);
    }
  }

  // ---------------------------------------------------------------- width, precision, sign

  function WidthOf(d: Directive, args: seq<Arg>): nat
    requires Supplied(d, args)
  {
    match d.width
    case Absent => 0
    case Decimal(s) => Read(s, 10) % 0x1_0000_0000
    case Star => var w := TwosComplement(args[0].bits, 32); if w < 0 then -w else w
  }

  /** '-' or a negative width from an argument. */
  predicate AtLeft(d: Directive, args: seq<Arg>)
    requires Supplied(d, args)
  {
    '-' in d.flags || (d.width.Star? && TopBit(args[0].bits, 32))
  }

  function NotNegative(v: int): nat { if v < 0 then 0 else v }

  /** A negative precision from an argument counts as zero, where the standard has it as absent. */
  function PrecisionIn(w: Amount, args: seq<Arg>): nat
    requires w.Star? ==> HasNum(args)
  {
    match w
    case Absent => 0
    case Decimal(s) => Read(s, 10) % 0x1_0000_0000
    case Star => NotNegative(TwosComplement(args[0].bits, 32))
  }

  function PrecisionOf(d: Directive, args: seq<Arg>): nat
    requires Supplied(d, args)
  {
    PrecisionIn(d.precision, args[if d.width.Star? then 1 else 0..])
  }

  /** The flags as they end up for the conversion. */
  function FlagsRead(d: Directive, args: seq<Arg>): Flags
    requires Supplied(d, args)
  {
    Flags('0' in d.flags, AtLeft(d, args), '+' in d.flags, ' ' in d.flags, '#' in d.flags, false, d.length == "hh",
          d.length in {"h", "hh"}, d.length in {"l", "ll", "j", "z", "t"}, d.length == "ll", !d.precision.Absent?)
  }

  // ---------------------------------------------------------------- reading a directive

  /** The flags with those of `s` added. */
  function Collected(s: string, f: Flags): Flags {
    f.(zeropad := f.zeropad || '0' in s, left := f.left || '-' in s, plus := f.plus || '+' in s,
       space := f.space || ' ' in s, hash := f.hash || '#' in s)
  }

  lemma {:induction false} FlagsCollected(s: string, f: Flags)
    requires forall i :: 0 <= i < |s| ==> s[i] in "0-+ #"
    ensures FlagsOf(s, f) == Collected(s, f)
  {
    hide Collected, AddFlag;
    if s == [] {
      CollectNone(f);
    } else {
      FlagsCollected(s[1..], AddFlag(f, s[0]));
      CollectOne(s[0], s[1..], f);
      assert s == [s[0]] + s[1..];
    }
  }

  lemma CollectNone(f: Flags)
    ensures Collected("", f) == f
  {
  }

  lemma CollectOne(c: char, t: string, f: Flags)
    requires c == '0' || c == '-' || c == '+' || c == ' ' || c == '#'
    ensures Collected([c] + t, f) == Collected(t, AddFlag(f, c))
  {
    InFront('0', c, t);
    InFront('-', c, t);
    InFront('+', c, t);
    InFront(' ', c, t);
    InFront('#', c, t);
  }

  lemma InFront(x: char, c: char, t: string)
    ensures x in [c] + t <==> x == c || x in t
  {
  }

  lemma {:induction false} FlagRunOf(s: string, u: string)
    requires forall i :: 0 <= i < |s| ==> IsFlag(s[i])
    requires u != [] && !IsFlag(u[0])
    ensures FlagRun(s + u) == |s|
  {
    if s == [] {
      assert s + u == u;
    } else {
      FlagRunOf(s[1..], u);
      assert (s + u)[1..] == s[1..] + u;
    }
  }

  lemma {:induction false} DigitRunOf(s: string, u: string)
    requires DigitsOnly(s) && u != [] && !IsDigit(u[0])
    ensures DigitRun(s + u) == |s|
  {
    if s == [] {
      assert s + u == u;
    } else {
      DigitRunOf(s[1..], u);
      assert (s + u)[1..] == s[1..] + u;
    }
  }

  lemma FlagsAreRead(s: string, u: string, args: seq<Arg>)
    requires forall i :: 0 <= i < |s| ==> s[i] in "0-+ #"
    requires u != [] && u[0] !in "0-+ #"
    ensures ParseFlags(s + u, args)
         == Parsed(Collected(s, NO_FLAGS), 0, 0, u, args)
  {
    hide FlagsOf, FlagRun, Collected;
    FlagRunOf(s, u);
    FlagsCollected(s, NO_FLAGS);
    assert (s + u)[..|s|] == s && (s + u)[|s|..] == u;
  }

  lemma ReadNumber(s: string, u: string)
    requires DigitsOnly(s) && u != [] && !IsDigit(u[0])
    ensures DigitRun(s + u) == |s| && (s + u)[..|s|] == s && (s + u)[|s|..] == u
    ensures Atoi(s) == Read(s, 10) % 0x1_0000_0000
  {
    hide DigitRun, Atoi, Read;
    DigitRunOf(s, u);
    AtoiReads(s);
  }

  lemma ReadWidth(p: Parsed, w: Amount, u: string)
    requires p.rest == SpelledWidth(w) + u && u != [] && u[0] !in "0123456789*"
    requires w.Decimal? ==> w.digits != "" && DigitsOnly(w.digits)
    requires w.Star? ==> HasNum(p.args)
    ensures ParseWidth(p) ==
      match w
      case Absent => p.(rest := u)
      case Decimal(s) => p.(width := Read(s, 10) % 0x1_0000_0000, rest := u)
      case Star => p.(width := Abs(TwosComplement(p.args[0].bits, 32)),
                      f := p.f.(left := p.f.left || TopBit(p.args[0].bits, 32)), rest := u, args := p.args[1..])
  {
    hide DigitRun, Atoi, Read, ToSigned, TwosComplement, TopBit;
    match w
    case Decimal(s) => ReadNumber(s, u);
    case Absent => ReadNumber("", u); assert "" + u == u;
    case Star =>
      assert p.rest[0] == '*' && p.rest[1..] == u;
      ReadNumber("", p.rest);
      assert "" + p.rest == p.rest;
      SignedOf(p.args[0].bits, 32);
      assert p.f.(left := p.f.left) == p.f;
  }

  function WithPrecision(f: Flags, w: Amount): Flags { f.(precision := f.precision || !w.Absent?) }

  lemma ReadPrecision(p: Parsed, w: Amount, u: string)
    requires p.rest == SpelledPrecision(w) + u && u != [] && u[0] !in "0123456789*."
    requires (w.Decimal? ==> DigitsOnly(w.digits)) && (w.Star? ==> HasNum(p.args)) && p.prec == 0
    ensures ParsePrecision(p) == p.(rest := u, f := WithPrecision(p.f, w), prec := PrecisionIn(w, p.args),
      args := p.args[if w.Star? then 1 else 0..])
  {
    hide ParsePrecision, Read, TwosComplement, NotNegative;
    match w
    case Absent => NoPrecision(p); assert p.rest == u && p.f.(precision := p.f.precision) == p.f;
    case Decimal(s) => assert "." + s + u == "." + (s + u); DecimalPrecision(p, s, u);
    case Star => assert ".*" + u == "." + ("*" + u); StarPrecision(p, u);
  }

  lemma NoPrecision(p: Parsed)
    requires p.rest != [] && p.rest[0] != '.'
    ensures ParsePrecision(p) == p
  {
  }

  lemma DecimalPrecision(p: Parsed, s: string, u: string)
    requires p.rest == "." + (s + u) && p.prec == 0 && DigitsOnly(s) && u != [] && u[0] !in "0123456789*"
    ensures ParsePrecision(p)
         == p.(f := p.f.(precision := true), prec := Read(s, 10) % 0x1_0000_0000, rest := u)
  {
    hide DigitRun, Atoi, Read;
    assert p.rest[0] == '.' && p.rest[1..] == s + u;
    ReadNumber(s, u);
    EmptyReads();
    assert s == [] ==> s + u == u;
  }

  lemma StarPrecision(p: Parsed, u: string)
    requires p.rest == "." + ("*" + u) && HasNum(p.args)
    ensures ParsePrecision(p) == p.(f := p.f.(precision := true), rest := u, args := p.args[1..],
                                    prec := NotNegative(TwosComplement(p.args[0].bits, 32)))
  {
    hide DigitRun, Atoi, ToSigned, TwosComplement;
    var v := "*" + u;
    assert p.rest[0] == '.' && p.rest[1..] == v && v[0] == '*' && v[1..] == u;
    ReadNumber("", v);
    assert "" + v == v;
    SignedOf(p.args[0].bits, 32);
  }

  lemma EmptyReads()
    ensures Read("", 10) == 0
  {
  }

  function WithLength(f: Flags, length: string): Flags {
    f.(chr := f.chr || length == "hh", short := f.short || length == "h" || length == "hh",
       long := f.long || length in {"l", "ll", "j", "z", "t"}, longLong := f.longLong || length == "ll")
  }

  lemma ReadLength(p: Parsed, length: string, u: string)
    requires p.rest == length + u && length in {"", "h", "hh", "l", "ll", "j", "z", "t"}
    requires u != [] && u[0] !in "hljzt"
    ensures ParseLength(p) == p.(rest := u, f := WithLength(p.f, length))
  {
    if length != "" {
      assert p.rest[0] == length[0] && p.rest[1..] == length[1..] + u;
      assert length[1..] == [] || length[1..] == [length[1]];
      assert |length| == 2 ==> p.rest[1..][0] == length[1] && p.rest[2..] == u;
      assert |length| == 1 ==> p.rest[1..] == u;
    } else {
      assert p.rest == u;
    }
  }

  /** The code reads a directive as it is written. */
  lemma DirectiveRead(d: Directive, rest: string, args: seq<Arg>)
    requires Correct(d) && Supplied(d, args)
    ensures StarsFilled(Spelled(d) + rest, args)
    ensures Parse(Spelled(d) + rest, args)
         == Parsed(FlagsRead(d, args), WidthOf(d, args), PrecisionOf(d, args), [d.conversion] + rest, args[Stars(d)..])
  {
    hide ParseFlags, ParseWidth, ParsePrecision, ParseLength, FlagsRead, WidthFlags, WidthOf, PrecisionOf, StarsFilled;
    var u3 := d.length + ([d.conversion] + rest);
    var u2 := SpelledPrecision(d.precision) + u3;
    var u1 := SpelledWidth(d.width) + u2;
    assert Spelled(d) + rest == d.flags + u1;
    FirstBehind(d, rest);
    FrontRead(d, u1, u2, u3, args);
    BackRead(d, ParseWidth(ParseFlags(d.flags + u1, args)), rest, args);
  }

  lemma FirstBehind(d: Directive, rest: string)
    requires Correct(d)
    ensures var c := (d.length + ([d.conversion] + rest))[0]; c !in "0123456789-+ #*."
  {
    assert d.length != "" ==> (d.length + ([d.conversion] + rest))[0] == d.length[0];
  }

  lemma BackRead(d: Directive, p: Parsed, rest: string, args: seq<Arg>)
    requires Correct(d) && Supplied(d, args)
    requires p == Parsed(WidthFlags(d, args), WidthOf(d, args), 0,
                         SpelledPrecision(d.precision) + (d.length + ([d.conversion] + rest)),
                         args[if d.width.Star? then 1 else 0..])
    ensures ParseLength(ParsePrecision(p))
         == Parsed(FlagsRead(d, args), WidthOf(d, args), PrecisionOf(d, args), [d.conversion] + rest, args[Stars(d)..])
  {
    hide ParsePrecision, ParseLength, WidthOf, PrecisionIn, FlagsRead, WidthFlags, WithPrecision, WithLength;
    FirstBehind(d, rest);
    ReadPrecision(p, d.precision, d.length + ([d.conversion] + rest));
    ReadLength(ParsePrecision(p), d.length, [d.conversion] + rest);
    FlagsGathered(d, args);
  }

  lemma FlagsGathered(d: Directive, args: seq<Arg>)
    requires Supplied(d, args)
    ensures FlagsRead(d, args) == WithLength(WithPrecision(WidthFlags(d, args), d.precision), d.length)
  {
    hide AtLeft;
  }

  lemma FrontRead(d: Directive, u1: string, u2: string, u3: string, args: seq<Arg>)
    requires Correct(d) && Supplied(d, args) && u3 != [] && u3[0] !in "0123456789-+ #*."
    requires u2 == SpelledPrecision(d.precision) + u3 && u1 == SpelledWidth(d.width) + u2
    ensures StarsFilled(d.flags + u1, args)
    ensures ParseWidth(ParseFlags(d.flags + u1, args)) == Parsed(WidthFlags(d, args), WidthOf(d, args), 0, u2,
                                                          args[if d.width.Star? then 1 else 0..])
  {
    hide ParseFlags, ParseWidth, Read, TwosComplement, TopBit;
    assert u2[0] == '.' || u2[0] == u3[0];
    FlagsAreRead(d.flags, u1, args);
    ReadWidth(ParseFlags(d.flags + u1, args), d.width, u2);
  }

  /** The flags as they are behind the width. */
  function WidthFlags(d: Directive, args: seq<Arg>): Flags
    requires Supplied(d, args)
  {
    Collected(d.flags, NO_FLAGS).(left := AtLeft(d, args))
  }

  // ---------------------------------------------------------------- the text of a number

  predicate Blank(s: string) { forall i :: 0 <= i < |s| ==> s[i] == ' ' }

  /** `t` is `s` in a field of `width` characters, at its left or its right end. */
  predicate Justified(t: string, s: string, width: nat, left: bool) {
    && |t| == Max(width, |s|)
    && (if left then t[..|s|] == s && Blank(t[|s|..]) else t[|t| - |s|..] == s && Blank(t[..|t| - |s|]))
  }

  predicate IsDigitIn(c: char, base: int, upper: bool) {
    || ('0' <= c <= '9' && c as int - '0' as int < base)
    || (base == 16 && if upper then 'A' <= c <= 'F' else 'a' <= c <= 'f')
  }

  /** At least `least` digits, as far as 32 characters go, with no more zeros in front than that takes. A 64-bit
      number can only need more than 32 in base 2. */
  predicate Numeral(s: string, m: nat, base: int, upper: bool, least: int) {
    && (forall i :: 0 <= i < |s| ==> IsDigitIn(s[i], base, upper))
    && Read(s, base) == m
    && |s| <= 32 && (|s| >= least || |s| == 32) && (|s| == 32 ==> least >= 32 || base == 2)
    && (0 < |s| < 32 && least < |s| ==> s[0] != '0')
  }

  /** The sign is left out when the digits fill all 32 characters. */
  function WithSign(sign: string, s: string): string { if |s| < 32 then sign + s else s }

  ghost predicate NumberText(t: string, sign: string, m: nat, base: int, upper: bool, least: int, width: nat,
                             left: bool) {
    exists s: string :: Numeral(s, m, base, upper, least) && Justified(t, WithSign(sign, s), width, left)
  }

  /** How many digits there are at least: one, or what the precision or zero padding asks for. With '-' neither the
      precision nor zero padding counts; a precision then still makes a zero empty. */
  function LeastDigits(precision: bool, prec: nat, zeros: bool, width: int, left: bool): int {
    if left then (if precision then 0 else 1)
    else Max(if precision then prec else 1, if zeros then width else 0)
  }

  lemma {:induction false} SpacesBlank(n: int)
    ensures Blank(Spaces(n))
  {
    if n > 0 {
      SpacesBlank(n - 1);
    }
  }

  lemma {:induction false} DigitsIn(value: nat, base: int, upper: bool, room: nat)
    requires IsBase(base) && room > 0
    ensures forall i :: 0 <= i < |Digits(value, base, upper, room)| ==>
      IsDigitIn(Digits(value, base, upper, room)[i], base, upper)
    decreases room
  {
    hide DigitChar, IsDigitIn;
    DigitIsChar(value % base, base, upper);
    if value / base > 0 && room > 1 {
      DigitsIn(value / base, base, upper, room - 1);
    }
  }

  lemma DigitIsChar(d: int, base: int, upper: bool)
    requires IsBase(base) && 0 <= d < base
    ensures IsDigitIn(DigitChar(d, upper), base, upper) && (DigitChar(d, upper) == '0' <==> d == 0)
  {
  }

  /** Fewer digits than there is room for: no zero in front. */
  lemma {:induction false} NoZeroInFront(value: nat, base: int, upper: bool, room: nat)
    requires IsBase(base) && room > 0 && value > 0 && |Digits(value, base, upper, room)| < room
    ensures var s := Digits(value, base, upper, room); s[|s| - 1] != '0'
    decreases room
  {
    hide DigitChar, IsDigitIn;
    if value / base > 0 && room > 1 {
      NoZeroInFront(value / base, base, upper, room - 1);
    } else {
      SmallMod(value, base);
      DigitIsChar(value, base, upper);
    }
  }

  lemma DigitsOfNumber(value: nat, base: int, f: Flags)
    requires IsBase(base)
    ensures var s := DigitsFor(value, base, f);
      && (forall i :: 0 <= i < |s| ==> IsDigitIn(s[i], base, f.upper))
      && (s == [] <==> f.precision && value == 0)
      && (1 < |s| < 32 || (|s| == 1 && f.precision) ==> s[|s| - 1] != '0')
  {
    hide Digits, DigitChar, IsDigitIn;
    if value > 0 && |Digits(value, base, f.upper, SCRATCH)| < 32 {
      NoZeroInFront(value, base, f.upper, SCRATCH);
    }
    DigitsIn(value, base, f.upper, SCRATCH);
    if value == 0 {
      ZeroDigits(base, f.upper);
    }
  }

  lemma ZeroDigits(base: int, upper: bool)
    requires IsBase(base)
    ensures |Digits(0, base, upper, SCRATCH)| == 1
  {
  }

  lemma PaddedDigits(s: string, negative: bool, prec: nat, width: nat, f: Flags)
    requires |s| <= SCRATCH
    ensures var r, w := Padded(s, negative, prec, width, f), ZeroWidth(negative, width, f);
      && |s| <= |r| && r[..|s|] == s && (forall i :: |s| <= i < |r| ==> r[i] == '0')
      && |r| == Max(|s|, if f.left then 0 else Min32(Max(prec, if f.zeropad then w else 0)))
  {
    hide PadZeros, ZeroWidth;
    var p, w := PadZeros(s, prec), ZeroWidth(negative, width, f);
    AppendedZeros(s, prec);
    PadZerosLength(s, prec);
    if !f.left && f.zeropad {
      AppendedZeros(p, w);
      PadZerosLength(p, w);
      assert PadZeros(p, w)[..|s|] == PadZeros(p, w)[..|p|][..|s|];
      assert forall i :: |s| <= i < |p| ==> PadZeros(p, w)[i] == PadZeros(p, w)[..|p|][i];
    }
  }

  function Min32(n: int): int { if n < 32 then n else 32 }

  /** Below 2^64 no base but 2 takes more than 22 digits. */
  lemma AtMost22(value: nat, base: int, f: Flags)
    requires IsBase(base) && base != 2 && value < 0x1_0000_0000_0000_0000
    ensures |DigitsFor(value, base, f)| <= 22
  {
    hide Pow, Digits;
    PowGrows(base, 22);
    PowOf8();
    FewDigits(value, base, f.upper, SCRATCH, 22);
  }

  lemma NumeralPrinted(value: nat, negative: bool, base: int, prec: nat, width: nat, f: Flags)
    requires IsBase(base) && (f.precision || prec == 0) && value < 0x1_0000_0000_0000_0000
    ensures Numeral(Body(value, negative, base, prec, width, f), value % Pow(base, 32), base, f.upper,
                    LeastDigits(f.precision, prec, f.zeropad, ZeroWidth(negative, width, f), f.left))
  {
    hide Pow, Digits, DigitsFor, Padded, ZeroWidth, Read, Reverse, IsDigitIn;
    var s := DigitsFor(value, base, f);
    var r := Padded(s, negative, prec, width, f);
    DigitsOfNumber(value, base, f);
    PaddedDigits(s, negative, prec, width, f);
    if base != 2 {
      AtMost22(value, base, f);
    }
    BodyDenotes(value, negative, base, prec, width, f);
    ZeroIsDigit(base, f.upper);
    forall i | 0 <= i < |r|
      ensures IsDigitIn(Reverse(r)[i], base, f.upper)
    {
      ReverseAt(r, i);
      assert |r| - 1 - i < |s| ==> r[|r| - 1 - i] == s[|r| - 1 - i];
    }
    if r != [] {
      ReverseAt(r, 0);
    }
  }

  lemma ZeroIsDigit(base: int, upper: bool)
    requires IsBase(base)
    ensures IsDigitIn('0', base, upper)
  {
  }

  /** A number without '#' is its sign and digits in a field, or takes the field with zeros. */
  lemma NumberPrinted(value: nat, negative: bool, base: int, prec: nat, width: nat, f: Flags)
    requires IsBase(base) && !f.hash && (f.precision || prec == 0) && value < 0x1_0000_0000_0000_0000
    ensures var sign := SignText(negative, f);
      NumberText(Ntoa(value, negative, base, prec, width, f), sign, value % Pow(base, 32), base, f.upper,
                 LeastDigits(f.precision, prec, f.zeropad && !f.left, width - |sign|, f.left),
                 if f.zeropad && !f.left then 0 else width, f.left)
  {
    hide Pow, Ntoa, Body, Numeral, Justified, Spaces, SignText, ZeroWidth;
    var body, sign := Body(value, negative, base, prec, width, f), SignText(negative, f);
    NumeralPrinted(value, negative, base, prec, width, f);
    NumberShape(value, negative, base, prec, width, f);
    SignLength(negative, width, f);
    var t := (if |body| < 32 then sign else "") + body;
    assert t == WithSign(sign, body);
    FieldOf(Ntoa(value, negative, base, prec, width, f), t, negative, width, f);
  }

  lemma FieldOf(out: string, t: string, negative: bool, width: nat, f: Flags)
    requires var spaces := Spaces(ZeroWidth(negative, width, f) - |t|);
      out == (if !f.left && !f.zeropad then spaces else []) + t + (if f.left then spaces else [])
    ensures Justified(out, t, if f.zeropad && !f.left then 0 else width, f.left)
  {
    hide Justified, Spaces, ZeroWidth;
    SignLength(negative, width, f);
    InField(t, width);
    var spaces := Spaces(width - |t|);
    assert [] + t == t && t + [] == t && spaces + t + [] == spaces + t;
  }

  lemma SignLength(negative: bool, width: nat, f: Flags)
    ensures var w := width - |SignText(negative, f)|;
      && (f.zeropad && !f.left && width > 0 ==> ZeroWidth(negative, width, f) == w)
      && (f.left || !f.zeropad || width == 0 ==> ZeroWidth(negative, width, f) == width)
  {
  }

  lemma InField(s: string, width: nat)
    ensures var spaces := Spaces(width - |s|);
      Justified(s + spaces, s, width, true) && Justified(spaces + s, s, width, false) && Justified(s, s, 0, false)
  {
    hide Spaces;
    var spaces := Spaces(width - |s|);
    SpacesBlank(width - |s|);
    assert (s + spaces)[..|s|] == s && (s + spaces)[|s|..] == spaces;
    assert (spaces + s)[|spaces|..] == s && (spaces + s)[..|spaces|] == spaces;
  }

  // ---------------------------------------------------------------- directives

  /** What a directive prints by itself. */
  function Printed(d: Directive, args: seq<Arg>): string
    requires WellFormed("%" + Spelled(d), args)
  {
    Full("%" + Spelled(d), args)
  }

  /** A directive is printed the same way in front of any format, which gets the arguments left. */
  lemma DirectiveApart(d: Directive, rest: string, args: seq<Arg>)
    requires Correct(d) && Supplied(d, args) && WellFormed(rest, Behind(d, args))
    ensures WellFormed("%" + Spelled(d), args) && WellFormed("%" + Spelled(d) + rest, args)
    ensures Full("%" + Spelled(d) + rest, args) == Printed(d, args) + Full(rest, Behind(d, args))
  {
    hide Spelled, Parse, Convert, StarsFilled, CanConvert, Behind;
    Converts(d, "", args);
    Converts(d, rest, args);
    assert Spelled(d) + "" == Spelled(d);
    assert "%" + Spelled(d) + rest == "%" + (Spelled(d) + rest);
    EmptyFormat(Behind(d, args));
    Unfold(Spelled(d), args);
    Unfold(Spelled(d) + rest, args);
  }

  lemma EmptyFormat(args: seq<Arg>)
    ensures WellFormed("", args) && Full("", args) == ""
  {
  }

  lemma Unfold(fmt: string, args: seq<Arg>)
    requires StarsFilled(fmt, args) && Parse(fmt, args).rest != [] && CanConvert(Parse(fmt, args))
    requires WellFormed(Parse(fmt, args).rest[1..], Convert(Parse(fmt, args)).1)
    ensures WellFormed("%" + fmt, args)
    ensures var p := Parse(fmt, args); Full("%" + fmt, args) == Convert(p).0 + Full(p.rest[1..], Convert(p).1)
  {
    hide Parse, Convert, StarsFilled, CanConvert;
    assert ("%" + fmt)[1..] == fmt;
  }

  /** The directive as the conversion gets it. */
  function AsRead(d: Directive, rest: string, args: seq<Arg>): Parsed
    requires Supplied(d, args)
  {
    Parsed(FlagsRead(d, args), WidthOf(d, args), PrecisionOf(d, args), [d.conversion] + rest, args[Stars(d)..])
  }

  lemma Converts(d: Directive, rest: string, args: seq<Arg>)
    requires Correct(d) && Supplied(d, args)
    ensures var p := AsRead(d, rest, args);
      && StarsFilled(Spelled(d) + rest, args) && Parse(Spelled(d) + rest, args) == p
      && p.rest[1..] == rest && CanConvert(p) && Convert(p).1 == Behind(d, args)
      && Convert(p).0 == Convert(AsRead(d, "", args)).0
  {
    hide Ntoa, ValueOf, FlagsRead, WidthOf, PrecisionOf, StarsFilled, Parse, IntegerFlags;
    DirectiveRead(d, rest, args);
    assert ([d.conversion] + rest)[1..] == rest;
  }

  /** Characters other than '%' are printed as they are. */
  lemma {:induction false} TextPrinted(text: string, rest: string, args: seq<Arg>)
    requires '%' !in text && WellFormed(rest, args)
    ensures WellFormed(text + rest, args) && Full(text + rest, args) == text + Full(rest, args)
  {
    hide Full, WellFormed;
    if text == "" {
      assert text + rest == rest;
    } else {
      TextPrinted(text[1..], rest, args);
      CharacterPrinted(text[0], text[1..] + rest, args);
      assert text == [text[0]] + text[1..];
      assert [text[0]] + (text[1..] + rest) == text + rest;
    }
  }

  lemma CharacterPrinted(c: char, rest: string, args: seq<Arg>)
    requires c != '%' && WellFormed(rest, args)
    ensures WellFormed([c] + rest, args) && Full([c] + rest, args) == [c] + Full(rest, args)
  {
    hide Parse, Convert, StarsFilled, CanConvert;
    assert ([c] + rest)[1..] == rest;
  }

  lemma PrintedIs(d: Directive, args: seq<Arg>)
    requires Correct(d) && Supplied(d, args)
    ensures WellFormed("%" + Spelled(d), args) && CanConvert(AsRead(d, "", args))
    ensures Printed(d, args) == Convert(AsRead(d, "", args)).0
  {
    hide Spelled, Parse, Convert, StarsFilled, CanConvert, Behind;
    Converts(d, "", args);
    assert Spelled(d) + "" == Spelled(d);
    EmptyFormat(Behind(d, args));
    Unfold(Spelled(d), args);
  }

  // ---------------------------------------------------------------- integers

  /** The bits that a conversion takes of its argument. */
  function BitsTaken(length: string): (size: int)
    ensures size in {8, 16, 32, 64}
  {
    match length
    case "" => 32
    case "h" => 16
    case "hh" => 8
    case _ => 64
  }

  /** The number in the argument. With hh it is of type char, which has no sign here. */
  function NumberIn(d: Directive, args: seq<Arg>): int
    requires Supplied(d, args) && d.conversion in "diuxXob"
  {
    var bits := args[Stars(d)].bits;
    if d.conversion in "di" && d.length != "hh" then TwosComplement(bits, BitsTaken(d.length))
    else bits % TwoTo(BitsTaken(d.length))
  }

  /** Where the code departs from the standard here: in base 2 only 32 digits are printed. */
  function Magnitude(d: Directive, args: seq<Arg>): nat
    requires Supplied(d, args) && d.conversion in "diuxXob"
  {
    if d.conversion == 'b' then Abs(NumberIn(d, args)) % 0x1_0000_0000 else Abs(NumberIn(d, args))
  }

  function Base(conversion: char): int {
    match conversion
    case 'x' => 16
    case 'X' => 16
    case 'o' => 8
    case 'b' => 2
    case _ => 10
  }

  function Sign(d: Directive, args: seq<Arg>): string
    requires Supplied(d, args) && d.conversion in "diuxXob"
  {
    if NumberIn(d, args) < 0 then "-"
    else if d.conversion in "di" then (if '+' in d.flags then "+" else if ' ' in d.flags then " " else "")
    else ""
  }

  /** '0' counts without '-' and without a precision. */
  predicate ZeroPadded(d: Directive, args: seq<Arg>)
    requires Supplied(d, args)
  {
    '0' in d.flags && !AtLeft(d, args) && d.precision.Absent?
  }

  /** '#' is for the bases other than ten, and for numbers other than zero. */
  predicate Prefixed(d: Directive, args: seq<Arg>)
    requires Supplied(d, args) && d.conversion in "diuxXob"
  {
    '#' in d.flags && d.conversion in "xXob" && NumberIn(d, args) != 0
  }

  /** `t` is the number, with its sign, digits and field as the directive asks for. */
  ghost predicate IntegerField(t: string, d: Directive, args: seq<Arg>)
    requires Supplied(d, args) && d.conversion in "diuxXob"
  {
    var sign, width, zeros, left := Sign(d, args), WidthOf(d, args), ZeroPadded(d, args), AtLeft(d, args);
    NumberText(t, sign, Magnitude(d, args), Base(d.conversion), d.conversion == 'X',
               LeastDigits(!d.precision.Absent?, PrecisionOf(d, args), zeros, width - |sign|, left),
               if zeros then 0 else width, left)
  }

  /** An integer is printed as the standard says, but for what LeastDigits, WithSign, PrecisionIn and Magnitude say. */
  lemma IntegerPrinted(d: Directive, args: seq<Arg>)
    requires Correct(d) && Supplied(d, args) && d.conversion in "diuxXob" && !Prefixed(d, args)
    ensures WellFormed("%" + Spelled(d), args) && IntegerField(Printed(d, args), d, args)
  {
    hide Ntoa, NumberText, Spelled, Printed, FlagsRead, IntegerFlags, ValueOf, NumberIn, Sign, Base, WidthOf,
         PrecisionOf, LeastDigits, Convert, CanConvert, AsRead, Magnitude, WellFormed, AtLeft;
    PrintedIs(d, args);
    IntegerText(d, args);
    var f := IntegerFlags(FlagsRead(d, args), d.conversion).(hash := false);
    var m := Abs(NumberIn(d, args));
    ValueIs(d, args);
    FlagsGoneBy(d, args);
    MagnitudeFits(d, args);
    if d.precision.Absent? {
      NoPrecisionIsZero(d, args);
    }
    NumberPrinted(m, NumberIn(d, args) < 0, Base(d.conversion), PrecisionOf(d, args), WidthOf(d, args), f);
  }

  /** What the conversion of an integer comes to. */
  lemma IntegerText(d: Directive, args: seq<Arg>)
    requires Correct(d) && Supplied(d, args) && d.conversion in "diuxXob" && !Prefixed(d, args)
    requires CanConvert(AsRead(d, "", args))
    ensures IsBase(Base(d.conversion))
    ensures Convert(AsRead(d, "", args)).0 ==
      Ntoa(Abs(NumberIn(d, args)), NumberIn(d, args) < 0, Base(d.conversion), PrecisionOf(d, args), WidthOf(d, args),
           IntegerFlags(FlagsRead(d, args), d.conversion).(hash := false))
  {
    hide Ntoa, FlagsRead, IntegerFlags, ValueOf, NumberIn, WidthOf, PrecisionOf;
    ValueIs(d, args);
    FlagsGoneBy(d, args);
    var f := IntegerFlags(FlagsRead(d, args), d.conversion);
    if f.hash {
      HashOfZero(NumberIn(d, args) < 0, Base(d.conversion), PrecisionOf(d, args), WidthOf(d, args), f);
    } else {
      assert f.(hash := false) == f;
    }
  }

  lemma HashOfZero(negative: bool, base: int, prec: nat, width: nat, f: Flags)
    requires IsBase(base)
    ensures Ntoa(0, negative, base, prec, width, f) == Ntoa(0, negative, base, prec, width, f.(hash := false))
  {
    hide Digits, Scratch, OutRev, ZeroWidth;
  }

  lemma NoPrecisionIsZero(d: Directive, args: seq<Arg>)
    requires Supplied(d, args) && d.precision.Absent?
    ensures PrecisionOf(d, args) == 0
  {
  }

  lemma FlagsGoneBy(d: Directive, args: seq<Arg>)
    requires Supplied(d, args) && d.conversion in "diuxXob"
    ensures var f := IntegerFlags(FlagsRead(d, args), d.conversion);
      && f.left == AtLeft(d, args) && f.precision == !d.precision.Absent? && f.upper == (d.conversion == 'X')
      && f.zeropad == ('0' in d.flags && d.precision.Absent?) && f.hash == ('#' in d.flags && d.conversion in "xXob")
      && SignText(NumberIn(d, args) < 0, f) == Sign(d, args)
  {
    hide AtLeft, NumberIn;
  }

  lemma MagnitudeFits(d: Directive, args: seq<Arg>)
    requires Supplied(d, args) && d.conversion in "diuxXob" && Abs(NumberIn(d, args)) < 0x1_0000_0000_0000_0000
    ensures IsBase(Base(d.conversion))
    ensures Magnitude(d, args) == Abs(NumberIn(d, args)) % Pow(Base(d.conversion), 32)
  {
    hide NumberIn, Pow;
    if d.conversion == 'b' {
      PowOf2();
    } else {
      ValueFits(Abs(NumberIn(d, args)), Base(d.conversion));
    }
  }

  lemma PowOf2()
    ensures Pow(2, 32) == 0x1_0000_0000
  {
    assert Pow(2, 4) == 16;
    PowSum(2, 4, 4);
    PowSum(2, 8, 8);
    PowSum(2, 16, 16);
  }

  lemma ValueIs(d: Directive, args: seq<Arg>)
    requires Correct(d) && Supplied(d, args) && d.conversion in "diuxXob"
    ensures ValueOf(args[Stars(d)].bits, FlagsRead(d, args), d.conversion) == NumberIn(d, args)
    ensures Abs(NumberIn(d, args)) < 0x1_0000_0000_0000_0000
    ensures NumberIn(d, args) < 0 ==> d.conversion in "di"
  {
    hide ToSigned, TwosComplement, AtLeft;
    var bits := args[Stars(d)].bits;
    SignedOf(bits, 16);
    SignedOf(bits, 32);
    SignedOf(bits, 64);
  }

  // ---------------------------------------------------------------- reading integers back

  predicate IsFigure(c: char) { '0' <= c <= '9' || 'a' <= c <= 'f' || 'A' <= c <= 'F' }

  /** The digits of a text in base 16 or less. */
  function Figures(t: string): string {
    if t == [] then [] else (if IsFigure(t[0]) then [t[0]] else []) + Figures(t[1..])
  }

  lemma {:induction false} FiguresJoin(a: string, b: string)
    ensures Figures(a + b) == Figures(a) + Figures(b)
  {
    hide IsFigure;
    if a == [] {
      assert a + b == b;
    } else {
      FiguresJoin(a[1..], b);
      assert (a + b)[0] == a[0] && (a + b)[1..] == a[1..] + b;
      var first := if IsFigure(a[0]) then [a[0]] else [];
      assert first + (Figures(a[1..]) + Figures(b)) == first + Figures(a[1..]) + Figures(b);
    }
  }

  lemma {:induction false} FiguresOnly(s: string)
    requires forall i :: 0 <= i < |s| ==> IsFigure(s[i])
    ensures Figures(s) == s
  {
    if s != [] {
      FiguresOnly(s[1..]);
    }
  }

  lemma {:induction false} NoFigures(s: string)
    requires forall i :: 0 <= i < |s| ==> !IsFigure(s[i])
    ensures Figures(s) == []
  {
    if s != [] {
      NoFigures(s[1..]);
    }
  }

  lemma JustifiedFigures(t: string, s: string, width: nat, left: bool)
    requires Justified(t, s, width, left)
    ensures Figures(t) == Figures(s) && ('-' in t <==> '-' in s)
  {
    var a, b := t[..if left then |s| else |t| - |s|], t[if left then |s| else |t| - |s|..];
    assert t == a + b;
    FiguresJoin(a, b);
    NoFigures(if left then b else a);
  }

  lemma SignedFigures(sign: string, s: string, base: int, upper: bool)
    requires sign in {"", "-", "+", " "} && forall i :: 0 <= i < |s| ==> IsDigitIn(s[i], base, upper)
    ensures Figures(WithSign(sign, s)) == s && ('-' in WithSign(sign, s) <==> sign == "-" && |s| < 32)
  {
    FiguresJoin(sign, s);
    NoFigures(sign);
    FiguresOnly(s);
  }

  /** The number and the sign can be told from the text. */
  lemma TextTells(t: string, sign: string, m: nat, base: int, upper: bool, least: int, width: nat, left: bool)
    requires NumberText(t, sign, m, base, upper, least, width, left)
    requires sign in {"", "-", "+", " "} && (base != 2 || sign == "")
    ensures Read(Figures(t), base) == m && ('-' in t <==> sign == "-" && least < 32)
  {
    hide Read, Figures, Justified, IsDigitIn, WithSign;
    var s: string :| Numeral(s, m, base, upper, least) && Justified(t, WithSign(sign, s), width, left);
    JustifiedFigures(t, WithSign(sign, s), width, left);
    SignedFigures(sign, s, base, upper);
  }

  /** Whether the digits take all 32 characters there are for digits and sign. */
  predicate Crowded(d: Directive, args: seq<Arg>)
    requires Supplied(d, args)
  {
    && !AtLeft(d, args)
    && if d.precision.Absent? then '0' in d.flags && WidthOf(d, args) > 32 else PrecisionOf(d, args) >= 32
  }

  /** %d and %i: the text has a '-' just when the top bit of the argument is set, if there is room for a sign, and its
      digits are the distance from zero of the number in two's complement. */
  lemma SignedReadsBack(d: Directive, args: seq<Arg>)
    requires Correct(d) && Supplied(d, args) && d.conversion in "di" && d.length != "hh"
    ensures WellFormed("%" + Spelled(d), args)
    ensures var t, bits, size := Printed(d, args), args[Stars(d)].bits, BitsTaken(d.length);
      && ('-' in t <==> TopBit(bits, size) && !Crowded(d, args))
      && Read(Figures(t), 10) == if TopBit(bits, size) then TwoTo(size) - bits % TwoTo(size) else bits % TwoTo(size)
  {
    hide Spelled, Printed, NumberText, Read, Figures, WidthOf, PrecisionOf, TopBit, TwoTo, AtLeft, WellFormed;
    IntegerPrinted(d, args);
    var bits, size := args[Stars(d)].bits, BitsTaken(d.length);
    SignedOf(bits, size);
    var sign, width, zeros, left := Sign(d, args), WidthOf(d, args), ZeroPadded(d, args), AtLeft(d, args);
    TextTells(Printed(d, args), sign, Magnitude(d, args), 10, false,
              LeastDigits(!d.precision.Absent?, PrecisionOf(d, args), zeros, width - |sign|, left),
              if zeros then 0 else width, left);
  }

  lemma LowBits(d: Directive, args: seq<Arg>)
    requires Supplied(d, args) && d.conversion in "diuxXob" && (d.conversion in "di" ==> d.length == "hh")
    ensures NumberIn(d, args) == args[Stars(d)].bits % TwoTo(BitsTaken(d.length)) >= 0
  {
  }

  /** The other conversions, and characters by %hhd: the digits are the low bits of the argument, in base 2 the low
      32 of them. */
  lemma UnsignedReadsBack(d: Directive, args: seq<Arg>)
    requires Correct(d) && Supplied(d, args) && d.conversion in "diuxXob" && (d.conversion in "di" ==> d.length == "hh")
    requires !Prefixed(d, args)
    ensures WellFormed("%" + Spelled(d), args)
    ensures var t, bits, size := Printed(d, args), args[Stars(d)].bits, BitsTaken(d.length);
      && '-' !in t
      && Read(Figures(t), Base(d.conversion)) ==
         if d.conversion == 'b' then bits % TwoTo(size) % 0x1_0000_0000 else bits % TwoTo(size)
  {
    hide Spelled, Printed, NumberText, Read, Figures, WidthOf, PrecisionOf, TwoTo, AtLeft, WellFormed, LeastDigits;
    IntegerPrinted(d, args);
    LowBits(d, args);
    var sign, width, zeros, left := Sign(d, args), WidthOf(d, args), ZeroPadded(d, args), AtLeft(d, args);
    TextTells(Printed(d, args), sign, Magnitude(d, args), Base(d.conversion), d.conversion == 'X',
              LeastDigits(!d.precision.Absent?, PrecisionOf(d, args), zeros, width - |sign|, left),
              if zeros then 0 else width, left);
  }

  // ---------------------------------------------------------------- characters, strings, pointers

  /** %c: the low byte as a character, in its field. */
  lemma CharPrinted(d: Directive, args: seq<Arg>)
    requires Correct(d) && Supplied(d, args) && d.conversion == 'c'
    ensures WellFormed("%" + Spelled(d), args)
    ensures Justified(Printed(d, args), [(args[Stars(d)].bits % 0x100) as char], WidthOf(d, args), AtLeft(d, args))
  {
    hide Spelled, Printed, Spaces, WidthOf, AtLeft, PrecisionOf, Justified, WellFormed;
    PrintedIs(d, args);
    var c, n := (args[Stars(d)].bits % 0x100) as char, WidthOf(d, args);
    InField([c], n);
  }

  /** %s: the string, cut to the precision if there is one, in its field. */
  lemma StringPrinted(d: Directive, args: seq<Arg>)
    requires Correct(d) && Supplied(d, args) && d.conversion == 's'
    ensures WellFormed("%" + Spelled(d), args)
    ensures var s, p := args[Stars(d)].s, PrecisionOf(d, args);
      Justified(Printed(d, args), if !d.precision.Absent? && p < |s| then s[..p] else s,
                WidthOf(d, args), AtLeft(d, args))
  {
    hide Spelled, Printed, Spaces, WidthOf, AtLeft, PrecisionOf, Justified, WellFormed;
    PrintedIs(d, args);
    var s, p, n := args[Stars(d)].s, PrecisionOf(d, args), WidthOf(d, args);
    var u := if !d.precision.Absent? && p < |s| then s[..p] else s;
    assert s[..|s|] == s;
    InField(u, n);
  }

  /** %p without '#': sixteen digits in upper case, whatever the width. A '+' or ' ' flag takes one of the places. */
  lemma PointerPrinted(d: Directive, args: seq<Arg>)
    requires Correct(d) && Supplied(d, args) && d.conversion == 'p' && '#' !in d.flags
    ensures WellFormed("%" + Spelled(d), args)
    ensures var sign, left := if '+' in d.flags then "+" else if ' ' in d.flags then " " else "", AtLeft(d, args);
      NumberText(Printed(d, args), sign, args[Stars(d)].bits % 0x1_0000_0000_0000_0000, 16, true,
                 LeastDigits(!d.precision.Absent?, PrecisionOf(d, args), !left, 16 - |sign|, left),
                 if left then 16 else 0, left)
  {
    hide Spelled, Printed, Ntoa, NumberText, WidthOf, AtLeft, PrecisionOf, WellFormed, LeastDigits, Pow;
    PrintedIs(d, args);
    if d.precision.Absent? {
      NoPrecisionIsZero(d, args);
    }
    var f := FlagsRead(d, args).(zeropad := true, upper := true);
    var m := args[Stars(d)].bits % 0x1_0000_0000_0000_0000;
    ValueFits(m, 16);
    NumberPrinted(m, false, 16, PrecisionOf(d, args), 16, f);
  }

  /** %% and every other character behind a '%' print themselves, whatever the flags and the width. */
  lemma OtherPrinted(d: Directive, args: seq<Arg>)
    requires Correct(d) && Supplied(d, args) && d.conversion !in "diuxXobcsp"
    ensures WellFormed("%" + Spelled(d), args) && Printed(d, args) == [d.conversion]
    ensures Behind(d, args) == args[Stars(d)..]
  {
    hide Spelled, Printed, WidthOf, AtLeft, PrecisionOf, WellFormed;
    PrintedIs(d, args);
  }

  // ---------------------------------------------------------------- the '#' flag

  function Prefix(base: int, upper: bool): string {
    if base == 16 then (if upper then "0X" else "0x") else if base == 2 then "0b" else "0"
  }

  /** The last characters of the prefix, as many as there is room for. */
  function Fitting(prefix: string, room: int): string {
    if room <= 0 then "" else if room < |prefix| then prefix[|prefix| - room..] else prefix
  }

  /** Digits that denote `m` just when none was cut off. */
  predicate HashDigits(s: string, m: nat, base: int, upper: bool, uncut: bool) {
    && |s| <= 32 && (forall i :: 0 <= i < |s| ==> IsDigitIn(s[i], base, upper))
    && (Read(s, base) == m <==> uncut)
  }

  ghost predicate HashText(t: string, sign: string, m: nat, base: int, upper: bool, uncut: bool, width: nat, left: bool)
  {
    exists s: string :: HashDigits(s, m, base, upper, uncut) &&
      Justified(t, WithSign(sign, Fitting(Prefix(base, upper), 32 - |s|) + s), width, left)
  }

  /** When a number of `n` digits keeps them all: with a precision; and without one if the field does not end at the
      last digit, nor, with zero padding in base 16, one place in front of it. */
  predicate Uncut(n: nat, base: int, precision: bool, zeros: bool, width: int) {
    precision || (n != width && !(base == 16 && zeros && n + 1 == width && width <= 32))
  }

  lemma {:induction false} ManyDigits(value: nat, base: int, upper: bool, room: nat, k: nat)
    requires IsBase(base) && 0 < k <= room && value >= Pow(base, k - 1)
    ensures |Digits(value, base, upper, room)| >= k
    decreases room
  {
    if k > 1 {
      QuotientAtLeast(value, base, Pow(base, k - 2));
      ManyDigits(value / base, base, upper, room - 1, k - 1);
    }
  }

  lemma QuotientAtLeast(v: nat, b: int, p: int)
    requires b >= 1 && p >= 1 && v >= b * p
    ensures v / b >= p
  {
    MultipleGrows(b, v / b + 1, p);
    assert b * (v / b + 1) == b * (v / b) + b > v;
  }

  lemma HashBodyDigits(value: nat, negative: bool, base: int, prec: nat, width: nat, f: Flags)
    requires IsBase(base) && (f.precision || prec == 0)
    ensures var s := HashBody(value, negative, base, prec, width, f);
      forall i :: 0 <= i < |s| ==> IsDigitIn(s[i], base, f.upper)
  {
    hide Digits, DigitsFor, Padded, ZeroWidth, Reverse, IsDigitIn, Cut;
    var digits := DigitsFor(value, base, f);
    var s := Padded(digits, negative, prec, width, f);
    var r := s[..|s| - Cut(s, base, prec, ZeroWidth(negative, width, f), f)];
    DigitsOfNumber(value, base, f);
    PaddedDigits(digits, negative, prec, width, f);
    ZeroIsDigit(base, f.upper);
    forall i | 0 <= i < |r|
      ensures IsDigitIn(Reverse(r)[i], base, f.upper)
    {
      ReverseAt(r, i);
      assert |r| - 1 - i < |digits| ==> s[|r| - 1 - i] == digits[|r| - 1 - i];
    }
  }

  lemma HashPrinted(value: nat, negative: bool, base: int, prec: nat, width: nat, f: Flags, n: nat)
    requires IsBase(base) && f.hash && (f.precision || prec == 0) && value < 0x1_0000_0000_0000_0000
    requires 0 < n <= 32 && Pow(base, n - 1) <= value < Pow(base, n)
    ensures var sign, zeros := SignText(negative, f), f.zeropad && !f.left;
      HashText(Ntoa(value, negative, base, prec, width, f), sign, value, base, f.upper,
               Uncut(n, base, f.precision, zeros, if zeros then width - |sign| else width),
               if zeros then 0 else width, f.left)
  {
    hide Ntoa, HashBody, HashPrefix, Pow, Digits, Justified, Spaces, SignText, ZeroWidth, HashDigits, Uncut, Prefix,
         Fitting;
    var s, sign := HashBody(value, negative, base, prec, width, f), SignText(negative, f);
    var prefix := HashPrefix(base, SCRATCH - |s|, f);
    HashDigitsPrinted(value, negative, base, prec, width, f, n);
    HashShape(value, negative, base, prec, width, f);
    PrefixFits(base, SCRATCH - |s|, f);
    var t := (if |prefix| + |s| < 32 then sign else "") + (prefix + s);
    assert t == WithSign(sign, prefix + s);
    FieldOf(Ntoa(value, negative, base, prec, width, f), t, negative, width, f);
  }

  lemma HashDigitsPrinted(value: nat, negative: bool, base: int, prec: nat, width: nat, f: Flags, n: nat)
    requires IsBase(base) && f.hash && (f.precision || prec == 0) && 0 < n <= 32
    requires Pow(base, n - 1) <= value < Pow(base, n)
    ensures var zeros := f.zeropad && !f.left;
      HashDigits(HashBody(value, negative, base, prec, width, f), value, base, f.upper,
                 Uncut(n, base, f.precision, zeros, if zeros then width - |SignText(negative, f)| else width))
  {
    hide HashBody, Pow, SignText, IsDigitIn, Read, Uncut;
    HashBodyDigits(value, negative, base, prec, width, f);
    HashUncut(value, negative, base, prec, width, f, n);
  }

  lemma PrefixFits(base: int, room: nat, f: Flags)
    requires IsBase(base)
    ensures HashPrefix(base, room, f) == Fitting(Prefix(base, f.upper), room)
  {
  }

  lemma HashUncut(value: nat, negative: bool, base: int, prec: nat, width: nat, f: Flags, n: nat)
    requires IsBase(base) && f.hash && (f.precision || prec == 0) && 0 < n <= 32
    requires Pow(base, n - 1) <= value < Pow(base, n)
    ensures var zeros := f.zeropad && !f.left;
      Read(HashBody(value, negative, base, prec, width, f), base) == value
      <==> Uncut(n, base, f.precision, zeros, if zeros then width - |SignText(negative, f)| else width)
  {
    hide HashBody, Pow, Digits, SignText, ZeroWidth, Read;
    FewDigits(value, base, f.upper, SCRATCH, n);
    ManyDigits(value, base, f.upper, SCRATCH, n);
    MorePower(base, n, 32);
    SignLength(negative, width, f);
    HashKeepsIff(value, negative, base, prec, width, f);
  }

  lemma {:induction false} MorePower(base: int, m: nat, n: nat)
    requires base >= 1 && m <= n
    ensures Pow(base, m) <= Pow(base, n)
    decreases n - m
  {
    if m < n {
      MorePower(base, m + 1, n);
      ProductGrows(base, 1, Pow(base, m), Pow(base, m));
    }
  }

  /** '#' puts the prefix in front of the digits. The digits denote the number just when Uncut holds for their
      number `n`; without a precision the code overwrites digits where they would reach the end of the field. */
  lemma PrefixPrinted(d: Directive, args: seq<Arg>, n: nat)
    requires Correct(d) && Supplied(d, args) && d.conversion in "xXob" && Prefixed(d, args)
    requires 0 < n <= 32 && Pow(Base(d.conversion), n - 1) <= NumberIn(d, args) < Pow(Base(d.conversion), n)
    ensures WellFormed("%" + Spelled(d), args)
    ensures var width, zeros := WidthOf(d, args), ZeroPadded(d, args);
      HashText(Printed(d, args), "", NumberIn(d, args), Base(d.conversion), d.conversion == 'X',
               Uncut(n, Base(d.conversion), !d.precision.Absent?, zeros, width),
               if zeros then 0 else width, AtLeft(d, args))
  {
    hide HashText, Ntoa, Spelled, Printed, FlagsRead, IntegerFlags, ValueOf, NumberIn, Base, WidthOf, PrecisionOf,
         Uncut, CanConvert, WellFormed, AtLeft, Pow;
    PrintedIs(d, args);
    ValueIs(d, args);
    FlagsGoneBy(d, args);
    BaseMatches(d.conversion);
    LowBits(d, args);
    var f := IntegerFlags(FlagsRead(d, args), d.conversion);
    if d.precision.Absent? {
      NoPrecisionIsZero(d, args);
    }
    HashPrinted(NumberIn(d, args), false, Base(d.conversion), PrecisionOf(d, args), WidthOf(d, args), f, n);
  }

  lemma BaseMatches(c: char)
    ensures IsBase(Base(c)) && BaseOf(c) == Base(c)
  {
  }

  /** %p with '#', where a '+' or ' ' flag takes a place and with it a digit of a pointer of fourteen. */
  lemma PrefixedPointer(d: Directive, args: seq<Arg>, n: nat)
    requires Correct(d) && Supplied(d, args) && d.conversion == 'p' && '#' in d.flags
    requires 0 < n <= 32 && Pow(16, n - 1) <= args[Stars(d)].bits % 0x1_0000_0000_0000_0000 < Pow(16, n)
    ensures WellFormed("%" + Spelled(d), args)
    ensures var sign, left := if '+' in d.flags then "+" else if ' ' in d.flags then " " else "", AtLeft(d, args);
      HashText(Printed(d, args), sign, args[Stars(d)].bits % 0x1_0000_0000_0000_0000, 16, true,
               Uncut(n, 16, !d.precision.Absent?, !left, if left then 16 else 16 - |sign|),
               if left then 16 else 0, left)
  {
    hide HashText, Ntoa, Spelled, Printed, WidthOf, PrecisionOf, Uncut, WellFormed, AtLeft, Pow;
    PrintedIs(d, args);
    if d.precision.Absent? {
      NoPrecisionIsZero(d, args);
    }
    PowPositive(16, n - 1);
    var f := FlagsRead(d, args).(zeropad := true, upper := true);
    HashPrinted(args[Stars(d)].bits % 0x1_0000_0000_0000_0000, false, 16, PrecisionOf(d, args), 16, f, n);
  }

  lemma PowPositive(base: int, n: nat)
    requires base >= 1
    ensures Pow(base, n) >= 1
  {
  }
}
