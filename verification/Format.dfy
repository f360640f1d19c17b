/** What the formatter of lib/printf.c prints, as a function, and what that means. */
module Format {
  const SCRATCH: int := 32  // PRINTF_NTOA_BUFFER_SIZE

  datatype Flags = Flags(zeropad: bool, left: bool, plus: bool, space: bool, hash: bool, upper: bool,
                         chr: bool, short: bool, long: bool, longLong: bool, precision: bool)

  const NO_FLAGS: Flags := Flags(false, false, false, false, false, false, false, false, false, false, false)

  // ---------------------------------------------------------------- numbers

  function DigitChar(d: int, upper: bool): char
    requires 0 <= d < 16
  {
    if upper then "0123456789ABCDEF"[d] else "0123456789abcdef"[d]
  }

  predicate IsBase(base: int) { base == 2 || base == 8 || base == 10 || base == 16 }

  /** The do-while of _ntoa_long: digits from the last on, as many as there is room for. */
  function Digits(value: nat, base: int, upper: bool, room: nat): (s: string)
    requires IsBase(base) && room > 0
    ensures 0 < |s| <= room
    decreases room
  {
    [DigitChar(value % base, upper)]
    + if value / base > 0 && room > 1 then Digits(value / base, base, upper, room - 1) else []
  }

  /** Zeros appended while shorter than `n` and than the scratch buffer. */
  function PadZeros(s: string, n: int): (r: string)
    requires |s| <= SCRATCH
    ensures |r| <= SCRATCH && |r| >= |s|
    decreases SCRATCH - |s|
  {
    if |s| < n && |s| < SCRATCH then PadZeros(s + ['0'], n) else s
  }

  function Append(s: string, c: char): (r: string)
    requires |s| <= SCRATCH
    ensures |r| <= SCRATCH
  {
    if |s| < SCRATCH then s + [c] else s
  }

  /** The width left for zero padding once a sign has its place. */
  function ZeroWidth(negative: bool, width: int, f: Flags): int {
    if !f.left && width > 0 && f.zeropad && (negative || f.plus || f.space) then width - 1 else width
  }

  function Padded(s: string, negative: bool, prec: int, width: int, f: Flags): (r: string)
    requires |s| <= SCRATCH
    ensures |s| <= |r| <= SCRATCH
  {
    if f.left then s else
    var p := PadZeros(s, prec);
    if f.zeropad then PadZeros(p, ZeroWidth(negative, width, f)) else p
  }

  /** How much of the text the '#' prefix replaces. */
  function Cut(s: string, base: int, prec: int, width: int, f: Flags): (n: nat)
    ensures n <= |s|
  {
    if !f.precision && |s| > 0 && (|s| == prec || |s| == width) then (if |s| > 1 && base == 16 then 2 else 1) else 0
  }

  /** The '#' prefix, which takes the place of padding or digits when the text already has full length. */
  function Hashed(s: string, base: int, prec: int, width: int, f: Flags): (r: string)
    requires |s| <= SCRATCH
    ensures |r| <= SCRATCH
  {
    if !f.hash then s else
    var t := s[..|s| - Cut(s, base, prec, width, f)];
    var u := if base == 16 then Append(t, if f.upper then 'X' else 'x') else if base == 2 then Append(t, 'b') else t;
    Append(u, '0')
  }

  function Signed(s: string, negative: bool, f: Flags): (r: string)
    requires |s| <= SCRATCH
    ensures |s| <= |r| <= SCRATCH
  {
    if negative then Append(s, '-') else if f.plus then Append(s, '+') else if f.space then Append(s, ' ') else s
  }

  /** The scratch buffer of _ntoa_format at its end, last character first. */
  function Scratch(s: string, negative: bool, base: int, prec: int, width: int, f: Flags): (r: string)
    requires |s| <= SCRATCH
    ensures |r| <= SCRATCH
  {
    Signed(Hashed(Padded(s, negative, prec, width, f), base, prec, ZeroWidth(negative, width, f), f), negative, f)
  }

  function Reverse(s: string): (r: string)
    ensures |r| == |s|
  {
    if s == [] then [] else [s[|s| - 1]] + Reverse(s[..|s| - 1])
  }

  function Spaces(n: int): (s: string)
    ensures |s| == if n > 0 then n else 0
  {
    if n <= 0 then [] else [' '] + Spaces(n - 1)
  }

  /** _out_rev. */
  function OutRev(s: string, width: int, f: Flags): string {
    (if !f.left && !f.zeropad then Spaces(width - |s|) else []) + Reverse(s)
    + (if f.left then Spaces(width - |s|) else [])
  }

  /** _ntoa_long and _ntoa_long_long. */
  function Ntoa(value: nat, negative: bool, base: int, prec: int, width: int, f0: Flags): string
    requires IsBase(base)
  {
    var f := if value == 0 then f0.(hash := false) else f0;
    var s := if !f.precision || value != 0 then Digits(value, base, f.upper, SCRATCH) else [];
    OutRev(Scratch(s, negative, base, prec, width, f), ZeroWidth(negative, width, f), f)
  }

  // ---------------------------------------------------------------- directives

  /** Arguments as they are passed: a register of 64 bits, or a string. */
  datatype Arg = Num(bits: nat) | Text(s: string)

  function Peek(fmt: string): char { if fmt == [] then '\0' else fmt[0] }

  predicate IsDigit(c: char) { '0' <= c <= '9' }

  /** _atoi: the value modulo 2^32 of the digits at the start, and how many there are. */
  function DigitRun(fmt: string): (n: nat)
    ensures n <= |fmt| && (n < |fmt| ==> !IsDigit(fmt[n]))
    ensures forall i :: 0 <= i < n ==> IsDigit(fmt[i])
  {
    if fmt == [] || !IsDigit(fmt[0]) then 0 else 1 + DigitRun(fmt[1..])
  }
  function Atoi(digits: string): (n: nat)
    requires forall i :: 0 <= i < |digits| ==> IsDigit(digits[i])
    ensures n < 0x1_0000_0000
  {
    if digits == [] then 0
    else (Atoi(digits[..|digits| - 1]) * 10 + (digits[|digits| - 1] as int - '0' as int)) % 0x1_0000_0000
  }

  function AddFlag(f: Flags, c: char): Flags {
    match c
    case '0' => f.(zeropad := true)
    case '-' => f.(left := true)
    case '+' => f.(plus := true)
    case ' ' => f.(space := true)
    case _ => f.(hash := true)
  }
  predicate IsFlag(c: char) { c in "0-+ #" }

  /** How many flag characters lead, and the flags they set. */
  function FlagRun(fmt: string): (n: nat)
    ensures n <= |fmt|
  {
    if fmt == [] || !IsFlag(fmt[0]) then 0 else 1 + FlagRun(fmt[1..])
  }
  function FlagsOf(s: string, f: Flags): Flags {
    if s == [] then f else FlagsOf(s[1..], AddFlag(f, s[0]))
  }

  /** Two's complement. */
  function Wrap(v: int, bits: int): (r: nat)
    requires bits in {8, 16, 32, 64}
    ensures bits == 8 ==> r < 0x100
    ensures bits == 16 ==> r < 0x1_0000
    ensures bits == 32 ==> r < 0x1_0000_0000
    ensures bits == 64 ==> r < 0x1_0000_0000_0000_0000
  {
    if bits == 8 then v % 0x100 else if bits == 16 then v % 0x1_0000
    else if bits == 32 then v % 0x1_0000_0000 else v % 0x1_0000_0000_0000_0000
  }
  function ToSigned(v: int, bits: int): int
    requires bits in {16, 32, 64}
  {
    var half := if bits == 16 then 0x8000 else if bits == 32 then 0x8000_0000 else 0x8000_0000_0000_0000;
    var w := Wrap(v, bits);
    if w < half then w else w - 2 * half
  }

  /** A directive as far as it has been read: what is known, the rest of the format, the remaining arguments. */
  datatype Parsed = Parsed(f: Flags, width: nat, prec: nat, rest: string, args: seq<Arg>)

  predicate HasNum(args: seq<Arg>) { args != [] && args[0].Num? }

  function ParseFlags(fmt: string, args: seq<Arg>): (r: Parsed)
    ensures |r.rest| <= |fmt|
  {
    Parsed(FlagsOf(fmt[..FlagRun(fmt)], NO_FLAGS), 0, 0, fmt[FlagRun(fmt)..], args)
  }

  function ParseWidth(p: Parsed): (r: Parsed)
    ensures |r.rest| <= |p.rest|
  {
    var n := DigitRun(p.rest);
    if n > 0 then p.(width := Atoi(p.rest[..n]), rest := p.rest[n..])
    else if Peek(p.rest) == '*' && HasNum(p.args) then
      var w := ToSigned(p.args[0].bits, 32);
      p.(width := if w < 0 then -w else w, f := if w < 0 then p.f.(left := true) else p.f,
         rest := p.rest[1..], args := p.args[1..])
    else p
  }

  function ParsePrecision(p: Parsed): (r: Parsed)
    ensures |r.rest| <= |p.rest|
  {
    if Peek(p.rest) != '.' then p else
    var q := p.(f := p.f.(precision := true), rest := p.rest[1..]);
    var n := DigitRun(q.rest);
    if n > 0 then q.(prec := Atoi(q.rest[..n]), rest := q.rest[n..])
    else if Peek(q.rest) == '*' && HasNum(q.args) then
      var w := ToSigned(q.args[0].bits, 32);
      q.(prec := if w > 0 then w else 0, rest := q.rest[1..], args := q.args[1..])
    else q
  }

  function ParseLength(p: Parsed): (r: Parsed)
    ensures |r.rest| <= |p.rest|
  {
    match Peek(p.rest)
    case 'l' =>
      if Peek(p.rest[1..]) == 'l' then p.(f := p.f.(long := true, longLong := true), rest := p.rest[2..])
      else p.(f := p.f.(long := true), rest := p.rest[1..])
    case 'h' =>
      if Peek(p.rest[1..]) == 'h' then p.(f := p.f.(short := true, chr := true), rest := p.rest[2..])
      else p.(f := p.f.(short := true), rest := p.rest[1..])
    case 't' => p.(f := p.f.(long := true), rest := p.rest[1..])
    case 'j' => p.(f := p.f.(long := true), rest := p.rest[1..])
    case 'z' => p.(f := p.f.(long := true), rest := p.rest[1..])
    case _ => p
  }

  function Parse(fmt: string, args: seq<Arg>): (r: Parsed)
    ensures |r.rest| <= |fmt|
  {
    ParseLength(ParsePrecision(ParseWidth(ParseFlags(fmt, args))))
  }

  predicate IsInteger(c: char) { c in "diuxXob" }

  function BaseOf(c: char): (b: int)
    ensures IsBase(b)
  {
    if c == 'x' || c == 'X' then 16 else if c == 'o' then 8 else if c == 'b' then 2 else 10
  }

  /** The flags an integer conversion goes by. */
  function IntegerFlags(f0: Flags, c: char): Flags {
    var f := if BaseOf(c) == 10 then f0.(hash := false) else f0;
    var g := if c == 'X' then f.(upper := true) else f;
    var h := if c != 'i' && c != 'd' then g.(plus := false, space := false) else g;
    if h.precision then h.(zeropad := false) else h
  }

  /** The value converted; plain char is unsigned on AArch64. */
  function ValueOf(bits: nat, f: Flags, c: char): int {
    if f.long || f.longLong then (if c == 'i' || c == 'd' then ToSigned(bits, 64) else Wrap(bits, 64))
    else if f.chr then Wrap(bits, 8)
    else if f.short then (if c == 'i' || c == 'd' then ToSigned(bits, 16) else Wrap(bits, 16))
    else if c == 'i' || c == 'd' then ToSigned(bits, 32) else Wrap(bits, 32)
  }

  function Abs(v: int): nat { if v < 0 then -v else v }

  /** What the conversion character prints, and the arguments left. */
  function Convert(p: Parsed): (string, seq<Arg>)
    requires p.rest != [] && CanConvert(p)
  {
    var c := p.rest[0];
    if IsInteger(c) then
      var v := ValueOf(p.args[0].bits, p.f, c);
      (Ntoa(Abs(v), v < 0, BaseOf(c), p.prec, p.width, IntegerFlags(p.f, c)), p.args[1..])
    else if c == 'c' then
      var pad := Spaces(p.width - 1);
      var ch := Wrap(p.args[0].bits, 8) as char;
      (if p.f.left then [ch] + pad else pad + [ch], p.args[1..])
    else if c == 's' then
      var s := p.args[0].s;
      var n := if p.f.precision && p.prec < |s| then p.prec else |s|;
      var pad := Spaces(p.width - n);
      (if p.f.left then s[..n] + pad else pad + s[..n], p.args[1..])
    else if c == 'p' then
      (Ntoa(Wrap(p.args[0].bits, 64), false, 16, p.prec, 16, p.f.(zeropad := true, upper := true)), p.args[1..])
    else
      ([c], p.args)
  }

  /** The argument a conversion needs is there. */
  predicate CanConvert(p: Parsed)
    requires p.rest != []
  {
    var c := p.rest[0];
    && (IsInteger(c) || c == 'c' || c == 'p' ==> HasNum(p.args))
    && (c == 's' ==> p.args != [] && p.args[0].Text? && '\0' !in p.args[0].s)
  }

  /** Each '*' finds its argument. */
  predicate StarsFilled(fmt: string, args: seq<Arg>) {
    var p := ParseFlags(fmt, args);
    var q := ParseWidth(p);
    && (Peek(p.rest) == '*' ==> HasNum(p.args))
    && (Peek(q.rest) == '.' && Peek(q.rest[1..]) == '*' ==> HasNum(q.args))
  }

  /** Every directive is complete and finds its arguments. */
  predicate WellFormed(fmt: string, args: seq<Arg>)
    decreases |fmt|
  {
    fmt == [] ||
    if fmt[0] != '%' then WellFormed(fmt[1..], args)
    else
      var p := Parse(fmt[1..], args);
      StarsFilled(fmt[1..], args) && p.rest != [] && CanConvert(p) && WellFormed(p.rest[1..], Convert(p).1)
  }

  /** The whole text. */
  function Full(fmt: string, args: seq<Arg>): string
    requires WellFormed(fmt, args)
    decreases |fmt|
  {
    if fmt == [] then []
    else if fmt[0] != '%' then [fmt[0]] + Full(fmt[1..], args)
    else
      var p := Parse(fmt[1..], args);
      var (s, rest) := Convert(p);
      s + Full(p.rest[1..], rest)
  }

  // ---------------------------------------------------------------- digits denote the value

  function DigitValue(c: char): int {
    if '0' <= c <= '9' then c as int - '0' as int
    else if 'a' <= c <= 'f' then c as int - 'a' as int + 10
    else if 'A' <= c <= 'F' then c as int - 'A' as int + 10
    else 0
  }

  /** The number a text of digits denotes. */
  function Read(t: string, base: int): int {
    if t == [] then 0 else Read(t[..|t| - 1], base) * base + DigitValue(t[|t| - 1])
  }

  /** The same for a text with the last digit first. */
  function Denoted(s: string, base: int): int {
    if s == [] then 0 else DigitValue(s[0]) + base * Denoted(s[1..], base)
  }

  function Pow(b: int, n: nat): (p: int)
    requires b >= 1
    ensures p >= 1
  {
    if n == 0 then 1 else b * Pow(b, n - 1)
  }

  lemma DigitBack(d: int, upper: bool)
    requires 0 <= d < 16
    ensures DigitValue(DigitChar(d, upper)) == d
  {
  }

  lemma {:induction false} ReadReversed(s: string, base: int)
    ensures Read(Reverse(s), base) == Denoted(s, base)
  {
    if s != [] {
      var r := Reverse(s);
      ReadReversed(s[1..], base);
      ReverseCons(s);
      assert r[..|r| - 1] == Reverse(s[1..]);
    }
  }

  lemma {:induction false} ReverseCons(s: string)
    requires s != []
    ensures Reverse(s) == Reverse(s[1..]) + [s[0]]
  {
    var n := |s| - 1;
    if n > 0 {
      ReverseCons(s[..n]);
      assert s[..n][1..] == s[1..][..n - 1];
    }
  }

  lemma {:induction false} ReverseAt(s: string, i: nat)
    requires i < |s|
    ensures Reverse(s)[i] == s[|s| - 1 - i]
  {
    if i > 0 {
      ReverseAt(s[..|s| - 1], i - 1);
    }
  }

  /** The digits denote the value, as far as there is room for them. */
  lemma {:induction false} DigitsDenote(value: nat, base: int, upper: bool, room: nat)
    requires IsBase(base) && room > 0
    ensures Denoted(Digits(value, base, upper, room), base) == value % Pow(base, room)
    decreases room
  {
    var s := Digits(value, base, upper, room);
    var q, r := value / base, value % base;
    DigitBack(r, upper);
    var p := Pow(base, room - 1);
    assert s[0] == DigitChar(r, upper);
    if q > 0 && room > 1 {
      DigitsDenote(q, base, upper, room - 1);
      assert s[1..] == Digits(q, base, upper, room - 1);
    } else {
      assert s[1..] == [];
      assert q % p == 0 by {
        if q > 0 {
          assert p == 1;
        } else {
          SmallMod(0, p);
        }
      }
    }
    ModSplit(value, base, p);
  }

  lemma SmallMod(x: int, m: int)
    requires 0 <= x < m
    ensures x % m == x
  {
  }

  lemma ModSplit(v: nat, b: int, p: int)
    requires b >= 1 && p >= 1
    ensures b * p >= 1 && v % (b * p) == v % b + b * (v / b % p)
  {
    var q := v / b;
    var k := q / p;
    var r := v % b + b * (q % p);
    assert v == b * q + v % b;
    assert q == p * k + q % p;
    assert v == (b * p) * k + r by {
      assert b * q == b * (p * k) + b * (q % p);
      assert b * (p * k) == (b * p) * k;
    }
    assert 0 <= r by {
      assert 0 <= b * (q % p);
    }
    assert r < b * p by {
      assert q % p <= p - 1;
      assert b * (q % p) <= b * (p - 1);
      assert b * (p - 1) == b * p - b;
    }
    QuotientUnique(v, b * p, k, r);
  }

  lemma MultipleSize(m: int, d: int)
    requires m >= 1
    ensures d > 0 ==> m * d >= m
    ensures d < 0 ==> m * d <= -m
  {
  }

  lemma QuotientUnique(v: int, m: int, k: int, r: int)
    requires m >= 1 && v == m * k + r && 0 <= r < m
    ensures v % m == r
  {
    var d := v / m - k;
    assert v == m * (v / m) + v % m;
    assert m * (v / m) - m * k == m * d;
    MultipleSize(m, d);
  }

  lemma {:induction false} ZerosDenoteNothing(s: string, n: int, base: int)
    requires |s| <= SCRATCH
    ensures Denoted(PadZeros(s, n), base) == Denoted(s, base)
    decreases SCRATCH - |s|
  {
    if |s| < n && |s| < SCRATCH {
      ZerosDenoteNothing(s + ['0'], n, base);
      ZeroDenotesNothing(s, base);
    }
  }

  lemma {:induction false} ZeroDenotesNothing(s: string, base: int)
    ensures Denoted(s + ['0'], base) == Denoted(s, base)
  {
    if s == [] {
      assert ([] + ['0'])[1..] == [];
      assert Denoted(['0'], base) == 0;
    } else {
      assert (s + ['0'])[1..] == s[1..] + ['0'];
      ZeroDenotesNothing(s[1..], base);
    }
  }

  // ---------------------------------------------------------------- numbers as they are printed

  predicate HasSign(negative: bool, f: Flags) { negative || f.plus || f.space }

  function SignText(negative: bool, f: Flags): string {
    if negative then "-" else if f.plus then "+" else if f.space then " " else ""
  }

  /** The digits of a number as Ntoa has them, last first. */
  function DigitsFor(value: nat, base: int, f: Flags): (s: string)
    requires IsBase(base)
    ensures |s| <= SCRATCH
  {
    if !f.precision || value != 0 then Digits(value, base, f.upper, SCRATCH) else []
  }

  lemma DigitsForDenote(value: nat, base: int, f: Flags)
    requires IsBase(base)
    ensures Denoted(DigitsFor(value, base, f), base) == value % Pow(base, SCRATCH)
  {
    hide Pow, Digits;
    if !f.precision || value != 0 {
      DigitsDenote(value, base, f.upper, SCRATCH);
    } else {
      SmallMod(0, Pow(base, SCRATCH));
    }
  }

  lemma PaddedDenotes(s: string, negative: bool, prec: int, width: int, f: Flags, base: int)
    requires |s| <= SCRATCH
    ensures Denoted(Padded(s, negative, prec, width, f), base) == Denoted(s, base)
  {
    hide PadZeros, Denoted;
    ZerosDenoteNothing(s, prec, base);
    ZerosDenoteNothing(PadZeros(s, prec), ZeroWidth(negative, width, f), base);
  }

  lemma SignLast(s: string, negative: bool, f: Flags)
    requires |s| <= SCRATCH
    ensures var sign := if |s| < SCRATCH then SignText(negative, f) else "";
      |Signed(s, negative, f)| == |s| + |sign| && Reverse(Signed(s, negative, f)) == sign + Reverse(s)
  {
    var t := Signed(s, negative, f);
    if |s| < SCRATCH && HasSign(negative, f) {
      assert t == s + SignText(negative, f) && t[..|t| - 1] == s;
    }
  }

  lemma OutRevOf(t: string, sign: string, s: string, width: int, f: Flags)
    requires Reverse(t) == sign + Reverse(s)
    ensures var spaces := Spaces(width - |s| - |sign|);
      OutRev(t, width, f) ==
        (if !f.left && !f.zeropad then spaces else []) + (sign + Reverse(s)) + (if f.left then spaces else [])
  {
    hide Spaces;
    assert |t| == |s| + |sign|;
  }

  /** The digits of a number as they are printed, with the zeros in front. */
  function Body(value: nat, negative: bool, base: int, prec: int, width: int, f: Flags): (s: string)
    requires IsBase(base)
    ensures |s| <= SCRATCH
  {
    Reverse(Padded(DigitsFor(value, base, f), negative, prec, width, f))
  }

  /** Without '#' a number is printed as spaces, sign, digits and spaces. The sign is there whenever the digits
      leave room for it. */
  lemma NumberShape(value: nat, negative: bool, base: int, prec: int, width: int, f: Flags)
    requires IsBase(base) && !f.hash
    ensures var body := Body(value, negative, base, prec, width, f);
      var sign := if |body| < SCRATCH then SignText(negative, f) else "";
      var spaces := Spaces(ZeroWidth(negative, width, f) - |body| - |sign|);
      Ntoa(value, negative, base, prec, width, f) ==
        (if !f.left && !f.zeropad then spaces else []) + (sign + body) + (if f.left then spaces else [])
  {
    hide Ntoa, Padded, Signed, SignText, ZeroWidth, OutRev, Spaces, DigitsFor, Reverse;
    var s := Padded(DigitsFor(value, base, f), negative, prec, width, f);
    var t, w := Signed(s, negative, f), ZeroWidth(negative, width, f);
    NtoaPlain(value, negative, base, prec, width, f);
    SignLast(s, negative, f);
    OutRevOf(t, if |s| < SCRATCH then SignText(negative, f) else "", s, w, f);
  }

  lemma NtoaPlain(value: nat, negative: bool, base: int, prec: int, width: int, f: Flags)
    requires IsBase(base) && !f.hash
    ensures Ntoa(value, negative, base, prec, width, f) ==
      OutRev(Signed(Padded(DigitsFor(value, base, f), negative, prec, width, f), negative, f),
             ZeroWidth(negative, width, f), f)
  {
    hide Digits, Padded, Signed, ZeroWidth, OutRev;
    assert f.(hash := false) == f;
  }

  /** The digits printed denote the value modulo base^32. */
  lemma BodyDenotes(value: nat, negative: bool, base: int, prec: int, width: int, f: Flags)
    requires IsBase(base)
    ensures Read(Body(value, negative, base, prec, width, f), base) == value % Pow(base, SCRATCH)
  {
    hide Pow, Digits, Padded, Reverse, Denoted, Read;
    var digits := DigitsFor(value, base, f);
    DigitsForDenote(value, base, f);
    PaddedDenotes(digits, negative, prec, width, f, base);
    ReadReversed(Padded(digits, negative, prec, width, f), base);
  }

  /** In bases 8, 10 and 16 the digits printed denote the value itself, for all 64-bit values. */
  lemma ValuePrinted(value: nat, negative: bool, base: int, prec: int, width: int, f: Flags)
    requires (base == 8 || base == 10 || base == 16) && value < 0x1_0000_0000_0000_0000
    ensures Read(Body(value, negative, base, prec, width, f), base) == value
  {
    hide Body, Read, Pow;
    BodyDenotes(value, negative, base, prec, width, f);
    ValueFits(value, base);
  }

  /** In bases 8, 10 and 16 the 32 digits are enough for any 64-bit value. */
  lemma ValueFits(value: nat, base: int)
    requires (base == 8 || base == 10 || base == 16) && value < 0x1_0000_0000_0000_0000
    ensures value % Pow(base, SCRATCH) == value
  {
    PowGrows(base, SCRATCH);
    PowOf8();
    SmallMod(value, Pow(base, SCRATCH));
  }

  lemma ProductGrows(a: int, b: int, p: int, q: int)
    requires a >= b >= 1 && p >= q >= 0
    ensures a * p >= b * q
  {
    assert a * p - b * p == (a - b) * p >= 0;
    assert b * p - b * q == b * (p - q) >= 0;
  }

  lemma {:induction false} PowGrows(base: int, n: nat)
    requires base >= 8
    ensures Pow(base, n) >= Pow(8, n)
  {
    if n > 0 {
      PowGrows(base, n - 1);
      ProductGrows(base, 8, Pow(base, n - 1), Pow(8, n - 1));
    }
  }

  lemma PowOf8()
    ensures Pow(8, 32) >= Pow(8, 22) >= 0x1_0000_0000_0000_0000
  {
    PowSum(8, 10, 12);
    PowSum(8, 10, 22);
    assert Pow(8, 4) == 4096;
    PowSum(8, 4, 4);
    PowSum(8, 8, 4);
    PowSum(8, 8, 2);
  }

  lemma {:induction false} PowSum(b: int, m: nat, n: nat)
    requires b >= 1
    ensures Pow(b, m + n) == Pow(b, m) * Pow(b, n)
  {
    if m > 0 {
      PowSum(b, m - 1, n);
      assert b * (Pow(b, m - 1) * Pow(b, n)) == b * Pow(b, m - 1) * Pow(b, n);
    }
  }

  /** _atoi is reading in base 10 modulo 2^32. */
  lemma {:induction false} AtoiReads(t: string)
    requires forall i :: 0 <= i < |t| ==> IsDigit(t[i])
    ensures Read(t, 10) >= 0 && Atoi(t) == Read(t, 10) % 0x1_0000_0000
  {
    if t != [] {
      var u := t[..|t| - 1];
      AtoiReads(u);
      var r, m := Read(u, 10), 0x1_0000_0000;
      assert (r % m * 10 + DigitValue(t[|t| - 1])) % m == (r * 10 + DigitValue(t[|t| - 1])) % m;
    }
  }

  lemma {:induction false} DecimalDigits(value: nat, upper: bool, room: nat)
    requires room > 0
    ensures forall i :: 0 <= i < |Digits(value, 10, upper, room)| ==> IsDigit(Digits(value, 10, upper, room)[i])
    decreases room
  {
    if value / 10 > 0 && room > 1 {
      DecimalDigits(value / 10, upper, room - 1);
    }
  }

  /** The unpadded decimal print. */
  lemma PlainDecimal(n: nat)
    ensures Ntoa(n, false, 10, 0, 0, NO_FLAGS) == Reverse(Digits(n, 10, false, SCRATCH))
  {
    hide Digits, Reverse, Ntoa;
    NumberShape(n, false, 10, 0, 0, NO_FLAGS);
  }

  lemma DecimalReads(n: nat)
    requires n < 0x1_0000_0000_0000_0000
    ensures var t := Reverse(Digits(n, 10, false, SCRATCH));
      Read(t, 10) == n && forall i :: 0 <= i < |t| ==> IsDigit(t[i])
  {
    hide Pow, Digits, Denoted, Read, Reverse;
    var s := Digits(n, 10, false, SCRATCH);
    DigitsDenote(n, 10, false, SCRATCH);
    ValueFits(n, 10);
    ReadReversed(s, 10);
    DecimalDigits(n, false, SCRATCH);
    forall i | 0 <= i < |s|
      ensures IsDigit(Reverse(s)[i])
    {
      ReverseAt(s, i);
    }
  }

  /** _atoi gives back every number below 2^32 from its unpadded decimal print. */
  lemma AtoiInverse(n: nat)
    requires n < 0x1_0000_0000
    ensures var t := Ntoa(n, false, 10, 0, 0, NO_FLAGS);
      DigitRun(t) == |t| && Atoi(t) == n
  {
    hide Digits, Read, Reverse, Ntoa, Atoi, DigitRun;
    var t := Reverse(Digits(n, 10, false, SCRATCH));
    PlainDecimal(n);
    DecimalReads(n);
    AllDigits(t);
    AtoiReads(t);
    SmallMod(n, 0x1_0000_0000);
  }

  lemma {:induction false} AllDigits(t: string)
    requires forall i :: 0 <= i < |t| ==> IsDigit(t[i])
    ensures DigitRun(t) == |t|
  {
    if t != [] {
      AllDigits(t[1..]);
    }
  }

  function Max(a: int, b: int): int { if a > b then a else b }

  lemma {:induction false} PadZerosLength(s: string, n: int)
    requires |s| <= SCRATCH
    ensures |PadZeros(s, n)| == Max(|s|, if n < SCRATCH then n else SCRATCH)
    decreases SCRATCH - |s|
  {
    if |s| < n && |s| < SCRATCH {
      PadZerosLength(s + ['0'], n);
    }
  }

  /** A value below base^k has at most k digits. */
  lemma {:induction false} FewDigits(value: nat, base: int, upper: bool, room: nat, k: nat)
    requires IsBase(base) && room > 0 && k > 0 && value < Pow(base, k)
    ensures |Digits(value, base, upper, room)| <= k
    decreases room
  {
    if value / base > 0 && room > 1 {
      assert k > 1;
      assert value / base < Pow(base, k - 1) by {
        assert value < base * Pow(base, k - 1);
      }
      FewDigits(value / base, base, upper, room - 1, k - 1);
    }
  }

  /** Without '#', with a precision below 32 and zero padding to at most 32, an integer field has the width asked
      for unless the sign and the digits, or the zeros of the precision, need more. '-' cancels the precision. */
  lemma FieldWidth(value: nat, negative: bool, base: int, prec: nat, width: nat, f: Flags)
    requires IsBase(base) && !f.hash && prec < SCRATCH && (f.zeropad && !f.left ==> width <= SCRATCH)
    requires value < 0x1_0000_0000_0000_0000 && (base == 2 ==> !HasSign(negative, f))
    ensures |Ntoa(value, negative, base, prec, width, f)| ==
      Max(width, (if HasSign(negative, f) then 1 else 0) + Max(|DigitsFor(value, base, f)|, if f.left then 0 else prec))
  {
    hide Pow, Digits, Denoted, Read, Ntoa, PadZeros, Reverse, Spaces;
    var digits := DigitsFor(value, base, f);
    NumberShape(value, negative, base, prec, width, f);
    PadZerosLength(digits, prec);
    PadZerosLength(PadZeros(digits, prec), ZeroWidth(negative, width, f));
    if base != 2 && digits != [] {
      PowGrows(base, 22);
      PowOf8();
      FewDigits(value, base, f.upper, SCRATCH, 22);
    }
    assert base != 2 ==> |digits| <= 22;
  }

  // ---------------------------------------------------------------- the '#' flag

  lemma Distribute(b: int, x: int, a: int, d: int)
    ensures b * (x + a * d) == b * x + (b * a) * d
  {
    assert b * (x + a * d) == b * x + b * (a * d);
  }

  lemma {:induction false} DenotedSplit(s: string, m: nat, base: int)
    requires m <= |s| && base >= 1
    ensures Denoted(s, base) == Denoted(s[..m], base) + Pow(base, m) * Denoted(s[m..], base)
  {
    if m == 0 {
      assert s[0..] == s;
    } else {
      DenotedSplit(s[1..], m - 1, base);
      assert s[1..][..m - 1] == s[..m][1..] && s[1..][m - 1..] == s[m..];
      Distribute(base, Denoted(s[..m][1..], base), Pow(base, m - 1), Denoted(s[m..], base));
      assert s[..m][0] == s[0];
      assert Denoted(s, base) == DigitValue(s[0]) + base * Denoted(s[1..], base);
      assert Denoted(s[..m], base) == DigitValue(s[0]) + base * Denoted(s[..m][1..], base);
    }
  }

  lemma SmallerQuotient(v: nat, b: int, p: int)
    requires b >= 1 && v < b * p
    ensures v / b < p
  {
    assert b * (v / b) <= v;
    MultipleGrows(b, p, v / b);
  }

  lemma MultipleGrows(b: int, p: int, q: int)
    requires b >= 1
    ensures q >= p ==> b * q >= b * p
  {
  }

  /** The first digit printed of a positive number is not zero. */
  lemma {:induction false} TopDigit(value: nat, base: int, upper: bool, room: nat)
    requires IsBase(base) && room > 0 && 0 < value < Pow(base, room)
    ensures var s := Digits(value, base, upper, room); DigitValue(s[|s| - 1]) > 0
    decreases room
  {
    hide DigitChar, DigitValue;
    SmallerQuotient(value, base, Pow(base, room - 1));
    if value / base > 0 {
      if room > 1 {
        TopDigit(value / base, base, upper, room - 1);
      }
    } else {
      SmallMod(value, base);
      DigitBack(value % base, upper);
    }
  }

  lemma {:induction false} PositiveTop(s: string, base: int)
    requires s != [] && DigitValue(s[|s| - 1]) > 0 && base >= 1
    ensures Denoted(s, base) > 0
  {
    if |s| > 1 {
      PositiveTop(s[1..], base);
      assert base * Denoted(s[1..], base) > 0;
    }
  }

  lemma {:induction false} AppendedZeros(s: string, n: int)
    requires |s| <= SCRATCH
    ensures PadZeros(s, n)[..|s|] == s
    ensures forall i :: |s| <= i < |PadZeros(s, n)| ==> PadZeros(s, n)[i] == '0'
    decreases SCRATCH - |s|
  {
    if |s| < n && |s| < SCRATCH {
      AppendedZeros(s + ['0'], n);
      assert PadZeros(s, n)[..|s| + 1][..|s|] == s;
      assert PadZeros(s, n)[|s|] == PadZeros(s, n)[..|s| + 1][|s|];
    }
  }

  lemma {:induction false} OnlyZeros(s: string, base: int)
    requires forall i :: 0 <= i < |s| ==> s[i] == '0'
    ensures Denoted(s, base) == 0
  {
    if s != [] {
      OnlyZeros(s[1..], base);
    }
  }

  /** Cutting the text of a number down to `m` characters keeps its value just when only zeros go. */
  lemma CutKeepsIff(s: string, digits: string, m: nat, base: int)
    requires digits != [] && |digits| <= |s| && s[..|digits|] == digits && m <= |s| && base >= 1
    requires forall i :: |digits| <= i < |s| ==> s[i] == '0'
    requires DigitValue(digits[|digits| - 1]) > 0
    ensures Denoted(s[..m], base) == Denoted(digits, base) <==> |digits| <= m
  {
    hide Pow, Denoted, DigitValue;
    if |digits| <= m {
      DenotedSplit(s[..m], |digits|, base);
      assert s[..m][..|digits|] == digits;
      OnlyZeros(s[..m][|digits|..], base);
    } else {
      DenotedSplit(digits, m, base);
      assert s[..m] == digits[..m];
      PositiveTop(digits[m..], base);
      assert Pow(base, m) * Denoted(digits[m..], base) > 0;
    }
  }

  /** The digits printed behind the '#' prefix. */
  function HashBody(value: nat, negative: bool, base: int, prec: int, width: int, f: Flags): (s: string)
    requires IsBase(base)
    ensures |s| <= SCRATCH
  {
    var s := Padded(DigitsFor(value, base, f), negative, prec, width, f);
    Reverse(s[..|s| - Cut(s, base, prec, ZeroWidth(negative, width, f), f)])
  }

  /** The prefix, as far as `room` characters let it in. */
  function HashPrefix(base: int, room: int, f: Flags): (p: string)
    ensures room >= 0 ==> |p| <= room
  {
    var letter := if base == 16 then (if f.upper then "X" else "x") else if base == 2 then "b" else "";
    if room > |letter| then "0" + letter else if room == 1 then letter else ""
  }

  /** A number with '#' is printed as spaces, sign, prefix, digits and spaces. */
  lemma HashShape(value: nat, negative: bool, base: int, prec: int, width: int, f: Flags)
    requires IsBase(base) && value > 0 && f.hash
    ensures var body, w := HashBody(value, negative, base, prec, width, f), ZeroWidth(negative, width, f);
      var prefix := HashPrefix(base, SCRATCH - |body|, f);
      var sign := if |prefix| + |body| < SCRATCH then SignText(negative, f) else "";
      var spaces := Spaces(w - |body| - |prefix| - |sign|);
      Ntoa(value, negative, base, prec, width, f) ==
        (if !f.left && !f.zeropad then spaces else []) + (sign + (prefix + body)) + (if f.left then spaces else [])
  {
    hide Ntoa, DigitsFor, Padded, Cut, Hashed, Signed, SignText, ZeroWidth, Reverse, Spaces, OutRev, HashPrefix;
    var s, w := Padded(DigitsFor(value, base, f), negative, prec, width, f), ZeroWidth(negative, width, f);
    var t := s[..|s| - Cut(s, base, prec, w, f)];
    var u := Hashed(s, base, prec, w, f);
    NtoaHash(value, negative, base, prec, width, f);
    HashLast(s, base, prec, w, f);
    SignLast(u, negative, f);
    OutRevOf(Signed(u, negative, f), if |u| < SCRATCH then SignText(negative, f) else "", u, w, f);
  }

  lemma NtoaHash(value: nat, negative: bool, base: int, prec: int, width: int, f: Flags)
    requires IsBase(base) && value > 0
    ensures var s, w := Padded(DigitsFor(value, base, f), negative, prec, width, f), ZeroWidth(negative, width, f);
      Ntoa(value, negative, base, prec, width, f) == OutRev(Signed(Hashed(s, base, prec, w, f), negative, f), w, f)
  {
    hide Digits, Padded, Hashed, Signed, ZeroWidth, OutRev;
  }

  lemma ReverseAppend(t: string, c: char)
    ensures Reverse(t + [c]) == [c] + Reverse(t)
  {
    assert (t + [c])[..|t|] == t;
  }

  lemma HashLast(s: string, base: int, prec: int, width: int, f: Flags)
    requires IsBase(base) && |s| <= SCRATCH && f.hash
    ensures var t, u := s[..|s| - Cut(s, base, prec, width, f)], Hashed(s, base, prec, width, f);
      && |u| == |t| + |HashPrefix(base, SCRATCH - |t|, f)|
      && Reverse(u) == HashPrefix(base, SCRATCH - |t|, f) + Reverse(t)
  {
    hide Cut, Reverse;
    var t := s[..|s| - Cut(s, base, prec, width, f)];
    var x := if base == 2 then 'b' else if f.upper then 'X' else 'x';
    var u := if base == 16 || base == 2 then Append(t, x) else t;
    ReverseAppend(t, x);
    ReverseAppend(u, '0');
  }

  /** With '#' the digits printed denote the number if, and only if, there is a precision, or the width (less the
      place that zero padding leaves for a sign) is not the number of its digits, nor, with zero padding in base 16,
      one more. */
  lemma HashKeepsIff(value: nat, negative: bool, base: int, prec: nat, width: nat, f: Flags)
    requires IsBase(base) && 0 < value < Pow(base, SCRATCH) && f.hash && (!f.precision ==> prec == 0)
    ensures var digits, w := |DigitsFor(value, base, f)|, ZeroWidth(negative, width, f);
      Read(HashBody(value, negative, base, prec, width, f), base) == value
      <==> f.precision || (digits != w && !(base == 16 && f.zeropad && !f.left && digits + 1 == w && w <= SCRATCH))
  {
    hide Pow, Digits, Denoted, PadZeros, DigitValue, Read, Reverse;
    var digits, w := DigitsFor(value, base, f), ZeroWidth(negative, width, f);
    var s := Padded(digits, negative, prec, width, f);
    var m := |s| - Cut(s, base, prec, w, f);
    DigitsForDenote(value, base, f);
    SmallMod(value, Pow(base, SCRATCH));
    TopNotZero(value, base, f.upper);
    AppendedZeros(digits, prec);
    AppendedZeros(PadZeros(digits, prec), w);
    assert digits != [];
    CutKeepsIff(s, digits, m, base);
    ReadReversed(s[..m], base);
    PadZerosLength(digits, prec);
    PadZerosLength(PadZeros(digits, prec), w);
  }

  lemma TopNotZero(value: nat, base: int, upper: bool)
    requires IsBase(base) && 0 < value < Pow(base, SCRATCH)
    ensures var s := Digits(value, base, upper, SCRATCH); DigitValue(s[|s| - 1]) > 0
  {
    hide Digits, DigitValue;
    TopDigit(value, base, upper, SCRATCH);
  }
}
