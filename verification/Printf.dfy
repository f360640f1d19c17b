/** The formatter of lib/printf.c with output to a buffer: every loop against the functions of Format. */
module Printf {
  import opened Format

  /** A buffer of `room` characters takes a text of `total` and its NUL, unless `maxlen` keeps writes inside. */
  predicate Fits(room: nat, maxlen: nat, total: nat) { maxlen <= room || total < room }

  /** The buffer `b0` after the output of `text`: nothing is written from index `maxlen` on. */
  ghost predicate Holds(b: seq<char>, b0: seq<char>, maxlen: nat, text: string) {
    |b| == |b0| && forall k :: 0 <= k < |b| ==> b[k] == if k < |text| && k < maxlen then text[k] else b0[k]
  }

  /** _out_buffer. */
  method OutBuffer(c: char, buffer: array<char>, idx: nat, maxlen: nat, ghost b0: seq<char>, ghost text: string)
    requires Holds(buffer[..], b0, maxlen, text) && idx == |text| && Fits(buffer.Length, maxlen, |text|)
    modifies buffer
    ensures Holds(buffer[..], b0, maxlen, text + [c])
  {
    if idx < maxlen {
      buffer[idx] := c;
    }
  }

  /** A loop of `out(' ', ...)`. */
  method OutSpaces(n: int, buffer: array<char>, idx0: nat, maxlen: nat, ghost b0: seq<char>, ghost text: string)
    returns (idx: nat)
    requires Holds(buffer[..], b0, maxlen, text) && idx0 == |text| && Fits(buffer.Length, maxlen, |text + Spaces(n)|)
    modifies buffer
    ensures Holds(buffer[..], b0, maxlen, text + Spaces(n)) && idx == |text + Spaces(n)|
  {
    hide Holds;
    idx := idx0;
    var i := 0;
    ghost var done := text;
    assert text + Spaces(n) == done + Spaces(n - i);
    while i < n
      invariant 0 <= i && (i <= n || i == 0) && idx == |done| && Holds(buffer[..], b0, maxlen, done)
      invariant text + Spaces(n) == done + Spaces(n - i)
    {
      OutBuffer(' ', buffer, idx, maxlen, b0, done);
      idx := idx + 1;
      assert done + ([' '] + Spaces(n - i - 1)) == done + [' '] + Spaces(n - i - 1);
      done := done + [' '];
      i := i + 1;
    }
    assert done + Spaces(n - i) == done;
  }

  /** The loop that prints a text backwards. */
  method OutReversed(buffer: array<char>, idx0: nat, maxlen: nat, buf: array<char>, len0: nat,
                     ghost b0: seq<char>, ghost text: string) returns (idx: nat)
    requires buf != buffer && len0 <= buf.Length
    requires Holds(buffer[..], b0, maxlen, text) && idx0 == |text| && Fits(buffer.Length, maxlen, |text| + len0)
    modifies buffer
    ensures Holds(buffer[..], b0, maxlen, text + Reverse(buf[..len0])) && idx == |text| + len0
  {
    hide Holds;
    idx := idx0;
    var len := len0;
    ghost var done := text;
    while len > 0
      invariant 0 <= len <= len0 && idx == |done| == |text| + len0 - len && Holds(buffer[..], b0, maxlen, done)
      invariant done + Reverse(buf[..len]) == text + Reverse(buf[..len0])
    {
      assert buf[..len][..len - 1] == buf[..len - 1];
      len := len - 1;
      OutBuffer(buf[len], buffer, idx, maxlen, b0, done);
      idx := idx + 1;
      assert done + ([buf[len]] + Reverse(buf[..len])) == done + [buf[len]] + Reverse(buf[..len]);
      done := done + [buf[len]];
    }
    assert done + Reverse(buf[..0]) == done;
  }

  /** _out_rev. */
  method PrintReversed(buffer: array<char>, idx0: nat, maxlen: nat, buf: array<char>, len: nat, width: int, f: Flags,
                       ghost b0: seq<char>, ghost text: string) returns (idx: nat)
    requires buf != buffer && len <= buf.Length
    requires Holds(buffer[..], b0, maxlen, text) && idx0 == |text|
    requires Fits(buffer.Length, maxlen, |text + OutRev(buf[..len], width, f)|)
    modifies buffer
    ensures Holds(buffer[..], b0, maxlen, text + OutRev(buf[..len], width, f))
    ensures idx == |text + OutRev(buf[..len], width, f)|
  {
    hide Holds, Spaces, Reverse;
    idx := idx0;
    ghost var s := buf[..len];
    ghost var t := text;
    if !f.left && !f.zeropad {
      idx := OutSpaces(width - len, buffer, idx, maxlen, b0, t);
      t := t + Spaces(width - len);
    }
    idx := OutReversed(buffer, idx, maxlen, buf, len, b0, t);
    t := t + Reverse(s);
    if f.left {
      idx := OutSpaces(width - len, buffer, idx, maxlen, b0, t);
      t := t + Spaces(width - len);
    }
    assert t == text + OutRev(s, width, f);
  }

  /** The loops that append zeros to the scratch buffer. */
  method AppendZeros(buf: array<char>, len0: nat, n: int) returns (len: nat)
    requires buf.Length == SCRATCH && len0 <= SCRATCH
    modifies buf
    ensures len0 <= len <= SCRATCH && buf[..len] == PadZeros(old(buf[..len0]), n)
  {
    len := len0;
    while len < n && len < SCRATCH
      invariant len0 <= len <= SCRATCH && PadZeros(buf[..len], n) == PadZeros(old(buf[..len0]), n)
    {
      ghost var s := buf[..len];
      buf[len] := '0';
      len := len + 1;
      assert buf[..len] == s + ['0'];
    }
  }

  method AppendChar(buf: array<char>, len0: nat, c: char) returns (len: nat)
    requires buf.Length == SCRATCH && len0 <= SCRATCH
    modifies buf
    ensures len0 <= len <= SCRATCH && buf[..len] == Append(old(buf[..len0]), c)
  {
    len := len0;
    if len < SCRATCH {
      buf[len] := c;
      len := len + 1;
      assert buf[..len] == old(buf[..len0]) + [c];
    }
  }

  /** The zero padding of _ntoa_format. */
  method PadScratch(buf: array<char>, len0: nat, negative: bool, prec: nat, width0: nat, f: Flags)
    returns (len: nat, width: nat)
    requires buf.Length == SCRATCH && len0 <= SCRATCH
    modifies buf
    ensures len <= SCRATCH && width == ZeroWidth(negative, width0, f)
    ensures buf[..len] == Padded(old(buf[..len0]), negative, prec, width0, f)
  {
    hide PadZeros;
    len, width := len0, width0;
    if !f.left {
      if width != 0 && f.zeropad && (negative || f.plus || f.space) {
        width := width - 1;
      }
      len := AppendZeros(buf, len, prec);
      if f.zeropad {
        len := AppendZeros(buf, len, width);
      }
    }
  }

  /** The '#' prefix of _ntoa_format. */
  method HashScratch(buf: array<char>, len0: nat, base: int, prec: nat, width: nat, f: Flags) returns (len: nat)
    requires buf.Length == SCRATCH && len0 <= SCRATCH
    modifies buf
    ensures len <= SCRATCH && buf[..len] == Hashed(old(buf[..len0]), base, prec, width, f)
  {
    hide Append;
    len := len0;
    ghost var s := buf[..len];
    if f.hash {
      if !f.precision && len != 0 && (len == prec || len == width) {
        len := len - 1;
        if len != 0 && base == 16 {
          len := len - 1;
        }
      }
      assert buf[..len] == s[..|s| - Cut(s, base, prec, width, f)];
      if base == 16 && !f.upper {
        len := AppendChar(buf, len, 'x');
      } else if base == 16 && f.upper {
        len := AppendChar(buf, len, 'X');
      } else if base == 2 {
        len := AppendChar(buf, len, 'b');
      }
      len := AppendChar(buf, len, '0');
    }
  }

  /** The part of _ntoa_format before the output. */
  method FillScratch(buf: array<char>, len0: nat, negative: bool, base: int, prec: nat, width0: nat, f: Flags)
    returns (len: nat, width: nat)
    requires buf.Length == SCRATCH && len0 <= SCRATCH
    modifies buf
    ensures len <= SCRATCH && width == ZeroWidth(negative, width0, f)
    ensures buf[..len] == Scratch(old(buf[..len0]), negative, base, prec, width0, f)
  {
    hide Append, Padded, Hashed, ZeroWidth;
    len, width := PadScratch(buf, len0, negative, prec, width0, f);
    len := HashScratch(buf, len, base, prec, width, f);
    if negative {
      len := AppendChar(buf, len, '-');
    } else if f.plus {
      len := AppendChar(buf, len, '+');
    } else if f.space {
      len := AppendChar(buf, len, ' ');
    }
  }

  /** _ntoa_long; _ntoa_long_long is the same on the same 64 bits. */
  method NtoaLong(buffer: array<char>, idx0: nat, maxlen: nat, value0: nat, negative: bool, base: int, prec: nat,
                  width0: nat, f0: Flags, ghost b0: seq<char>, ghost text: string) returns (idx: nat)
    requires IsBase(base) && Holds(buffer[..], b0, maxlen, text) && idx0 == |text|
    requires Fits(buffer.Length, maxlen, |text + Ntoa(value0, negative, base, prec, width0, f0)|)
    modifies buffer
    ensures Holds(buffer[..], b0, maxlen, text + Ntoa(value0, negative, base, prec, width0, f0))
    ensures idx == |text + Ntoa(value0, negative, base, prec, width0, f0)|
  {
    hide Holds, Scratch, OutRev, Digits;
    var buf := new char[SCRATCH](_ => '\0');
    var f := if value0 == 0 then f0.(hash := false) else f0;
    var len := 0;
    if !f.precision || value0 != 0 {
      len := FillDigits(buf, value0, base, f.upper);
    }
    assert buf[..len] == DigitsFor(value0, base, f) by { assert buf[..0] == []; }
    var width;
    len, width := FillScratch(buf, len, negative, base, prec, width0, f);
    idx := PrintReversed(buffer, idx0, maxlen, buf, len, width, f, b0, text);
  }

  /** The do-while loop over the digits. */
  method FillDigits(buf: array<char>, value0: nat, base: int, upper: bool) returns (len: nat)
    requires buf.Length == SCRATCH && IsBase(base)
    modifies buf
    ensures len <= SCRATCH && buf[..len] == Digits(value0, base, upper, SCRATCH)
  {
    hide Digits, DigitChar;
    var value: nat := value0;
    len := 0;
    assert buf[..0] + Digits(value, base, upper, SCRATCH) == Digits(value, base, upper, SCRATCH);
    var go := true;
    while go
      invariant 0 <= len <= SCRATCH && (go ==> len < SCRATCH)
      invariant buf[..len] + (if go then Digits(value, base, upper, SCRATCH - len) else [])
             == Digits(value0, base, upper, SCRATCH)
      decreases if go then 1 else 0, SCRATCH - len
    {
      ghost var s := buf[..len];
      DigitsStep(value, base, upper, SCRATCH - len);
      var digit := value % base;
      buf[len] := DigitChar(digit, upper);
      ghost var c := buf[len];
      assert buf[..len + 1] == s + [c];
      value := value / base;
      go := value != 0 && len + 1 < SCRATCH;
      ghost var rest := if go then Digits(value, base, upper, SCRATCH - len - 1) else [];
      assert s + ([c] + rest) == s + [c] + rest;
      len := len + 1;
    }
  }

  lemma DigitsStep(value: nat, base: int, upper: bool, room: nat)
    requires IsBase(base) && room > 0
    ensures 0 <= value % base < 16 && value / base >= 0
    ensures Digits(value, base, upper, room) == [DigitChar(value % base, upper)]
      + (if value / base > 0 && room > 1 then Digits(value / base, base, upper, room - 1) else [])
  {
  }

  // ---------------------------------------------------------------- directives

  /** _atoi, with the format it leaves. */
  method ReadAtoi(fmt: string) returns (n: nat, rest: string)
    ensures n == Atoi(fmt[..DigitRun(fmt)]) && rest == fmt[DigitRun(fmt)..]
  {
    n := 0;
    var i := 0;
    assert fmt[0..] == fmt;
    while i < |fmt| && IsDigit(fmt[i])
      invariant 0 <= i <= |fmt| && DigitRun(fmt) == i + DigitRun(fmt[i..])
      invariant forall k :: 0 <= k < i ==> IsDigit(fmt[k])
      invariant n == Atoi(fmt[..i])
    {
      assert fmt[..i + 1][..i] == fmt[..i];
      n := (n * 10 + (fmt[i] as int - '0' as int)) % 0x1_0000_0000;
      i := i + 1;
    }
    rest := fmt[i..];
  }

  /** The loop over the flag characters. */
  method ReadFlags(fmt: string) returns (f: Flags, rest: string)
    ensures f == FlagsOf(fmt[..FlagRun(fmt)], NO_FLAGS) && rest == fmt[FlagRun(fmt)..]
  {
    f := NO_FLAGS;
    var i := 0;
    ghost var n := FlagRun(fmt);
    assert fmt[0..] == fmt && fmt[..n][0..] == fmt[..n];
    while i < |fmt| && IsFlag(fmt[i])
      invariant 0 <= i <= |fmt| && n == i + FlagRun(fmt[i..])
      invariant FlagsOf(fmt[..n], NO_FLAGS) == FlagsOf(fmt[i..n], f)
    {
      assert fmt[i..n][0] == fmt[i] && fmt[i..n][1..] == fmt[i + 1..n];
      f := AddFlag(f, fmt[i]);
      i := i + 1;
    }
    assert fmt[i..n] == [];
    rest := fmt[i..];
  }

  /** Flags, width, precision and length of a directive. */
  method ReadDirective(fmt: string, args: seq<Arg>) returns (p: Parsed)
    requires StarsFilled(fmt, args)
    ensures p == Parse(fmt, args)
  {
    hide FlagsOf, FlagRun, DigitRun, Atoi;
    var f, rest := ReadFlags(fmt);
    p := Parsed(f, 0, 0, rest, args);
    assert p == ParseFlags(fmt, args);

    ghost var p0 := p;
    RunStarts(p.rest);
    if p.rest != [] && IsDigit(p.rest[0]) {
      var n, r := ReadAtoi(p.rest);
      p := p.(width := n, rest := r);
    } else if Peek(p.rest) == '*' {
      var w := ToSigned(p.args[0].bits, 32);
      if w < 0 {
        p := p.(f := p.f.(left := true), width := -w);
      } else {
        p := p.(width := w);
      }
      p := p.(rest := p.rest[1..], args := p.args[1..]);
    }
    assert p == ParseWidth(p0);

    ghost var p1 := p;
    if Peek(p.rest) == '.' {
      p := p.(f := p.f.(precision := true), rest := p.rest[1..]);
      RunStarts(p.rest);
      if p.rest != [] && IsDigit(p.rest[0]) {
        var n, r := ReadAtoi(p.rest);
        p := p.(prec := n, rest := r);
      } else if Peek(p.rest) == '*' {
        var prec := ToSigned(p.args[0].bits, 32);
        p := p.(prec := if prec > 0 then prec else 0, rest := p.rest[1..], args := p.args[1..]);
      }
    }
    assert p == ParsePrecision(p1);
    p := ParseLength(p);
  }

  lemma RunStarts(fmt: string)
    ensures DigitRun(fmt) > 0 <==> fmt != [] && IsDigit(fmt[0])
  {
  }

  /** The '%c' conversion. */
  method PrintChar(c: char, width: nat, left: bool, buffer: array<char>, idx0: nat, maxlen: nat,
                   ghost b0: seq<char>, ghost text: string) returns (idx: nat)
    requires Holds(buffer[..], b0, maxlen, text) && idx0 == |text|
    requires Fits(buffer.Length, maxlen, |text + [c] + Spaces(width - 1)|)
    modifies buffer
    ensures Holds(buffer[..], b0, maxlen, text + if left then [c] + Spaces(width - 1) else Spaces(width - 1) + [c])
    ensures idx == |text + [c] + Spaces(width - 1)|
  {
    hide Holds, Spaces;
    idx := idx0;
    ghost var t, pad := text, Spaces(width - 1);
    if !left {
      idx := OutSpaces(width - 1, buffer, idx, maxlen, b0, t);
      t := t + pad;
    }
    OutBuffer(c, buffer, idx, maxlen, b0, t);
    idx := idx + 1;
    t := t + [c];
    if left {
      idx := OutSpaces(width - 1, buffer, idx, maxlen, b0, t);
      t := t + pad;
    }
    assert t == text + if left then [c] + pad else pad + [c];
  }

  /** The '%s' conversion. */
  method PrintString(s: string, width: nat, left: bool, precision: bool, prec: nat, buffer: array<char>, idx0: nat,
                     maxlen: nat, ghost b0: seq<char>, ghost text: string) returns (idx: nat)
    requires Holds(buffer[..], b0, maxlen, text) && idx0 == |text|
    requires var n := if precision && prec < |s| then prec else |s|;
      Fits(buffer.Length, maxlen, |text + s[..n] + Spaces(width - n)|)
    modifies buffer
    ensures var n := if precision && prec < |s| then prec else |s|;
      && Holds(buffer[..], b0, maxlen, text + if left then s[..n] + Spaces(width - n) else Spaces(width - n) + s[..n])
      && idx == |text + s[..n] + Spaces(width - n)|
  {
    hide Holds, Spaces;
    var l := if precision && prec < |s| then prec else |s|;
    idx := idx0;
    ghost var t, pad := text, Spaces(width - l);
    if !left {
      idx := OutSpaces(width - l, buffer, idx, maxlen, b0, t);
      t := t + pad;
    }
    var i := 0;
    ghost var t0 := t;
    while i < |s| && (!precision || i < prec)
      invariant 0 <= i <= l && t == t0 + s[..i] && idx == |t| && Holds(buffer[..], b0, maxlen, t)
    {
      OutBuffer(s[i], buffer, idx, maxlen, b0, t);
      idx := idx + 1;
      t := t + [s[i]];
      i := i + 1;
      assert t == t0 + s[..i];
    }
    if left {
      idx := OutSpaces(width - l, buffer, idx, maxlen, b0, t);
      t := t + pad;
    }
    assert t == text + if left then s[..l] + pad else pad + s[..l];
  }

  /** The conversion of one directive. */
  method PrintDirective(p: Parsed, buffer: array<char>, idx0: nat, maxlen: nat, ghost b0: seq<char>, ghost text: string)
    returns (idx: nat, args: seq<Arg>)
    requires p.rest != [] && CanConvert(p)
    requires Holds(buffer[..], b0, maxlen, text) && idx0 == |text|
    requires Fits(buffer.Length, maxlen, |text + Convert(p).0|)
    modifies buffer
    ensures Holds(buffer[..], b0, maxlen, text + Convert(p).0) && idx == |text + Convert(p).0| && args == Convert(p).1
  {
    hide Holds, Ntoa, Spaces;
    var c := p.rest[0];
    if IsInteger(c) {
      var v := ValueOf(p.args[0].bits, p.f, c);
      idx := NtoaLong(buffer, idx0, maxlen, Abs(v), v < 0, BaseOf(c), p.prec, p.width, IntegerFlags(p.f, c), b0, text);
      args := p.args[1..];
    } else if c == 'c' {
      var ch := Wrap(p.args[0].bits, 8) as char;
      idx := PrintChar(ch, p.width, p.f.left, buffer, idx0, maxlen, b0, text);
      args := p.args[1..];
    } else if c == 's' {
      idx := PrintString(p.args[0].s, p.width, p.f.left, p.f.precision, p.prec, buffer, idx0, maxlen, b0, text);
      args := p.args[1..];
    } else if c == 'p' {
      idx := NtoaLong(buffer, idx0, maxlen, Wrap(p.args[0].bits, 64), false, 16, p.prec, 16,
                      p.f.(zeropad := true, upper := true), b0, text);
      args := p.args[1..];
    } else {
      OutBuffer(c, buffer, idx0, maxlen, b0, text);
      idx := idx0 + 1;
      args := p.args;
    }
  }

  /** What a call leaves in the buffer: the text cut to `maxlen` - 1 characters, and a NUL. */
  ghost function Result(b0: seq<char>, maxlen: nat, text: string): (b: seq<char>)
    requires Fits(|b0|, maxlen, |text|)
    ensures |b| == |b0|
  {
    var n := if |text| < maxlen then |text| else maxlen - 1;
    if maxlen == 0 then b0 else text[..n] + ['\0'] + b0[n + 1..]
  }

  lemma PlainStep(fmt: string, args: seq<Arg>, text: string)
    requires WellFormed(fmt, args) && fmt != [] && fmt[0] != '%'
    ensures WellFormed(fmt[1..], args)
    ensures text + Full(fmt, args) == text + [fmt[0]] + Full(fmt[1..], args)
  {
    assert text + ([fmt[0]] + Full(fmt[1..], args)) == text + [fmt[0]] + Full(fmt[1..], args);
  }

  lemma DirectiveStep(fmt: string, args: seq<Arg>, text: string)
    requires WellFormed(fmt, args) && fmt != [] && fmt[0] == '%'
    ensures StarsFilled(fmt[1..], args)
    ensures var p := Parse(fmt[1..], args);
      && p.rest != [] && CanConvert(p) && |p.rest| < |fmt|
      && WellFormed(p.rest[1..], Convert(p).1)
      && text + Full(fmt, args) == text + Convert(p).0 + Full(p.rest[1..], Convert(p).1)
  {
    hide Parse, Convert, CanConvert, StarsFilled;
    var p := Parse(fmt[1..], args);
    assert text + (Convert(p).0 + Full(p.rest[1..], Convert(p).1))
      == text + Convert(p).0 + Full(p.rest[1..], Convert(p).1);
  }

  /** _vsnprintf: for every size of the buffer the same length is returned, that of the whole text. */
  method Vsnprintf(buffer: array<char>, maxlen: nat, format: string, args0: seq<Arg>) returns (r: nat)
    requires '\0' !in format && WellFormed(format, args0) && Fits(buffer.Length, maxlen, |Full(format, args0)|)
    modifies buffer
    ensures r == |Full(format, args0)|
    ensures buffer[..] == Result(old(buffer[..]), maxlen, Full(format, args0))
  {
    ghost var b0, full := buffer[..], Full(format, args0);
    ghost var text := "";
    var fmt, args, idx := format, args0, 0;
    assert full == text + full;
    hide Holds, Convert, Parse, CanConvert, StarsFilled, WellFormed, Result;
    assert Holds(b0, b0, maxlen, "") by { NothingYet(b0, maxlen); }
    while fmt != []
      invariant WellFormed(fmt, args) && full == text + Full(fmt, args)
      invariant idx == |text| && Holds(buffer[..], b0, maxlen, text)
      decreases |fmt|
    {
      if fmt[0] != '%' {
        PlainStep(fmt, args, text);
        OutBuffer(fmt[0], buffer, idx, maxlen, b0, text);
        idx := idx + 1;
        text := text + [fmt[0]];
        fmt := fmt[1..];
      } else {
        DirectiveStep(fmt, args, text);
        var p := ReadDirective(fmt[1..], args);
        idx, args := PrintDirective(p, buffer, idx, maxlen, b0, text);
        text := text + Convert(p).0;
        fmt := p.rest[1..];
      }
    }
    assert full == text;
    ghost var b1 := buffer[..];
    // maxlen - 1 wraps around when maxlen is 0, and is then not below it
    if maxlen > 0 {
      var last := if idx < maxlen then idx else maxlen - 1;
      buffer[last] := '\0';
      Terminated(b0, b1, maxlen, full, last);
    } else {
      NothingWritten(b0, b1, full);
    }
    r := idx;
  }

  lemma NothingYet(b0: seq<char>, maxlen: nat)
    ensures Holds(b0, b0, maxlen, "")
  {
  }

  lemma NothingWritten(b0: seq<char>, b: seq<char>, text: string)
    requires Holds(b, b0, 0, text)
    ensures b == b0
  {
  }

  lemma Terminated(b0: seq<char>, b: seq<char>, maxlen: nat, text: string, last: nat)
    requires Holds(b, b0, maxlen, text) && Fits(|b0|, maxlen, |text|) && maxlen > 0
    requires last == if |text| < maxlen then |text| else maxlen - 1
    ensures last < |b| && b[last := '\0'] == Result(b0, maxlen, text)
  {
  }

  /** Printing into a buffer of `n` characters is printing into one of sufficient size and keeping the first n - 1
      characters: the truncated output is a prefix of the whole, and ends in a NUL. */
  lemma TruncationSimulates(b0: seq<char>, c0: seq<char>, n: nat, text: string)
    requires 0 < n <= |b0| && |text| < |c0|
    ensures var b, c := Result(b0, n, text), Result(c0, |c0|, text);
      var k := if |text| < n - 1 then |text| else n - 1;
      && b[..k] == c[..k] == text[..k] && b[k] == '\0' && c[|text|] == '\0'
      && forall i :: k < i < |b| ==> b[i] == b0[i]
  {
  }
}
