/** The mini printf (chvprintf and chsnprintf, lib/shell/chprintf.c), without its floating
    point conversion.  int and long are 32 bits wide, plain char is signed. */
module Printf {
  import opened Bytes
  import opened Ltoa
  import opened MemStream

  type int32 = x: int | -0x8000_0000 <= x < 0x8000_0000

  /** Two's complement wrap-around to 32 bits. */
  function Wrap(x: int): int32 {
    (x + 0x8000_0000) % 0x1_0000_0000 - 0x8000_0000
  }

  lemma WrapAdd(x: int, y: int)
    ensures Wrap(Wrap(x) + y) == Wrap(x + y)
    ensures -0x8000_0000 <= x < 0x8000_0000 ==> Wrap(x) == x
  {
  }

  /** Conversion to a signed char. */
  function Narrow(x: int): int {
    (x + 128) % 256 - 128
  }

  datatype Arg = Num(v: int32) | Text(s: seq<byte>) | Null

  function NumAt(args: seq<Arg>, j: nat): int32 {
    if j < |args| && args[j].Num? then args[j].v else 0
  }

  const NULL_TEXT: seq<byte> := [40, 110, 117, 108, 108, 41]

  function TextAt(args: seq<Arg>, j: nat): seq<byte> {
    if j < |args| && args[j].Text? then args[j].s else NULL_TEXT
  }

  /** The format character at `i`, or the terminator. */
  function At(fmt: seq<byte>, i: nat): byte {
    if i < |fmt| then fmt[i] else 0
  }

  // ----- what a format means

  datatype Number = Number(value: int32, stop: byte, i: nat, j: nat)

  /** A width or precision: decimal digits, with `*` standing for an argument. */
  function ParseNumber(fmt: seq<byte>, i: nat, args: seq<Arg>, j: nat, acc: int32): (r: Number)
    ensures r.i > i
    decreases |fmt| - i
  {
    var c := At(fmt, i);
    if 48 <= c <= 57 then ParseNumber(fmt, i + 1, args, j, Wrap(acc * 10 + (c - 48)))
    else if c == '*' as int then ParseNumber(fmt, i + 1, args, j + 1, Wrap(acc * 10 + Narrow(NumAt(args, j))))
    else Number(acc, c, i + 1, j)
  }

  /** A conversion, and where format and arguments go on behind it. */
  datatype Directive = Directive(left: bool, zero: bool, width: int32, precision: int32, conv: byte, i: nat, j: nat)

  function ParseDirective(fmt: seq<byte>, i: nat, args: seq<Arg>, j: nat): (d: Directive)
    ensures d.i > i
  {
    var left := At(fmt, i) == '-' as int;
    var i1 := if left then i + 1 else i;
    var zero := At(fmt, i1) == '0' as int;
    var i2 := if zero then i1 + 1 else i1;
    var w := ParseNumber(fmt, i2, args, j, 0);
    var p := if w.stop == '.' as int then ParseNumber(fmt, w.i, args, w.j, 0) else Number(0, w.stop, w.i, w.j);
    if (p.stop == 'l' as int || p.stop == 'L' as int) && At(fmt, p.i) != 0 then
      Directive(left, zero, w.value, p.value, At(fmt, p.i), p.i + 1, p.j)
    else
      Directive(left, zero, w.value, p.value, p.stop, p.i, p.j)
  }

  predicate Signed(c: byte) {
    c == 'd' as int || c == 'D' as int || c == 'i' as int || c == 'I' as int
  }

  /** The radix of an unsigned conversion, 0 if it is none. */
  function RadixOf(c: byte): (r: nat)
    ensures r == 0 || Radix(r)
  {
    if c == 'x' as int || c == 'X' as int then 16
    else if c == 'u' as int || c == 'U' as int then 10
    else if c == 'o' as int || c == 'O' as int then 8
    else 0
  }

  predicate TakesArg(c: byte) {
    c == 'c' as int || c == 's' as int || Signed(c) || RadixOf(c) != 0
  }

  /** How much of a string is printed. */
  function TextLen(len: nat, precision: int32): (n: nat)
    ensures n <= len
  {
    var p := if precision == 0 then 32767 else precision;
    if p <= 0 then 0 else Min(len, p)
  }

  /** What a conversion prints before padding. */
  function Body(d: Directive, args: seq<Arg>): (s: seq<byte>) {
    var v: int := NumAt(args, d.j);
    if d.conv == 'c' as int then [v % 256]
    else if d.conv == 's' as int then TextAt(args, d.j)[..TextLen(|TextAt(args, d.j)|, d.precision)]
    else if Signed(d.conv) then (if v < 0 then ['-' as int] + Digits(-v, 10) else Digits(v, 10))
    else if RadixOf(d.conv) != 0 then Digits(Mod32(v), RadixOf(d.conv))
    else [d.conv]
  }

  function FillerOf(d: Directive): byte {
    if d.zero && d.conv != 'c' as int && d.conv != 's' as int then '0' as int else ' ' as int
  }

  function Filled(b: byte, n: nat): (s: seq<byte>)
    ensures |s| == n
  {
    if n == 0 then [] else Filled(b, n - 1) + [b]
  }

  function PadLen(width: int32, n: nat): nat {
    var w := Wrap(width - n);
    if w < 0 then 0 else w
  }

  /** A conversion padded to its width: on the right if it is left-aligned, else on the
      left, zeros going between the sign and the digits. */
  function Padded(left: bool, filler: byte, pad: nat, body: seq<byte>): (s: seq<byte>)
    ensures |s| == pad + |body|
  {
    if left then body + Filled(filler, pad)
    else if pad > 0 && filler == '0' as int && |body| > 0 && body[0] == '-' as int then
      [body[0]] + Filled(filler, pad) + body[1..]
    else Filled(filler, pad) + body
  }

  function Render(d: Directive, args: seq<Arg>): (s: seq<byte>) {
    var body := Body(d, args);
    Padded(d.left, FillerOf(d), PadLen(d.width, |body|), body)
  }

  /** Everything a format prints from position `i`, argument `j`. */
  function Output(fmt: seq<byte>, i: nat, args: seq<Arg>, j: nat): (s: seq<byte>)
    decreases |fmt| - i
  {
    if At(fmt, i) == 0 then []
    else if fmt[i] != '%' as int then [fmt[i]] + Output(fmt, i + 1, args, j)
    else
      var d := ParseDirective(fmt, i + 1, args, j);
      Render(d, args) + Output(fmt, d.i, args, if TakesArg(d.conv) then d.j + 1 else d.j)
  }

  function Full(fmt: seq<byte>, args: seq<Arg>): seq<byte> {
    Output(fmt, 0, args, 0)
  }

  /** Every conversion ends before the terminator, and none is %f. */
  predicate FormatOk(fmt: seq<byte>, i: nat, args: seq<Arg>, j: nat)
    decreases |fmt| - i
  {
    if At(fmt, i) == 0 then true
    else if fmt[i] != '%' as int then FormatOk(fmt, i + 1, args, j)
    else
      var d := ParseDirective(fmt, i + 1, args, j);
      d.conv != 0 && d.conv != 'f' as int && FormatOk(fmt, d.i, args, if TakesArg(d.conv) then d.j + 1 else d.j)
  }

  // ----- reading the format

  method ScanNumber(fmt: seq<byte>, from: nat, args: seq<Arg>, arg: nat) returns (r: Number)
    ensures r == ParseNumber(fmt, from, args, arg, 0)
  {
    var value: int32, i, j := 0, from, arg;
    while true
      invariant from <= i && ParseNumber(fmt, i, args, j, value) == ParseNumber(fmt, from, args, arg, 0)
      decreases |fmt| - i
    {
      var c: int := At(fmt, i);
      i := i + 1;
      if 48 <= c <= 57 {
        c := c - 48;
      } else if c == '*' as int {
        c := Narrow(NumAt(args, j));
        j := j + 1;
      } else {
        return Number(value, c, i, j);
      }
      value := Wrap(value * 10 + c);
    }
  }

  method ScanDirective(fmt: seq<byte>, from: nat, args: seq<Arg>, arg: nat) returns (d: Directive)
    ensures d == ParseDirective(fmt, from, args, arg)
  {
    hide ParseNumber;
    var i := from;
    var left := false;
    if At(fmt, i) == '-' as int {
      i := i + 1;
      left := true;
    }
    var zero := false;
    if At(fmt, i) == '0' as int {
      i := i + 1;
      zero := true;
    }
    var w := ScanNumber(fmt, i, args, arg);
    var p := Number(0, w.stop, w.i, w.j);
    if w.stop == '.' as int {
      p := ScanNumber(fmt, w.i, args, w.j);
    }
    var c := p.stop;
    i := p.i;
    if c == 'l' as int || c == 'L' as int {
      if At(fmt, i) != 0 {
        c := At(fmt, i);
        i := i + 1;
      }
    }
    d := Directive(left, zero, w.value, p.value, c, i, p.j);
  }

  /** The loop that finds the end of a string argument. */
  method TextEnd(s: seq<byte>, precision: int32) returns (p: nat)
    ensures p == TextLen(|s|, precision)
  {
    var left: int := if precision == 0 then 32767 else precision;
    p := 0;
    while p < |s|
      invariant p <= |s|
      invariant p == 0 || left >= 0
      invariant left + p == (if precision == 0 then 32767 else precision)
    {
      left := left - 1;
      if !(left >= 0) { return; }
      p := p + 1;
    }
  }

  /** Converts one argument, numbers through the scratch area. */
  method Convert(d: Directive, args: seq<Arg>, tmp: array<byte>) returns (body: seq<byte>)
    requires tmp.Length == 2 * MAX_FILLER + 1
    modifies tmp
    ensures body == Body(d, args)
  {
    hide Digits, LowDigits, NumDigits;
    var p := 0;
    if d.conv == 'c' as int {
      tmp[p] := NumAt(args, d.j) % 256;
      p := p + 1;
    } else if d.conv == 's' as int {
      var s := TextAt(args, d.j);
      var n := TextEnd(s, d.precision);
      return s[..n];
    } else if Signed(d.conv) {
      var l: int := NumAt(args, d.j);
      if l < 0 {
        tmp[p] := '-' as int;
        p := p + 1;
        l := Wrap(-l);
      }
      UnsignedOf(NumAt(args, d.j));
      DigitsAre(Mod32(l), 10);
      ghost var start := p;
      p := LongToString(tmp, p, Mod32(l), 10, 0);
      assert tmp[..p] == tmp[..start] + tmp[start..p];
    } else if RadixOf(d.conv) != 0 {
      DigitsAre(Mod32(NumAt(args, d.j)), RadixOf(d.conv));
      p := LongToString(tmp, p, Mod32(NumAt(args, d.j)), RadixOf(d.conv), 0);
    } else {
      tmp[p] := d.conv;
      p := p + 1;
    }
    body := tmp[..p];
  }

  /** Negating and printing as unsigned gives the magnitude, for the least integer too. */
  lemma UnsignedOf(v: int)
    requires -0x8000_0000 <= v < 0x8000_0000
    ensures v < 0 ==> Mod32(Wrap(-v)) == -v
    ensures v >= 0 ==> Mod32(v) == v
  {
  }

  lemma DigitsAre(v: nat, r: nat)
    requires Radix(r)
    ensures Digits(v, r) == LowDigits(v, r, NumDigits(v, r))
  {
  }

  // ----- writing

  /** The stream holds what fits of `s` behind `c0`, and nothing behind its end changed. */
  ghost predicate Wrote(ms: MemoryStream, c0: seq<byte>, b0: seq<byte>, s: seq<byte>)
    reads ms, ms.buffer
  {
    && ms.Valid() && |c0| <= ms.size && |b0| == ms.buffer.Length
    && ms.Contents() == Clip(c0, s, ms.size)
    && ms.buffer[ms.eos..] == b0[ms.eos..]
  }

  method Emit(ms: MemoryStream, b: byte, count: int32, ghost c0: seq<byte>, ghost b0: seq<byte>, ghost s: seq<byte>)
    returns (n: int32)
    requires Wrote(ms, c0, b0, s) && count == Wrap(|s|)
    modifies ms`eos, ms.buffer
    ensures Wrote(ms, c0, b0, s + [b]) && n == Wrap(|s + [b]|)
  {
    hide Clip;
    ClipMore(c0, s, [b], ms.size);
    var r := ms.Put(b);
    WrapAdd(|s|, 1);
    n := Wrap(count + 1);
    assert b0[ms.eos..] == b0[old(ms.eos)..][ms.eos - old(ms.eos)..];
    assert old(ms.buffer[..])[ms.eos..] == old(ms.buffer[ms.eos..])[ms.eos - old(ms.eos)..];
  }

  method EmitAll(ms: MemoryStream, t: seq<byte>, count: int32, ghost c0: seq<byte>, ghost b0: seq<byte>,
                 ghost s: seq<byte>)
    returns (n: int32)
    requires Wrote(ms, c0, b0, s) && count == Wrap(|s|)
    modifies ms`eos, ms.buffer
    ensures Wrote(ms, c0, b0, s + t) && n == Wrap(|s + t|)
  {
    hide Wrote, Wrap;
    n := count;
    var i := 0;
    assert s + t[..0] == s;
    while i < |t|
      invariant i <= |t| && Wrote(ms, c0, b0, s + t[..i]) && n == Wrap(|s + t[..i]|)
    {
      n := Emit(ms, t[i], n, c0, b0, s + t[..i]);
      assert s + t[..i] + [t[i]] == s + t[..i + 1];
      i := i + 1;
    }
    assert t[..i] == t;
  }

  method EmitFiller(ms: MemoryStream, b: byte, pad: nat, count: int32, ghost c0: seq<byte>, ghost b0: seq<byte>,
                    ghost s: seq<byte>)
    returns (n: int32)
    requires Wrote(ms, c0, b0, s) && count == Wrap(|s|)
    modifies ms`eos, ms.buffer
    ensures Wrote(ms, c0, b0, s + Filled(b, pad)) && n == Wrap(|s + Filled(b, pad)|)
  {
    hide Wrote, Wrap;
    n := count;
    var width := 0;
    assert s + Filled(b, 0) == s;
    while width != pad
      invariant width <= pad && Wrote(ms, c0, b0, s + Filled(b, width)) && n == Wrap(|s + Filled(b, width)|)
      decreases pad - width
    {
      n := Emit(ms, b, n, c0, b0, s + Filled(b, width));
      Assoc(s, Filled(b, width), [b]);
      width := width + 1;
    }
  }

  /** Padding and body of one conversion, in the source's order. */
  method EmitPadded(ms: MemoryStream, left: bool, filler: byte, pad: nat, body: seq<byte>, count: int32,
                    ghost c0: seq<byte>, ghost b0: seq<byte>, ghost s: seq<byte>)
    returns (n: int32)
    requires Wrote(ms, c0, b0, s) && count == Wrap(|s|)
    modifies ms`eos, ms.buffer
    ensures Wrote(ms, c0, b0, s + Padded(left, filler, pad, body)) && n == Wrap(|s + Padded(left, filler, pad, body)|)
  {
    hide Wrote, Wrap, Filled;
    n := count;
    if left {
      n := EmitAll(ms, body, n, c0, b0, s);
      n := EmitFiller(ms, filler, pad, n, c0, b0, s + body);
      Assoc(s, body, Filled(filler, pad));
      return;
    }
    if pad > 0 && |body| > 0 && body[0] == '-' as int && filler == '0' as int {
      n := Emit(ms, body[0], n, c0, b0, s);
      n := EmitFiller(ms, filler, pad, n, c0, b0, s + [body[0]]);
      n := EmitAll(ms, body[1..], n, c0, b0, s + [body[0]] + Filled(filler, pad));
      assert s + [body[0]] + Filled(filler, pad) + body[1..] == s + ([body[0]] + Filled(filler, pad) + body[1..]);
      return;
    }
    n := EmitFiller(ms, filler, pad, n, c0, b0, s);
    n := EmitAll(ms, body, n, c0, b0, s + Filled(filler, pad));
    Assoc(s, Filled(filler, pad), body);
  }

  /** chvprintf on a memory stream.  The stream receives what fits of the full output; the
      result is the full length, wrapped to 32 bits. */
  method Vprintf(ms: MemoryStream, fmt: seq<byte>, args: seq<Arg>) returns (n: int32)
    requires ms.Valid() && FormatOk(fmt, 0, args, 0)
    modifies ms`eos, ms.buffer
    ensures ms.Valid() && n == Wrap(|Full(fmt, args)|)
    ensures Wrote(ms, old(ms.Contents()), old(ms.buffer[..]), Full(fmt, args))
  {
    hide Wrap, ParseDirective, TakesArg, Render, Clip;
    ghost var c0, b0 := ms.Contents(), ms.buffer[..];
    ghost var s: seq<byte> := [];
    ClipNone(c0, ms.size);
    WrapAdd(0, 0);
    n := 0;
    var i, j := 0, 0;
    var tmp := new byte[2 * MAX_FILLER + 1];
    while true
      invariant Wrote(ms, c0, b0, s) && n == Wrap(|s|) && fresh(tmp)
      invariant Full(fmt, args) == s + Output(fmt, i, args, j) && FormatOk(fmt, i, args, j)
      decreases |fmt| - i
    {
      var c := At(fmt, i);
      if c == 0 {
        assert s + [] == s;
        return;
      }
      if c != '%' as int {
        Assoc(s, [c], Output(fmt, i + 1, args, j));
        n := Emit(ms, c, n, c0, b0, s);
        s := s + [c];
        i := i + 1;
        continue;
      }
      var d := ScanDirective(fmt, i + 1, args, j);
      i, j, n := Conversion(ms, d, args, n, tmp, c0, b0, s);
      Assoc(s, Render(d, args), Output(fmt, i, args, j));
      s := s + Render(d, args);
    }
  }

  method Conversion(ms: MemoryStream, d: Directive, args: seq<Arg>, count: int32, tmp: array<byte>,
                    ghost c0: seq<byte>, ghost b0: seq<byte>, ghost s: seq<byte>)
    returns (i: nat, j: nat, n: int32)
    requires Wrote(ms, c0, b0, s) && count == Wrap(|s|) && tmp != ms.buffer && tmp.Length == 2 * MAX_FILLER + 1
    modifies ms`eos, ms.buffer, tmp
    ensures Wrote(ms, c0, b0, s + Render(d, args)) && n == Wrap(|s + Render(d, args)|)
    ensures i == d.i && j == if TakesArg(d.conv) then d.j + 1 else d.j
  {
    hide Body, Padded, Filled;
    var body := Convert(d, args, tmp);
    var pad := PadLen(d.width, |body|);
    n := EmitPadded(ms, d.left, FillerOf(d), pad, body, count, c0, b0, s);
    i, j := d.i, if TakesArg(d.conv) then d.j + 1 else d.j;
  }

  /** chsnprintf.  The buffer receives the first `size - 1` bytes of the output and a NUL,
      bytes behind that are untouched, and the full length is returned. */
  method Snprintf(str: array<byte>, size: nat, fmt: seq<byte>, args: seq<Arg>) returns (n: int32)
    requires size <= str.Length && FormatOk(fmt, 0, args, 0)
    modifies str
    ensures n == Wrap(|Full(fmt, args)|)
    ensures size == 0 ==> str[..] == old(str[..])
    ensures size > 0 ==>
              var k := Min(|Full(fmt, args)|, size - 1);
              str[..k] == Full(fmt, args)[..k] && str[k] == 0 && str[k + 1..] == old(str[..])[k + 1..]
  {
    hide Wrap, Output;
    var room := if size > 0 then size - 1 else 0;
    var ms := new MemoryStream(str, room, 0);
    ghost var all := str[..];
    n := Vprintf(ms, fmt, args);
    assert str[ms.eos..] == all[ms.eos..];
    assert str[..ms.eos] == Full(fmt, args)[..Min(|Full(fmt, args)|, room)];
    if size == 0 { assert str[..] == str[0..] == all[0..] == all; }
    if ms.eos < size {
      ghost var k := ms.eos;
      assert str[k + 1..] == str[k..][1..] && all[k + 1..] == all[k..][1..];
      str[ms.eos] := 0;
    }
  }

  // ----- what the printed text says

  /** Reads a decimal number with an optional sign. */
  function ReadSigned(s: seq<byte>): int {
    if |s| > 0 && s[0] == '-' as int then -Value(s[1..], 10) else Value(s, 10)
  }

  lemma {:induction false} LeadingZeros(n: nat, s: seq<byte>, r: nat)
    requires Radix(r)
    ensures Value(Filled(48, n) + s, r) == Value(s, r)
    decreases |s|, n
  {
    if |s| > 0 {
      var last := |s| - 1;
      LeadingZeros(n, s[..last], r);
      assert (Filled(48, n) + s)[..n + last] == Filled(48, n) + s[..last];
    } else if n > 0 {
      LeadingZeros(n - 1, s, r);
      assert Filled(48, n) + s == Filled(48, n);
      assert Filled(48, n - 1) + s == Filled(48, n - 1);
      assert Filled(48, n)[..n - 1] == Filled(48, n - 1);
    }
  }

  /** A signed conversion reads back as its argument, over the whole 32-bit range, also
      with zero padding in front. */
  lemma SignedReadsBack(d: Directive, args: seq<Arg>)
    requires Signed(d.conv)
    ensures ReadSigned(Body(d, args)) == NumAt(args, d.j)
    ensures d.zero && !d.left ==> ReadSigned(Render(d, args)) == NumAt(args, d.j)
  {
    hide Digits, Value, Wrap, Filled;
    var v: int := NumAt(args, d.j);
    var body := Body(d, args);
    var pad := PadLen(d.width, |body|);
    var m := if v < 0 then -v else v;
    var digits := Digits(m, 10);
    DigitsValue(m, 10);
    Canonical(m, 10);
    assert IsDigit(digits[0], 10);
    LeadingZeros(pad, digits, 10);
    if v < 0 {
      assert body == ['-' as int] + digits && body[1..] == digits;
      if pad > 0 {
        var z := ['-' as int] + Filled(48, pad) + digits;
        assert z[1..] == Filled(48, pad) + digits;
      } else {
        assert Filled(48, pad) + body == body;
      }
    } else {
      FilledAt(48, pad);
      assert Filled(48, pad) + body == body || (Filled(48, pad) + body)[0] == 48;
    }
  }

  lemma {:induction false} FilledAt(b: byte, n: nat)
    ensures forall i | 0 <= i < n :: Filled(b, n)[i] == b
  {
    if n > 0 { FilledAt(b, n - 1); }
  }

  /** The unsigned conversions and their radices. */
  predicate Prints(conv: byte, r: nat) {
    || (r == 16 && (conv == 'x' as int || conv == 'X' as int))
    || (r == 10 && (conv == 'u' as int || conv == 'U' as int))
    || (r == 8 && (conv == 'o' as int || conv == 'O' as int))
  }

  /** An unsigned conversion reads back, hexadecimal, decimal or octal, as the argument modulo
      2^32, and has no leading zero of its own. */
  lemma UnsignedReadsBack(d: Directive, args: seq<Arg>, r: nat)
    requires Prints(d.conv, r)
    ensures Value(Body(d, args), r) == Mod32(NumAt(args, d.j))
    ensures |Body(d, args)| > 0 && forall k | 0 <= k < |Body(d, args)| :: IsDigit(Body(d, args)[k], r)
    ensures Body(d, args)[0] == 48 ==> |Body(d, args)| == 1
    ensures d.zero && !d.left ==> Value(Render(d, args), r) == Mod32(NumAt(args, d.j))
  {
    hide Digits, Value, Wrap, Filled, Mod32;
    var m := Mod32(NumAt(args, d.j));
    DigitsValue(m, r);
    Canonical(m, r);
    assert IsDigit(Digits(m, r)[0], r);
    LeadingZeros(PadLen(d.width, |Body(d, args)|), Digits(m, r), r);
  }

  /** `%s` prints the string up to its precision, 0 meaning 32767; a null pointer prints as
      (null).  `%c` prints the low byte.  A character that is no conversion prints itself. */
  lemma TextPrints(d: Directive, args: seq<Arg>)
    ensures d.conv == 's' as int ==>
              var s := if d.j < |args| && args[d.j].Text? then args[d.j].s else [40, 110, 117, 108, 108, 41];
              var most := if d.precision == 0 then 32767 else d.precision;
              Body(d, args) <= s && |Body(d, args)| == if most < 0 then 0 else if most < |s| then most else |s|
    ensures d.conv == 'c' as int ==> |Body(d, args)| == 1 && (NumAt(args, d.j) - Body(d, args)[0]) % 256 == 0
    ensures d.conv !in Conversions() ==> Body(d, args) == [d.conv]
  {
    hide Digits;
  }

  /** c s d D i I x X u U o O */
  function Conversions(): set<byte> {
    {99, 115, 100, 68, 105, 73, 120, 88, 117, 85, 111, 79}
  }

  /** A field: left-aligned it begins with the conversion and fillers follow; right-aligned the
      fillers come first, behind a minus sign if they are zeros. */
  predicate FieldOf(left: bool, filler: byte, body: seq<byte>, field: seq<byte>) {
    |field| >= |body| &&
    var pad := |field| - |body|;
    if left then field[..|body|] == body && AllAre(field[|body|..], filler)
    else if pad > 0 && filler == 48 && |body| > 0 && body[0] == 45 then
      field[0] == 45 && AllAre(field[1..1 + pad], filler) && field[1 + pad..] == body[1..]
    else AllAre(field[..pad], filler) && field[pad..] == body
  }

  predicate AllAre(s: seq<byte>, b: byte) {
    forall k | 0 <= k < |s| :: s[k] == b
  }

  lemma FilledAll(b: byte, n: nat)
    ensures AllAre(Filled(b, n), b)
  {
    FilledAt(b, n);
  }

  lemma PaddedIs(left: bool, filler: byte, pad: nat, body: seq<byte>)
    ensures FieldOf(left, filler, body, Padded(left, filler, pad, body))
  {
    hide Filled, AllAre;
    var fill := Filled(filler, pad);
    FilledAll(filler, pad);
    var field := Padded(left, filler, pad, body);
    if left {
      assert field[|body|..] == fill;
    } else if pad > 0 && filler == 48 && |body| > 0 && body[0] == 45 {
      assert field[1..1 + pad] == fill;
    } else {
      assert field[..pad] == fill;
    }
  }

  /** Fillers are blanks unless the zero flag is set, and always for strings and characters. */
  lemma FieldIs(d: Directive, args: seq<Arg>)
    ensures FieldOf(d.left, if d.zero && d.conv != 99 && d.conv != 115 then 48 else 32, Body(d, args), Render(d, args))
  {
    hide Body, PadLen, Padded, FieldOf;
    PaddedIs(d.left, FillerOf(d), PadLen(d.width, |Body(d, args)|), Body(d, args));
  }

  /** A conversion fills its field: the larger of its width and its own length, unless their
      32-bit difference wraps around. */
  lemma FieldWidth(d: Directive, args: seq<Arg>)
    ensures var pad := Wrap(d.width - |Body(d, args)|);
            |Render(d, args)| == |Body(d, args)| + if pad > 0 then pad else 0
    ensures d.width - |Body(d, args)| >= -0x8000_0000 ==>
              |Render(d, args)| == if d.width > |Body(d, args)| then d.width else |Body(d, args)|
  {
    hide Body, Filled;
    WrapAdd(d.width - |Body(d, args)|, 0);
  }

  // ----- a directive scans back

  /** A character that ends a directive and cannot be taken for a part of it. */
  predicate Ends(c: byte) {
    c != 0 && c != '-' as int && c != '*' as int && c != '.' as int && c != 'l' as int && c != 'L' as int
    && !(48 <= c <= 57)
  }

  /** A directive as one would write it; a width or precision of 0 is left out. */
  function Written(left: bool, zero: bool, width: nat, precision: nat, conv: byte): seq<byte> {
    (if left then [45] else []) + ((if zero then [48] else []) + Sizes(width, precision, conv))
  }

  function Sizes(width: nat, precision: nat, conv: byte): seq<byte> {
    Decimal(width) + Tail(precision, conv)
  }

  function Tail(precision: nat, conv: byte): seq<byte> {
    (if precision > 0 then [46] + Decimal(precision) else []) + [conv]
  }

  function Decimal(v: nat): seq<byte> {
    if v > 0 then Digits(v, 10) else []
  }

  /** `s` stands in the format at `i`. */
  predicate Holds(fmt: seq<byte>, i: nat, s: seq<byte>) {
    i + |s| <= |fmt| && fmt[i..i + |s|] == s
  }

  lemma HoldsParts(fmt: seq<byte>, i: nat, a: seq<byte>, b: seq<byte>)
    requires Holds(fmt, i, a + b)
    ensures Holds(fmt, i, a) && Holds(fmt, i + |a|, b)
  {
    assert fmt[i..i + |a|] == (a + b)[..|a|] == a;
    assert fmt[i + |a|..i + |a| + |b|] == (a + b)[|a|..] == b;
  }

  lemma HoldsAt(fmt: seq<byte>, i: nat, s: seq<byte>, k: nat)
    requires Holds(fmt, i, s) && k < |s|
    ensures At(fmt, i + k) == s[k]
  {
  }

  lemma {:induction false} PrefixValue(s: seq<byte>, m: nat)
    requires m <= |s| && forall k | 0 <= k < |s| :: IsDigit(s[k], 10)
    ensures 0 <= Value(s[..m], 10) <= Value(s, 10)
  {
    if m < |s| {
      var n := |s| - 1;
      PrefixValue(s[..n], m);
      assert s[..n][..m] == s[..m];
    } else {
      assert s[..m] == s;
      if m > 0 { PrefixValue(s[..m - 1], m - 1); }
    }
  }

  lemma DigitScans(fmt: seq<byte>, i: nat, args: seq<Arg>, j: nat, acc: int32)
    requires 48 <= At(fmt, i) <= 57 && 0 <= acc * 10 + (At(fmt, i) - 48) < 0x8000_0000
    ensures ParseNumber(fmt, i, args, j, acc) == ParseNumber(fmt, i + 1, args, j, acc * 10 + (At(fmt, i) - 48))
  {
    WrapAdd(acc * 10 + (At(fmt, i) - 48), 0);
  }

  predicate Stops(c: byte) {
    !(48 <= c <= 57) && c != '*' as int
  }

  lemma StopScans(fmt: seq<byte>, i: nat, args: seq<Arg>, j: nat, acc: int32)
    requires Stops(At(fmt, i))
    ensures ParseNumber(fmt, i, args, j, acc) == Number(acc, At(fmt, i), i + 1, j)
  {
  }

  lemma DigitIs(c: byte)
    requires IsDigit(c, 10)
    ensures 48 <= c <= 57 && DigitValue(c) == c - 48
  {
  }

  /** Reading the decimal digits of a number gives the number. */
  lemma {:induction false} NumberScans(fmt: seq<byte>, i: nat, args: seq<Arg>, j: nat, s: seq<byte>, m: nat)
    requires Holds(fmt, i, s) && m <= |s| && forall k | 0 <= k < |s| :: IsDigit(s[k], 10)
    requires 0 <= Value(s, 10) < 0x8000_0000 && Stops(At(fmt, i + |s|))
    ensures 0 <= Value(s[..m], 10) < 0x8000_0000
    ensures ParseNumber(fmt, i + m, args, j, Value(s[..m], 10))
            == Number(Value(s, 10), At(fmt, i + |s|), i + |s| + 1, j)
    decreases |s| - m
  {
    hide ParseNumber, Value, Holds, IsDigit;
    PrefixValue(s, m);
    if m == |s| {
      assert s[..m] == s;
      StopScans(fmt, i + m, args, j, Value(s, 10));
    } else {
      DigitIs(s[m]);
      HoldsAt(fmt, i, s, m);
      PrefixValue(s, m + 1);
      assert s[..m + 1] == s[..m] + [s[m]];
      ValueSnoc(s[..m], s[m], 10);
      DigitScans(fmt, i + m, args, j, Value(s[..m], 10));
      NumberScans(fmt, i, args, j, s, m + 1);
    }
  }

  /** What a width or precision that may be left out scans to, and what follows it. */
  lemma DecimalScans(fmt: seq<byte>, i: nat, args: seq<Arg>, j: nat, v: nat)
    requires v < 0x8000_0000 && Holds(fmt, i, Decimal(v)) && Stops(At(fmt, i + |Decimal(v)|))
    ensures var k := i + |Decimal(v)|; ParseNumber(fmt, i, args, j, 0) == Number(v, At(fmt, k), k + 1, j)
    ensures v > 0 ==> 48 < At(fmt, i) <= 57
  {
    if v > 0 {
      hide ParseNumber, Digits, Value, Holds;
      DigitsValue(v, 10);
      Canonical(v, 10);
      var s := Digits(v, 10);
      assert s[..0] == [];
      ValueSnoc([], 48, 10);
      NumberScans(fmt, i, args, j, s, 0);
      HoldsAt(fmt, i, s, 0);
    }
  }

  lemma SizesScan(fmt: seq<byte>, i: nat, args: seq<Arg>, j: nat, width: nat, precision: nat, conv: byte)
    requires width < 0x8000_0000 && precision < 0x8000_0000 && Holds(fmt, i, Sizes(width, precision, conv))
    requires Ends(conv) || conv == 'l' as int || conv == 'L' as int
    ensures At(fmt, i) != 45 && At(fmt, i) != 48
    ensures var k := i + |Decimal(width)|;
            var end := i + |Sizes(width, precision, conv)|;
            && ParseNumber(fmt, i, args, j, 0) == Number(width, if precision > 0 then 46 else conv, k + 1, j)
            && (precision > 0 ==> ParseNumber(fmt, k + 1, args, j, 0) == Number(precision, conv, end, j))
            && (precision == 0 ==> k + 1 == end)
  {
    hide ParseNumber, Digits, Holds, Decimal, At;
    var k := i + |Decimal(width)|;
    HoldsParts(fmt, i, Decimal(width), Tail(precision, conv));
    TailScans(fmt, k, args, j, precision, conv);
    DecimalScans(fmt, i, args, j, width);
    NoDigits();
  }

  lemma TailScans(fmt: seq<byte>, k: nat, args: seq<Arg>, j: nat, precision: nat, conv: byte)
    requires precision < 0x8000_0000 && Holds(fmt, k, Tail(precision, conv))
    requires Ends(conv) || conv == 'l' as int || conv == 'L' as int
    ensures At(fmt, k) == if precision > 0 then 46 else conv
    ensures precision > 0 ==>
              ParseNumber(fmt, k + 1, args, j, 0) == Number(precision, conv, k + |Tail(precision, conv)|, j)
  {
    hide ParseNumber, Digits, Holds, Decimal, At;
    var p: seq<byte> := if precision > 0 then [46] + Decimal(precision) else [];
    HoldsParts(fmt, k, p, [conv]);
    HoldsAt(fmt, k + |p|, [conv], 0);
    if precision > 0 {
      HoldsAt(fmt, k, p, 0);
      HoldsParts(fmt, k, [46], Decimal(precision));
      DecimalScans(fmt, k + 1, args, j, precision);
    }
  }

  lemma NoDigits()
    ensures Decimal(0) == []
  {
  }

  lemma FlagsScan(fmt: seq<byte>, i: nat, args: seq<Arg>, j: nat,
                  left: bool, zero: bool, width: nat, precision: nat, stop: byte)
    requires width < 0x8000_0000 && precision < 0x8000_0000 && (Ends(stop) || stop == 'l' as int || stop == 'L' as int)
    requires Holds(fmt, i, Written(left, zero, width, precision, stop))
    ensures var end := i + |Written(left, zero, width, precision, stop)|;
            ParseDirective(fmt, i, args, j) ==
            if !Ends(stop) && At(fmt, end) != 0 then Directive(left, zero, width, precision, At(fmt, end), end + 1, j)
            else Directive(left, zero, width, precision, stop, end, j)
  {
    hide ParseNumber, Digits, Holds, Sizes, ParseDirective, At, Decimal;
    var minus: seq<byte> := if left then [45] else [];
    var nought: seq<byte> := if zero then [48] else [];
    var sizes := Sizes(width, precision, stop);
    HoldsParts(fmt, i, minus, nought + sizes);
    HoldsParts(fmt, i + |minus|, nought, sizes);
    if left { HoldsAt(fmt, i, minus, 0); }
    if zero { HoldsAt(fmt, i + |minus|, nought, 0); }
    SizesScan(fmt, i + |minus| + |nought|, args, j, width, precision, stop);
    DirectiveIs(fmt, i, args, j, left, zero);
  }

  /** The parts of a directive whose flags are known. */
  lemma DirectiveIs(fmt: seq<byte>, i: nat, args: seq<Arg>, j: nat, left: bool, zero: bool)
    requires var i1 := if left then i + 1 else i; var i2 := if zero then i1 + 1 else i1;
             && (left || zero || At(fmt, i) != 45) && (left ==> At(fmt, i) == 45) && (zero ==> At(fmt, i1) == 48)
             && At(fmt, i2) != 45 && (!zero ==> At(fmt, i2) != 48)
    ensures var i2 := i + (if left then 1 else 0) + if zero then 1 else 0;
            var w := ParseNumber(fmt, i2, args, j, 0);
            var p := if w.stop == 46 then ParseNumber(fmt, w.i, args, w.j, 0) else Number(0, w.stop, w.i, w.j);
            ParseDirective(fmt, i, args, j) ==
            if (p.stop == 'l' as int || p.stop == 'L' as int) && At(fmt, p.i) != 0 then
              Directive(left, zero, w.value, p.value, At(fmt, p.i), p.i + 1, p.j)
            else Directive(left, zero, w.value, p.value, p.stop, p.i, p.j)
  {
    hide ParseNumber, At;
  }

  /** A directive written from its flags, width, precision and conversion scans back as those,
      and scanning stops right behind it. */
  lemma DirectiveScansBack(fmt: seq<byte>, i: nat, args: seq<Arg>, j: nat,
                           left: bool, zero: bool, width: nat, precision: nat, conv: byte)
    requires width < 0x8000_0000 && precision < 0x8000_0000 && Ends(conv)
    requires Holds(fmt, i, Written(left, zero, width, precision, conv))
    ensures ParseDirective(fmt, i, args, j)
            == Directive(left, zero, width, precision, conv, i + |Written(left, zero, width, precision, conv)|, j)
  {
    hide ParseDirective, Written, Holds;
    FlagsScan(fmt, i, args, j, left, zero, width, precision, conv);
  }

  /** The same with the long modifier in front of the conversion. */
  lemma LongScansBack(fmt: seq<byte>, i: nat, args: seq<Arg>, j: nat,
                      left: bool, zero: bool, width: nat, precision: nat, el: byte, conv: byte)
    requires width < 0x8000_0000 && precision < 0x8000_0000 && (el == 'l' as int || el == 'L' as int) && conv != 0
    requires Holds(fmt, i, Written(left, zero, width, precision, el) + [conv])
    ensures ParseDirective(fmt, i, args, j)
            == Directive(left, zero, width, precision, conv, i + |Written(left, zero, width, precision, el)| + 1, j)
  {
    hide ParseDirective, Written, Holds;
    var w := Written(left, zero, width, precision, el);
    HoldsParts(fmt, i, w, [conv]);
    HoldsAt(fmt, i + |w|, [conv], 0);
    FlagsScan(fmt, i, args, j, left, zero, width, precision, el);
  }

  /** `*` stands for the next argument, narrowed to a signed char. */
  lemma StarScans(fmt: seq<byte>, i: nat, args: seq<Arg>, j: nat, n: int)
    requires At(fmt, i) == '*' as int && -128 <= n < 128 && (NumAt(args, j) - n) % 256 == 0
    ensures ParseNumber(fmt, i, args, j, 0) == ParseNumber(fmt, i + 1, args, j + 1, n)
  {
    assert Narrow(NumAt(args, j)) == n;
    WrapAdd(n, 0);
  }

  // ----- whole formats

  /** Ordinary text stands for itself, and the terminator ends the format. */
  lemma TextIsItself(fmt: seq<byte>, i: nat, args: seq<Arg>, j: nat)
    ensures At(fmt, i) == 0 ==> Output(fmt, i, args, j) == []
    ensures At(fmt, i) != 0 && At(fmt, i) != '%' as int ==>
              Output(fmt, i, args, j) == [At(fmt, i)] + Output(fmt, i + 1, args, j)
  {
  }

  /** A directive prints its field and uses up one argument if it is a conversion, else none. */
  lemma DirectivePrints(fmt: seq<byte>, i: nat, args: seq<Arg>, j: nat,
                        left: bool, zero: bool, width: nat, precision: nat, conv: byte)
    requires width < 0x8000_0000 && precision < 0x8000_0000 && Ends(conv)
    requires Holds(fmt, i, [37] + Written(left, zero, width, precision, conv))
    ensures var next := i + 1 + |Written(left, zero, width, precision, conv)|;
            Output(fmt, i, args, j) ==
            Render(Directive(left, zero, width, precision, conv, next, j), args)
            + Output(fmt, next, args, if conv in Conversions() then j + 1 else j)
  {
    hide ParseDirective, Render, Written, Holds;
    HoldsParts(fmt, i, [37], Written(left, zero, width, precision, conv));
    HoldsAt(fmt, i, [37], 0);
    DirectiveScansBack(fmt, i + 1, args, j, left, zero, width, precision, conv);
  }

  /** A format that is one directive. */
  lemma OneDirective(left: bool, zero: bool, width: nat, precision: nat, conv: byte, args: seq<Arg>)
    requires width < 0x8000_0000 && precision < 0x8000_0000 && Ends(conv)
    ensures var fmt := [37] + Written(left, zero, width, precision, conv);
            Full(fmt, args) == Render(Directive(left, zero, width, precision, conv, |fmt|, 0), args)
  {
    hide ParseDirective, Render, Written, Output;
    var fmt := [37] + Written(left, zero, width, precision, conv);
    DirectivePrints(fmt, 0, args, 0, left, zero, width, precision, conv);
    TextIsItself(fmt, |fmt|, args, if conv in Conversions() then 1 else 0);
  }

  /** `%d`, `%x`, `%u` and `%o` in any width, zero-padded or not: the number reads back. */
  lemma NumbersPrint(v: int32, width: nat)
    requires width < 0x8000_0000
    ensures ReadSigned(Full([37] + Written(false, true, width, 0, 'd' as int), [Num(v)])) == v
    ensures Value(Full([37] + Written(false, true, width, 0, 'x' as int), [Num(v)]), 16) == Mod32(v)
    ensures Value(Full([37] + Written(false, true, width, 0, 'u' as int), [Num(v)]), 10) == Mod32(v)
    ensures Value(Full([37] + Written(false, true, width, 0, 'o' as int), [Num(v)]), 8) == Mod32(v)
  {
    hide Written, Output, Render, Value, ReadSigned, Mod32, Body, Full;
    OnePrints(v, width, 'd' as int);
    OnePrints(v, width, 'x' as int);
    OnePrints(v, width, 'u' as int);
    OnePrints(v, width, 'o' as int);
  }

  lemma OnePrints(v: int32, width: nat, conv: byte)
    requires width < 0x8000_0000 && Ends(conv)
    ensures var s := Full([37] + Written(false, true, width, 0, conv), [Num(v)]);
            && (Signed(conv) ==> ReadSigned(s) == v)
            && (forall r | Prints(conv, r) :: Value(s, r) == Mod32(v))
  {
    hide Written, Output, Render, Value, ReadSigned, Mod32, Body, Full;
    var fmt := [37] + Written(false, true, width, 0, conv);
    var d := Directive(false, true, width, 0, conv, |fmt|, 0);
    OneDirective(false, true, width, 0, conv, [Num(v)]);
    if Signed(conv) { SignedReadsBack(d, [Num(v)]); }
    forall r | Prints(conv, r) ensures Value(Render(d, [Num(v)]), r) == Mod32(v) {
      UnsignedReadsBack(d, [Num(v)], r);
    }
  }
}
