/** vsnprintf: the unbounded expansion of a format as a function, and the code that writes as much
    of it as the buffer holds, with its block-fill and block-copy shortcuts. */
module BoundedFormat {
  import opened Radix

  type U64 = x: int | 0 <= x < 0x1_0000_0000_0000_0000

  // ---- Numerals --------------------------------------------------------------------------------

  function Digit(d: int, upper: bool): char
    requires 0 <= d < 36
  {
    if d < 10 then ('0' as int + d) as char else ((if upper then 'A' else 'a') as int + d - 10) as char
  }

  function DigitValue(c: char): int {
    if '0' <= c <= '9' then c as int - '0' as int
    else if 'A' <= c <= 'Z' then c as int - 'A' as int + 10
    else c as int - 'a' as int + 10
  }

  /** The digits of v, none for zero. */
  function Digits(v: nat, base: nat, upper: bool): seq<char>
    requires 2 <= base <= 36
  {
    if v == 0 then [] else Digits(v / base, base, upper) + [Digit(v % base, upper)]
  }

  function Numeral(v: nat, base: nat, upper: bool): seq<char>
    requires 2 <= base <= 36
  {
    if v == 0 then ['0'] else Digits(v, base, upper)
  }

  /** What a numeral denotes, read from the left. */
  function Denoted(s: seq<char>, base: nat): int {
    if s == [] then 0 else base * Denoted(s[..|s| - 1], base) + DigitValue(s[|s| - 1])
  }

  /** A numeral denotes its number and has no leading zero. */
  lemma {:induction false} DigitsDenote(v: nat, base: nat, upper: bool)
    requires 2 <= base <= 36
    ensures Denoted(Digits(v, base, upper), base) == v
    ensures v > 0 ==> Digits(v, base, upper) != [] && Digits(v, base, upper)[0] != '0'
  {
    hide Digit, DigitValue;
    if v > 0 {
      var q, r := v / base, v % base;
      DivModParts(v, base);
      DigitsDenote(q, base, upper);
      DigitRound(r, upper);
      var rest := Digits(q, base, upper);
      assert (rest + [Digit(r, upper)])[..|rest|] == rest;
      if q == 0 { assert base * q == 0; }
    }
  }

  lemma DivModParts(v: nat, base: nat)
    requires base >= 2
    ensures v == base * (v / base) + v % base && 0 <= v % base < base && v / base >= 0 && (v > 0 ==> v / base < v)
  {}

  lemma DigitRound(d: int, upper: bool)
    requires 0 <= d < 36
    ensures DigitValue(Digit(d, upper)) == d && (d > 0 ==> Digit(d, upper) != '0')
  {}

  lemma NumeralDenotes(v: nat, base: nat, upper: bool)
    requires 2 <= base <= 36
    ensures Denoted(Numeral(v, base, upper), base) == v
    ensures v > 0 ==> Numeral(v, base, upper)[0] != '0'
  {
    DigitsDenote(v, base, upper);
    if v == 0 {
      assert ['0'][..0] == [] && Denoted([], base) == 0;
      assert base * 0 == 0;
    }
  }

  // ---- Fields ----------------------------------------------------------------------------------

  function Repeat(c: char, n: int): (r: seq<char>)
    ensures |r| == if n > 0 then n else 0
  {
    if n <= 0 then [] else seq(n, i => c)
  }

  /** A raw 64-bit value taken as signed. */
  function Signed(v: U64): int { if v as int < 0x8000_0000_0000_0000 then v as int else v as int - TWO64 }

  function Sign(v: U64, base: nat, signed: bool): seq<char> { if signed && base == 10 && Signed(v) < 0 then ['-'] else [] }

  function Magnitude(v: U64, base: nat, signed: bool): nat {
    if signed && base == 10 && Signed(v) < 0 then -Signed(v) else v as int
  }

  /** A number in its field: spaces before, zeros after the sign, or spaces behind. */
  function Field(v: U64, base: nat, width: int, zero: bool, left: bool, upper: bool, signed: bool): seq<char>
    requires 2 <= base <= 36
  {
    var sign, body := Sign(v, base, signed), Numeral(Magnitude(v, base, signed), base, upper);
    var pad := width - |sign| - |body|;
    if left then sign + body + Repeat(' ', pad)
    else if zero then sign + Repeat('0', pad) + body
    else Repeat(' ', pad) + sign + body
  }

  function TextField(s: seq<char>, width: int, precision: int, left: bool): seq<char> {
    var body := if 0 <= precision < |s| then s[..precision] else s;
    var pad := width - |body|;
    if left then body + Repeat(' ', pad) else Repeat(' ', pad) + body
  }

  // ---- The bounded buffer ----------------------------------------------------------------------

  function Kept(size: nat, n: nat): nat { if size == 0 then 0 else if n < size - 1 then n else size - 1 }

  class Output {
    const str: array<char>
    const size: nat
    var pos: nat
    /** All that has been appended so far. */
    ghost var text: seq<char>

    ghost predicate Valid()
      reads this, str
    {
      && size <= str.Length && pos == |text|
      && forall i :: 0 <= i < Kept(size, pos) ==> str[i] == text[i]
    }

    constructor (str: array<char>, size: nat)
      requires size <= str.Length
      ensures Valid() && text == [] && this.str == str && this.size == size
    {
      this.str := str;
      this.size := size;
      pos := 0;
      text := [];
    }

    /** buffer_append */
    method Append(c: char)
      requires Valid()
      modifies this, str
      ensures Valid() && text == old(text) + [c]
      ensures forall i :: size <= i < str.Length ==> str[i] == old(str[i])
    {
      if size > 0 && pos < size - 1 { str[pos] := c; }
      pos := pos + 1;
      text := text + [c];
    }

    /** n copies of c, at once when they fit. */
    method Fill(c: char, n: int)
      requires Valid()
      modifies this, str
      ensures Valid() && text == old(text) + Repeat(c, n)
      ensures forall i :: size <= i < str.Length ==> str[i] == old(str[i])
    {
      if n <= 0 { return; }
      if size > 0 && pos + n < size {
        forall i | pos <= i < pos + n { str[i] := c; }
        pos := pos + n;
        text := text + Repeat(c, n);
      } else {
        for i := 0 to n
          invariant Valid() && text == old(text) + Repeat(c, i)
          invariant forall i :: size <= i < str.Length ==> str[i] == old(str[i])
        {
          Append(c);
          assert Repeat(c, i + 1) == Repeat(c, i) + [c];
        }
      }
    }

    /** Character by character. */
    method Each(s: seq<char>)
      requires Valid()
      modifies this, str
      ensures Valid() && text == old(text) + s
      ensures forall i :: size <= i < str.Length ==> str[i] == old(str[i])
    {
      for i := 0 to |s|
        invariant Valid() && text == old(text) + s[..i]
        invariant forall i :: size <= i < str.Length ==> str[i] == old(str[i])
      {
        Append(s[i]);
        assert s[..i + 1] == s[..i] + [s[i]];
      }
      assert s[..|s|] == s;
    }

    /** A block copy when it fits. */
    method Copy(s: seq<char>)
      requires Valid()
      modifies this, str
      ensures Valid() && text == old(text) + s
      ensures forall i :: size <= i < str.Length ==> str[i] == old(str[i])
    {
      if size > 0 && pos + |s| < size {
        forall i | pos <= i < pos + |s| { str[i] := s[i - pos]; }
        pos := pos + |s|;
        text := text + s;
      } else {
        Each(s);
      }
    }

    /** format_int. The zero flag and left justification are never both set. */
    method FormatInt(v: U64, base: nat, width: int, zero: bool, left: bool, upper: bool, signed: bool)
      requires Valid() && 2 <= base <= 36 && !(zero && left)
      modifies this, str
      ensures Valid() && text == old(text) + Field(v, base, width, zero, left, upper, signed)
      ensures forall i :: size <= i < str.Length ==> str[i] == old(str[i])
    {
      hide Numeral, Repeat, Field, Kept;
      var negative := signed && base == 10 && v as int >= 0x8000_0000_0000_0000;
      var magnitude: nat := if negative then (TWO64 - v as int) % TWO64 else v as int;
      var body := Backwards(magnitude, base, upper);
      var pad := width - |body| - if negative then 1 else 0;
      FieldParts(v, base, width, zero, left, upper, signed);
      ghost var before := if !left && !zero then Repeat(' ', pad) else [];
      ghost var sign := Sign(v, base, signed);
      ghost var zeros := if zero then Repeat('0', pad) else [];
      ghost var after := if left then Repeat(' ', pad) else [];
      ghost var t := text;
      NoRepeat(pad);
      Lead(pad, zero, left, negative);
      Copy(body);
      assert text == t + before + sign + zeros + body;
      if left && pad > 0 { Fill(' ', pad); }
      assert text == t + before + sign + zeros + body + after;
      Regroup(t, before, sign, zeros, body, after);
    }

    /** What format_int writes in front of the digits. */
    method Lead(pad: int, zero: bool, left: bool, negative: bool)
      requires Valid()
      modifies this, str
      ensures Valid()
      ensures text == old(text) + (if !left && !zero then Repeat(' ', pad) else []) + (if negative then ['-'] else [])
                      + (if zero then Repeat('0', pad) else [])
      ensures forall i :: size <= i < str.Length ==> str[i] == old(str[i])
    {
      hide Repeat, Kept;
      NoRepeat(pad);
      if !left && !zero && pad > 0 { Fill(' ', pad); }
      assert text == old(text) + if !left && !zero then Repeat(' ', pad) else [];
      if negative { Append('-'); }
      if zero && pad > 0 { Fill('0', pad); }
    }
  }

  lemma Regroup(t: seq<char>, a: seq<char>, b: seq<char>, c: seq<char>, d: seq<char>, e: seq<char>)
    ensures t + a + b + c + d + e == t + (a + b + c + d + e)
  {}

  /** A field as the five pieces in the order they are written. */
  lemma FieldParts(v: U64, base: nat, width: int, zero: bool, left: bool, upper: bool, signed: bool)
    requires 2 <= base <= 36 && !(zero && left)
    ensures var sign, body := Sign(v, base, signed), Numeral(Magnitude(v, base, signed), base, upper);
            var pad := width - |body| - |sign|;
            Field(v, base, width, zero, left, upper, signed)
            == (if !left && !zero then Repeat(' ', pad) else []) + sign + (if zero then Repeat('0', pad) else [])
               + body + (if left then Repeat(' ', pad) else [])
  {
    hide Numeral, Repeat;
  }

  lemma NoRepeat(n: int)
    ensures n <= 0 ==> Repeat(' ', n) == [] && Repeat('0', n) == []
  {}

  /** The digits are written from the end of a temporary array. */
  method Backwards(v: nat, base: nat, upper: bool) returns (s: seq<char>)
    requires v < TWO64 && 2 <= base <= 36
    ensures s == Numeral(v, base, upper)
  {
    var temp := new char[65];
    var i := 64;
    if v == 0 {
      temp[63] := '0';
      return temp[63..64];
    }
    hide Pow, Digit, Digits;
    Pow2_64();
    var u := v;
    while u != 0
      invariant 0 <= i <= 64 && 0 <= u < Pow(2, i)
      invariant Digits(v, base, upper) == Digits(u, base, upper) + temp[i..64]
    {
      FewerBits(u, base, i);
      DivModParts(u, base);
      ghost var was := temp[i..64];
      i := i - 1;
      temp[i] := Digit(u % base, upper);
      assert temp[i..64] == [Digit(u % base, upper)] + was;
      DigitsStep(u, base, upper, was);
      u := u / base;
    }
    DigitsStep(0, base, upper, temp[i..64]);
    s := temp[i..64];
  }

  lemma DigitsStep(u: nat, base: nat, upper: bool, rest: seq<char>)
    requires 2 <= base <= 36
    ensures u > 0 ==>
              u / base >= 0 && 0 <= u % base < base
              && Digits(u, base, upper) + rest == Digits(u / base, base, upper) + ([Digit(u % base, upper)] + rest)
    ensures u == 0 ==> Digits(u, base, upper) + rest == rest
  {
    hide Digit;
    DivModParts(u, base);
  }

  lemma FewerBits(u: nat, base: nat, i: nat)
    requires 0 < u < Pow(2, i) && base >= 2
    ensures i > 0 && u / base < Pow(2, i - 1)
  {
    if i > 0 {
      assert Pow(2, i) == 2 * Pow(2, i - 1);
      assert u / base <= u / 2;
    }
  }

  // ---- The format ------------------------------------------------------------------------------

  /** An argument: a register's worth of bits, a string, or a null string. Where C leaves an argument
      of the wrong kind or a missing one undefined, this model reads zero or the null string. */
  datatype Arg = Bits(raw: U64) | Text(chars: seq<char>) | Null

  function RawOf(args: seq<Arg>, k: nat): U64 { if k < |args| && args[k].Bits? then args[k].raw else 0 }
  function TextOf(args: seq<Arg>, k: nat): seq<char> { if k < |args| && args[k].Text? then args[k].chars else "(null)" }

  /** An int argument widened to 64 bits, and an unsigned one. */
  function FromInt(v: U64, wide: bool): U64 {
    var low := v as int % 0x1_0000_0000;
    if wide then v else if low >= 0x8000_0000 then TWO64 - 0x1_0000_0000 + low else low
  }

  function FromUnsigned(v: U64, wide: bool): U64 { if wide then v else v as int % 0x1_0000_0000 }

  /** The character at a place of the format, NUL at its end. */
  function At(f: seq<char>, i: nat): char { if i < |f| then f[i] else '\0' }

  predicate IsDigit(c: char) { '0' <= c <= '9' }

  /** Behind the flags: whether there was a zero and a minus, and where the next character is. */
  function Flags(f: seq<char>, i: nat, zero: bool, left: bool): (r: (bool, bool, nat))
    requires i <= |f|
    ensures i <= r.2 <= |f|
    decreases |f| - i
  {
    if At(f, i) == '0' then Flags(f, i + 1, true, left)
    else if At(f, i) == '-' then Flags(f, i + 1, zero, true)
    else (zero, left, i)
  }

  /** A decimal number and the place behind it. */
  function Decimal(f: seq<char>, i: nat, acc: nat): (r: (nat, nat))
    requires i <= |f|
    ensures i <= r.1 <= |f|
    decreases |f| - i
  {
    if IsDigit(At(f, i)) then Decimal(f, i + 1, acc * 10 + (f[i] as int - '0' as int)) else (acc, i)
  }

  /** A directive between the percent sign and its letter, which is at place end. */
  datatype Directive = Directive(zero: bool, left: bool, width: nat, precision: int, wide: bool, end: nat)

  function Parse(f: seq<char>, i: nat): (d: Directive)
    requires i <= |f|
    ensures i <= d.end <= |f| && !(d.zero && d.left)
  {
    var (zero, left, j) := Flags(f, i, false, false);
    var (width, k) := Decimal(f, j, 0);
    var dot := At(f, k) == '.';
    var (digits, l) := if dot then Decimal(f, k + 1, 0) else (0, k);
    var wide := At(f, l) == 'l';
    var m := if wide then (if At(f, l + 1) == 'l' then l + 2 else l + 1) else l;
    Directive(zero && !left, left, width, if dot then digits else -1, wide, m)
  }

  predicate Consumes(c: char) { c in "diuxXscp" }

  /** What a directive prints. */
  function Piece(d: Directive, c: char, args: seq<Arg>, k: nat): seq<char>
    requires !(d.zero && d.left)
  {
    var raw := RawOf(args, k);
    if c == 'd' || c == 'i' then Field(FromInt(raw, d.wide), 10, d.width, d.zero, d.left, false, true)
    else if c == 'u' then Field(FromUnsigned(raw, d.wide), 10, d.width, d.zero, d.left, false, false)
    else if c == 'x' || c == 'X' then Field(FromUnsigned(raw, d.wide), 16, d.width, d.zero, d.left, c == 'X', false)
    else if c == 's' then TextField(TextOf(args, k), d.width, d.precision, d.left)
    else if c == 'c' then [(raw as int % 256) as char]
    else if c == 'p' then "0x" + Field(raw, 16, 0, false, false, false, false)
    else if c == '%' then "%"
    else if c == '\0' then "%" else ['%', c]
  }

  /** The whole expansion from place i with argument k next. */
  function Expand(f: seq<char>, i: nat, args: seq<Arg>, k: nat): seq<char>
    requires i <= |f|
    decreases |f| - i
  {
    if i == |f| then []
    else if f[i] != '%' then [f[i]] + Expand(f, i + 1, args, k)
    else
      var d := Parse(f, i + 1);
      var c := At(f, d.end);
      Piece(d, c, args, k) + Expand(f, if d.end < |f| then d.end + 1 else d.end, args, if Consumes(c) then k + 1 else k)
  }

  method ReadFlags(f: seq<char>, start: nat) returns (zero: bool, left: bool, i: nat)
    requires start <= |f|
    ensures (zero, left, i) == Flags(f, start, false, false)
  {
    zero, left, i := false, false, start;
    while At(f, i) == '0' || At(f, i) == '-'
      invariant start <= i <= |f| && Flags(f, i, zero, left) == Flags(f, start, false, false)
      decreases |f| - i
    {
      if At(f, i) == '0' { zero := true; } else { left := true; }
      i := i + 1;
    }
  }

  method ReadDecimal(f: seq<char>, start: nat) returns (v: nat, i: nat)
    requires start <= |f|
    ensures (v, i) == Decimal(f, start, 0)
  {
    v, i := 0, start;
    while IsDigit(At(f, i))
      invariant start <= i <= |f| && Decimal(f, i, v) == Decimal(f, start, 0)
      decreases |f| - i
    {
      v := v * 10 + (f[i] as int - '0' as int);
      i := i + 1;
    }
  }

  method ReadDirective(f: seq<char>, start: nat) returns (d: Directive)
    requires start <= |f|
    ensures d == Parse(f, start)
  {
    hide Flags, Decimal;
    var zero, left, i := ReadFlags(f, start);
    var width;
    width, i := ReadDecimal(f, i);
    if left { zero := false; }
    var precision: int := -1;
    if At(f, i) == '.' { precision, i := ReadDecimal(f, i + 1); }
    var wide := At(f, i) == 'l';
    if wide {
      i := i + 1;
      if At(f, i) == 'l' { i := i + 1; }
    }
    d := Directive(zero, left, width, precision, wide, i);
  }

  method PrintText(out: Output, s: seq<char>, width: int, precision: int, left: bool)
    requires out.Valid()
    modifies out, out.str
    ensures out.Valid() && out.text == old(out.text) + TextField(s, width, precision, left)
    ensures forall i :: out.size <= i < out.str.Length ==> out.str[i] == old(out.str[i])
  {
    hide Repeat;
    var len := |s|;
    if 0 <= precision < len { len := precision; }
    var pad := width - len;
    ghost var t := out.text;
    assert s[..|s|] == s;
    if !left { out.Each(Repeat(' ', pad)); }
    out.Each(s[..len]);
    if left { out.Each(Repeat(' ', pad)); }
  }

  /** The switch on the directive's letter. */
  method Print(out: Output, d: Directive, c: char, args: seq<Arg>, k: nat)
    requires out.Valid() && !(d.zero && d.left)
    modifies out, out.str
    ensures out.Valid() && out.text == old(out.text) + Piece(d, c, args, k)
    ensures forall i :: out.size <= i < out.str.Length ==> out.str[i] == old(out.str[i])
  {
    hide Field, TextField, FromInt, FromUnsigned, Kept;
    var raw := RawOf(args, k);
    if c == 'd' || c == 'i' {
      out.FormatInt(FromInt(raw, d.wide), 10, d.width, d.zero, d.left, false, true);
    } else if c == 'u' {
      out.FormatInt(FromUnsigned(raw, d.wide), 10, d.width, d.zero, d.left, false, false);
    } else if c == 'x' || c == 'X' {
      out.FormatInt(FromUnsigned(raw, d.wide), 16, d.width, d.zero, d.left, c == 'X', false);
    } else if c == 's' {
      PrintText(out, TextOf(args, k), d.width, d.precision, d.left);
    } else if c == 'c' {
      out.Append((raw as int % 256) as char);
    } else if c == 'p' {
      out.Append('0');
      out.Append('x');
      out.FormatInt(raw, 16, 0, false, false, false, false);
    } else {
      out.Append('%');
      if c != '%' && c != '\0' { out.Append(c); }
    }
  }

  /** vsnprintf: the length of the whole expansion is returned, and as much of it as fits is in the
      buffer, followed by a NUL. */
  method Vsnprintf(str: array<char>, size: nat, format: seq<char>, args: seq<Arg>) returns (r: nat)
    requires size <= str.Length && '\0' !in format
    modifies str
    ensures r == |Expand(format, 0, args, 0)|
    ensures size > 0 ==>
              var n := Kept(size, r);
              n < str.Length && str[..n] == Expand(format, 0, args, 0)[..n] && str[n] == '\0'
    ensures forall i :: size <= i < str.Length ==> str[i] == old(str[i])
  {
    if size > 0 { str[0] := '\0'; }
    var out := new Output(str, size);
    PrintAll(out, format, args);
    ghost var full := Expand(format, 0, args, 0);
    if size > 0 {
      var n := if out.pos < size then out.pos else size - 1;
      assert n == Kept(size, |full|);
      assert forall i :: 0 <= i < n ==> str[i] == full[i];
      str[n] := '\0';
    }
    r := out.pos;
  }

  /** The loop over the format. */
  method PrintAll(out: Output, f: seq<char>, args: seq<Arg>)
    requires out.Valid() && out.text == [] && '\0' !in f
    modifies out, out.str
    ensures out.Valid() && out.text == Expand(f, 0, args, 0)
    ensures forall i :: out.size <= i < out.str.Length ==> out.str[i] == old(out.str[i])
  {
    hide Parse, Piece, Kept, Consumes, Expand;
    var i, k := 0, 0;
    while i < |f|
      invariant i <= |f| && out.Valid() && Expand(f, 0, args, 0) == out.text + Expand(f, i, args, k)
      invariant forall i :: out.size <= i < out.str.Length ==> out.str[i] == old(out.str[i])
      decreases |f| - i
    {
      ExpandStep(f, i, args, k, out.text);
      if f[i] != '%' {
        out.Append(f[i]);
        i := i + 1;
      } else {
        var d := ReadDirective(f, i + 1);
        var c := At(f, d.end);
        Print(out, d, c, args, k);
        i := if d.end < |f| then d.end + 1 else d.end;
        k := if Consumes(c) then k + 1 else k;
      }
    }
    ExpandEnd(f, args, k, out.text);
  }

  lemma ExpandStep(f: seq<char>, i: nat, args: seq<Arg>, k: nat, done: seq<char>)
    requires i < |f|
    ensures f[i] != '%' ==> done + Expand(f, i, args, k) == (done + [f[i]]) + Expand(f, i + 1, args, k)
    ensures f[i] == '%' ==>
              var d := Parse(f, i + 1); var c := At(f, d.end);
              done + Expand(f, i, args, k) == (done + Piece(d, c, args, k))
                + Expand(f, if d.end < |f| then d.end + 1 else d.end, args, if Consumes(c) then k + 1 else k)
  {
    hide Parse, Piece, Consumes;
  }

  lemma ExpandEnd(f: seq<char>, args: seq<Arg>, k: nat, done: seq<char>)
    ensures done + Expand(f, |f|, args, k) == done
  {}

  /** A signed field without width is a sign and the digits of the absolute value, at every value
      down to the smallest. */
  lemma SignedPrints(v: U64)
    ensures Field(v, 10, 0, false, false, false, true)
         == (if Signed(v) < 0 then ['-'] else []) + Numeral(if Signed(v) < 0 then -Signed(v) else Signed(v), 10, false)
    ensures Denoted(Numeral(if Signed(v) < 0 then -Signed(v) else Signed(v), 10, false), 10)
         == if Signed(v) < 0 then -Signed(v) else Signed(v)
  {
    var n: nat := if Signed(v) < 0 then -Signed(v) else Signed(v);
    NumeralDenotes(n, 10, false);
    hide Numeral;
    var sign := Sign(v, 10, true);
    assert [] + sign + Numeral(n, 10, false) == sign + Numeral(n, 10, false);
  }
}
