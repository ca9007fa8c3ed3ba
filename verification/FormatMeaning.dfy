/** What formats mean: how a directive is spelled, what it reads, and how what it shows is padded. */
module FormatMeaning {
  import opened Radix
  import opened BoundedFormat

  // ---- Fields ----------------------------------------------------------------------------------

  /** s is sign and body in a field of the given width: spaces before them, zeros between them, or
      spaces behind them, and none when they fill the width. */
  ghost predicate Padded(s: seq<char>, sign: seq<char>, body: seq<char>, width: nat, zero: bool, left: bool) {
    var text := sign + body;
    && |s| == (if width > |text| then width else |text|)
    && (if left then
          s[..|text|] == text && forall i :: |text| <= i < |s| ==> s[i] == ' '
        else if zero then
          && s[..|sign|] == sign && s[|s| - |body|..] == body
          && forall i :: |sign| <= i < |s| - |body| ==> s[i] == '0'
        else
          s[|s| - |text|..] == text && forall i :: 0 <= i < |s| - |text| ==> s[i] == ' ')
  }

  lemma FieldMeans(v: U64, base: nat, width: nat, zero: bool, left: bool, upper: bool, signed: bool)
    requires 2 <= base <= 36 && !(zero && left)
    ensures Padded(Field(v, base, width, zero, left, upper, signed),
                   Sign(v, base, signed), Numeral(Magnitude(v, base, signed), base, upper), width, zero, left)
  {
    hide Numeral;
    var sign, body := Sign(v, base, signed), Numeral(Magnitude(v, base, signed), base, upper);
    PadMeans(sign, body, width, zero, left);
  }

  lemma PadMeans(sign: seq<char>, body: seq<char>, width: nat, zero: bool, left: bool)
    requires !(zero && left)
    ensures var pad := width - |sign| - |body|;
            Padded(if left then sign + body + Repeat(' ', pad)
                   else if zero then sign + Repeat('0', pad) + body
                   else Repeat(' ', pad) + sign + body, sign, body, width, zero, left)
  {
    var pad := width - |sign| - |body|;
    assert Repeat(' ', pad) + sign + body == Repeat(' ', pad) + (sign + body);
  }

  /** A string without more of it than the precision allows. */
  function Cut(s: seq<char>, precision: int): seq<char> { if 0 <= precision < |s| then s[..precision] else s }

  lemma TextMeans(s: seq<char>, width: nat, precision: int, left: bool)
    ensures Padded(TextField(s, width, precision, left), [], Cut(s, precision), width, false, left)
  {
    var body := Cut(s, precision);
    hide Padded, Repeat;
    PadMeans([], body, width, false, left);
    NoSign(body, Repeat(' ', width - |body|));
  }

  lemma NoSign(body: seq<char>, pad: seq<char>)
    ensures [] + body + pad == body + pad && pad + [] + body == pad + body
  {}

  /** The sixteen digits that numbers are written with, and the ten that widths and precisions are read from. */
  lemma DigitIs(d: int, c: char)
    requires 0 <= d < 16
    ensures Digit(d, false) == "0123456789abcdef"[d] && Digit(d, true) == "0123456789ABCDEF"[d]
    ensures IsDigit(c) <==> c in "0123456789"
  {}

  // ---- What each letter reads and shows -----------------------------------------------------------

  /** An argument of 32 bits, or of 64 behind an l, and the same taken as signed. */
  function Read(raw: U64, wide: bool): int { raw as int % (if wide then 0x1_0000_0000_0000_0000 else 0x1_0000_0000) }

  function ReadSigned(raw: U64, wide: bool): int {
    var v, n := Read(raw, wide), if wide then 0x1_0000_0000_0000_0000 else 0x1_0000_0000;
    if v >= n / 2 then v - n else v
  }

  /** The piece is a number in its field. */
  ghost predicate Shows(s: seq<char>, n: int, base: nat, upper: bool, d: Directive)
    requires 2 <= base <= 36
  {
    Padded(s, if n < 0 then ['-'] else [], Numeral(if n < 0 then -n else n, base, upper), d.width, d.zero, d.left)
  }

  lemma SignedShows(v: U64, d: Directive)
    requires !(d.zero && d.left)
    ensures Shows(Field(v, 10, d.width, d.zero, d.left, false, true), Signed(v), 10, false, d)
  {
    FieldMeans(v, 10, d.width, d.zero, d.left, false, true);
  }

  lemma UnsignedShows(v: U64, base: nat, upper: bool, d: Directive)
    requires 2 <= base <= 36 && !(d.zero && d.left)
    ensures Shows(Field(v, base, d.width, d.zero, d.left, upper, false), v, base, upper, d)
  {
    FieldMeans(v, base, d.width, d.zero, d.left, upper, false);
  }

  lemma Widths(raw: U64, wide: bool)
    ensures Signed(FromInt(raw, wide)) == ReadSigned(raw, wide) && FromUnsigned(raw, wide) as int == Read(raw, wide)
  {}

  /** d and i show a signed number in decimal, u an unsigned one, x and X an unsigned one in base 16; s
      shows a string as far as the precision goes, c one character and p an address in base 16 behind 0x.
      All of these take an argument. A percent sign stands for itself, and an unknown letter is copied. */
  lemma PieceMeans(d: Directive, c: char, args: seq<Arg>, k: nat)
    requires !(d.zero && d.left)
    ensures var raw := RawOf(args, k); var s := Piece(d, c, args, k);
            && (c == 'd' || c == 'i' ==> Shows(s, ReadSigned(raw, d.wide), 10, false, d))
            && (c == 'u' ==> Shows(s, Read(raw, d.wide), 10, false, d))
            && (c == 'x' ==> Shows(s, Read(raw, d.wide), 16, false, d))
            && (c == 'X' ==> Shows(s, Read(raw, d.wide), 16, true, d))
            && (c == 's' ==> Padded(s, [], Cut(TextOf(args, k), d.precision), d.width, false, d.left))
            && (c == 'c' ==> |s| == 1 && s[0] as int == raw % 256)
            && (c == 'p' ==> s == "0x" + Numeral(raw, 16, false))
            && (c == '%' || c == '\0' ==> s == "%")
            && (c !in "diuxXscp%" && c != '\0' ==> s == ['%', c])
    ensures Consumes(c) <==> c in "diuxXscp"
    ensures k < |args| && args[k].Bits? ==> RawOf(args, k) == args[k].raw
    ensures k < |args| && !args[k].Bits? ==> TextOf(args, k) == if args[k].Null? then "(null)" else args[k].chars
  {
    hide Numeral, Field, TextField, Shows, Padded, FromInt, FromUnsigned, Signed;
    var raw := RawOf(args, k);
    Widths(raw, d.wide);
    SignedShows(FromInt(raw, d.wide), d);
    UnsignedShows(FromUnsigned(raw, d.wide), 10, false, d);
    UnsignedShows(FromUnsigned(raw, d.wide), 16, false, d);
    UnsignedShows(FromUnsigned(raw, d.wide), 16, true, d);
    TextMeans(TextOf(args, k), d.width, d.precision, d.left);
    Bare(raw);
  }

  lemma Bare(raw: U64)
    ensures Field(raw, 16, 0, false, false, false, false) == Numeral(raw, 16, false)
  {
    hide Numeral;
    var body := Numeral(raw, 16, false);
    assert Repeat(' ', 0 - |body|) + [] + body == body;
  }

  // ---- Spelling ----------------------------------------------------------------------------------

  /** A directive as it is written between the percent sign and its letter. */
  function Spell(d: Directive): seq<char> { FlagText(d) + (WidthText(d) + (PrecisionText(d) + WideText(d))) }

  function FlagText(d: Directive): seq<char> { if d.zero then "0" else if d.left then "-" else "" }
  function WidthText(d: Directive): seq<char> { if d.width > 0 then Numeral(d.width, 10, false) else "" }
  function PrecisionText(d: Directive): seq<char> { if d.precision >= 0 then "." + Numeral(d.precision, 10, false) else "" }
  function WideText(d: Directive): seq<char> { if d.wide then "l" else "" }

  lemma {:induction false} DigitsAreDigits(v: nat)
    ensures forall i :: 0 <= i < |BoundedFormat.Digits(v, 10, false)| ==> IsDigit(BoundedFormat.Digits(v, 10, false)[i])
  {
    if v > 0 {
      DivModParts(v, 10);
      DigitsAreDigits(v / 10);
    }
  }

  lemma NumeralDigits(v: nat)
    ensures Numeral(v, 10, false) != [] && forall i :: 0 <= i < |Numeral(v, 10, false)| ==> IsDigit(Numeral(v, 10, false)[i])
  {
    DigitsAreDigits(v);
    NumeralDenotes(v, 10, false);
  }

  /** Digits are read as the number they denote. */
  lemma {:induction false} DecimalReads(f: seq<char>, i: nat, s: seq<char>, acc: nat)
    requires i + |s| <= |f| && f[i..i + |s|] == s && (forall j :: 0 <= j < |s| ==> IsDigit(s[j]))
    requires !IsDigit(At(f, i + |s|))
    ensures Decimal(f, i, acc) == (acc * Pow(10, |s|) + Denoted(s, 10), i + |s|)
    decreases |s|
  {
    if s == [] {
      assert acc * Pow(10, 0) == acc;
    } else {
      var v := s[0] as int - '0' as int;
      assert f[i] == s[0] && f[i + 1..i + 1 + |s[1..]|] == s[1..];
      DecimalReads(f, i + 1, s[1..], acc * 10 + v);
      DenotedFirst(s);
      MulAssoc(acc, 10, Pow(10, |s| - 1));
      MulAdd(acc * 10, v, Pow(10, |s| - 1));
    }
  }

  lemma {:induction false} DenotedFirst(s: seq<char>)
    requires s != [] && forall j :: 0 <= j < |s| ==> IsDigit(s[j])
    ensures Denoted(s, 10) == (s[0] as int - '0' as int) * Pow(10, |s| - 1) + Denoted(s[1..], 10)
    ensures Denoted(s, 10) >= 0
  {
    var n := |s| - 1;
    if n > 0 {
      DenotedFirst(s[..n]);
      assert s[..n][1..] == s[1..][..n - 1] && s[1..][n - 1] == s[n];
      MulAdd((s[0] as int - '0' as int) * Pow(10, n - 1), Denoted(s[1..n], 10), 10);
      MulAssoc(s[0] as int - '0' as int, Pow(10, n - 1), 10);
      assert s[1..n] == s[..n][1..];
    } else {
      assert s[..0] == [] && s[1..] == [];
    }
  }

  // ---- The whole format ----------------------------------------------------------------------------

  /** Reading from a place is reading the rest from its beginning. */
  lemma {:induction false} FlagsShift(f: seq<char>, p: nat, i: nat, zero: bool, left: bool)
    requires p + i <= |f|
    ensures var r, r' := Flags(f, p + i, zero, left), Flags(f[p..], i, zero, left);
            r.0 == r'.0 && r.1 == r'.1 && r.2 == p + r'.2
    decreases |f| - i
  {
    assert At(f, p + i) == At(f[p..], i);
    if At(f, p + i) == '0' { FlagsShift(f, p, i + 1, true, left); }
    else if At(f, p + i) == '-' { FlagsShift(f, p, i + 1, zero, true); }
  }

  lemma {:induction false} DecimalShift(f: seq<char>, p: nat, i: nat, acc: nat)
    requires p + i <= |f|
    ensures var r, r' := Decimal(f, p + i, acc), Decimal(f[p..], i, acc);
            r.0 == r'.0 && r.1 == p + r'.1
    decreases |f| - i
  {
    assert At(f, p + i) == At(f[p..], i);
    if IsDigit(At(f, p + i)) { DecimalShift(f, p, i + 1, acc * 10 + (f[p + i] as int - '0' as int)); }
  }

  lemma ParseShift(f: seq<char>, p: nat, i: nat)
    requires p + i <= |f|
    ensures var d, d' := Parse(f, p + i), Parse(f[p..], i);
            d == d'.(end := p + d'.end) && At(f, d.end) == At(f[p..], d'.end)
  {
    hide Flags, Decimal;
    var g := f[p..];
    FlagsShift(f, p, i, false, false);
    var j := Flags(g, i, false, false).2;
    DecimalShift(f, p, j, 0);
    var k := Decimal(g, j, 0).1;
    assert At(f, p + k) == At(g, k);
    var l := if At(g, k) == '.' then Decimal(g, k + 1, 0).1 else k;
    if At(g, k) == '.' { DecimalShift(f, p, k + 1, 0); }
    assert At(f, p + l) == At(g, l);
    if At(g, l) == 'l' { assert At(f, p + l + 1) == At(g, l + 1); }
  }

  lemma ExpandOnce(f: seq<char>, i: nat, args: seq<Arg>, k: nat)
    requires i < |f|
    ensures f[i] != '%' ==> Expand(f, i, args, k) == [f[i]] + Expand(f, i + 1, args, k)
    ensures f[i] == '%' ==>
              var d := Parse(f, i + 1); var c := At(f, d.end);
              Expand(f, i, args, k) == Piece(d, c, args, k)
                + Expand(f, if d.end < |f| then d.end + 1 else d.end, args, if Consumes(c) then k + 1 else k)
  {
    hide Parse, Piece, Consumes;
  }

  lemma {:induction false} ExpandShift(f: seq<char>, p: nat, i: nat, args: seq<Arg>, k: nat)
    requires p + i <= |f|
    ensures Expand(f, p + i, args, k) == Expand(f[p..], i, args, k)
    decreases |f| - i
  {
    hide Parse, Piece, Consumes, Expand;
    var g := f[p..];
    if p + i == |f| {
      ExpandEnd(f, args, k, []);
      ExpandEnd(g, args, k, []);
      Prefixed(Expand(f, |f|, args, k), Expand(g, |g|, args, k));
    } else {
      assert f[p + i] == g[i];
      ExpandOnce(f, p + i, args, k);
      ExpandOnce(g, i, args, k);
      if g[i] != '%' {
        ExpandShift(f, p, i + 1, args, k);
      } else {
        ParseShift(f, p, i + 1);
        var d := Parse(g, i + 1);
        var c := At(g, d.end);
        PieceAnywhere(d, p + d.end, c, args, k);
        ExpandShift(f, p, if d.end < |g| then d.end + 1 else d.end, args, if Consumes(c) then k + 1 else k);
      }
    }
  }

  lemma FlagsRead(d: Directive, tail: seq<char>)
    requires !(d.zero && d.left) && At(tail, 0) != '0' && At(tail, 0) != '-'
    ensures Flags(FlagText(d) + tail, 0, false, false) == (d.zero, d.left, |FlagText(d)|)
  {
    var f, i := FlagText(d) + tail, |FlagText(d)|;
    assert At(f, i) == At(tail, 0);
    assert Flags(f, i, d.zero, d.left) == (d.zero, d.left, i);
  }

  lemma WidthRead(d: Directive, tail: seq<char>)
    requires !IsDigit(At(tail, 0))
    ensures Decimal(WidthText(d) + tail, 0, 0) == (d.width, |WidthText(d)|)
    ensures At(tail, 0) != '-' ==> At(WidthText(d) + tail, 0) != '0' && At(WidthText(d) + tail, 0) != '-'
  {
    hide Numeral;
    var s, f := WidthText(d), WidthText(d) + tail;
    NumeralDigits(d.width);
    NumeralDenotes(d.width, 10, false);
    assert f[0..0 + |s|] == s && At(f, 0 + |s|) == At(tail, 0);
    if d.width > 0 { assert At(f, 0) == s[0] && IsDigit(s[0]); } else { assert f == tail; }
    DecimalReads(f, 0, s, 0);
  }

  lemma PrecisionRead(d: Directive, tail: seq<char>)
    requires d.precision >= -1 && !IsDigit(At(tail, 0)) && At(tail, 0) != '.'
    ensures var f := PrecisionText(d) + tail;
            && !IsDigit(At(f, 0)) && (At(f, 0) == '.' <==> d.precision >= 0) && (d.precision < 0 ==> f == tail)
            && (d.precision >= 0 ==> Decimal(f, 1, 0) == (d.precision, |PrecisionText(d)|))
            && (At(tail, 0) != '-' ==> At(f, 0) != '-')
  {
    hide Numeral, Decimal;
    if d.precision >= 0 {
      var s, f := Numeral(d.precision, 10, false), PrecisionText(d) + tail;
      NumeralDigits(d.precision);
      NumeralDenotes(d.precision, 10, false);
      assert f[1..1 + |s|] == s && At(f, 1 + |s|) == At(tail, 0);
      DecimalReads(f, 1, s, 0);
    }
  }

  /** What a parser makes of a directive's own text in front of its letter. */
  lemma SpellParts(d: Directive, c: char, rest: seq<char>)
    requires !(d.zero && d.left) && d.precision >= -1 && c in "diuxXscp%"
    ensures Parse(Spell(d) + [c] + rest, 0) == d.(end := |Spell(d)|)
  {
    hide Flags, Decimal, FlagText, WidthText, PrecisionText, Parse;
    var s3 := WideText(d) + ([c] + rest);
    var s2 := PrecisionText(d) + s3;
    var s1 := WidthText(d) + s2;
    Regrouped(FlagText(d), WidthText(d), PrecisionText(d), WideText(d), [c] + rest);
    assert Spell(d) + [c] + rest == Spell(d) + ([c] + rest);
    assert At(s3, 0) == if d.wide then 'l' else c;
    assert d.wide ==> At(s3, 1) == c;
    PrecisionRead(d, s3);
    WidthRead(d, s2);
    FlagsRead(d, s1);
    if d.precision < 0 { NoPrecision(d); }
    var f := FlagText(d) + s1;
    var b, e := FlagText(d) + WidthText(d), FlagText(d) + WidthText(d) + PrecisionText(d);
    Stacked(FlagText(d), WidthText(d), PrecisionText(d), s3);
    ParseStages(f, FlagText(d), s1, b, s2, e, s3, d);
  }

  lemma Regrouped(a: seq<char>, w: seq<char>, p: seq<char>, l: seq<char>, r: seq<char>)
    ensures a + (w + (p + l)) + r == a + (w + (p + (l + r)))
  {}

  lemma Stacked(a: seq<char>, w: seq<char>, p: seq<char>, s: seq<char>)
    ensures a + (w + (p + s)) == a + w + (p + s) == a + w + p + s
  {}

  lemma Dropped(a: seq<char>, b: seq<char>)
    ensures (a + b)[|a|..] == b
  {}

  lemma DecimalBehind(f: seq<char>, x: seq<char>, y: seq<char>, i: nat)
    requires f == x + y && i <= |y|
    ensures Decimal(f, |x| + i, 0) == (Decimal(y, i, 0).0, |x| + Decimal(y, i, 0).1)
  {
    Dropped(x, y);
    DecimalShift(f, |x|, i, 0);
  }

  /** Flags, width, precision and length are read one behind the other: s1, s2 and s3 are what is left of f
      behind the first three. */
  lemma ParseStages(f: seq<char>, a: seq<char>, s1: seq<char>, b: seq<char>, s2: seq<char>, e: seq<char>, s3: seq<char>, d: Directive)
    requires f == a + s1 == b + s2 == e + s3 && |a| <= |b| <= |e|
    requires !(d.zero && d.left) && d.precision >= -1 && (d.precision < 0 ==> |e| == |b|)
    requires Flags(f, 0, false, false) == (d.zero, d.left, |a|)
    requires Decimal(s1, 0, 0) == (d.width, |b| - |a|)
    requires At(s2, 0) == '.' <==> d.precision >= 0
    requires d.precision >= 0 ==> |s2| > 0 && Decimal(s2, 1, 0) == (d.precision, |e| - |b|)
    requires At(s3, 0) == 'l' <==> d.wide
    requires d.wide ==> At(s3, 1) != 'l'
    ensures Parse(f, 0) == d.(end := |e| + if d.wide then 1 else 0)
  {
    hide Flags, Decimal, Parse;
    DecimalBehind(f, a, s1, 0);
    if d.precision >= 0 { DecimalBehind(f, b, s2, 1); }
    assert At(f, |b|) == At(s2, 0) && At(f, |e|) == At(s3, 0) && At(f, |e| + 1) == At(s3, 1);
    ParseFrom(f, |a|, |b|, |e|, d);
  }

  lemma ParseFrom(f: seq<char>, j: nat, k: nat, l: nat, d: Directive)
    requires j <= k <= l <= |f| && !(d.zero && d.left)
    requires Flags(f, 0, false, false) == (d.zero, d.left, j) && Decimal(f, j, 0) == (d.width, k)
    requires d.precision >= -1 && (At(f, k) == '.' <==> d.precision >= 0)
    requires if d.precision >= 0 then k < |f| && Decimal(f, k + 1, 0) == (d.precision, l) else l == k
    requires (At(f, l) == 'l' <==> d.wide) && (d.wide ==> At(f, l + 1) != 'l')
    ensures Parse(f, 0) == d.(end := l + if d.wide then 1 else 0)
  {
    hide Flags, Decimal;
  }

  lemma NoPrecision(d: Directive)
    requires d.precision < 0
    ensures PrecisionText(d) == []
  {}

  /** Text stands for itself. */
  lemma {:induction false} PlainText(s: seq<char>, rest: seq<char>, args: seq<Arg>, k: nat)
    requires '%' !in s
    ensures Expand(s + rest, 0, args, k) == s + Expand(rest, 0, args, k)
    decreases |s|
  {
    if s == [] {
      assert s + rest == rest;
    } else {
      var f := s + rest;
      assert f[0] == s[0] && s[0] in s && f[1..] == s[1..] + rest;
      ExpandShift(f, 1, 0, args, k);
      PlainText(s[1..], rest, args, k);
      assert [s[0]] + (s[1..] + Expand(rest, 0, args, k)) == s + Expand(rest, 0, args, k);
    }
  }

  /** Text, then a directive, then the rest of a format: each is expanded on its own, the rest with the
      next argument if the directive took one. */
  lemma FormatMeans(s: seq<char>, d: Directive, c: char, rest: seq<char>, args: seq<Arg>, k: nat)
    requires '%' !in s && !(d.zero && d.left) && d.precision >= -1 && c in "diuxXscp%"
    ensures Expand(s + ("%" + (Spell(d) + [c] + rest)), 0, args, k)
         == s + (Piece(d, c, args, k) + Expand(rest, 0, args, if c == '%' then k else k + 1))
  {
    hide Parse, Piece, Spell, Expand, Consumes;
    PlainText(s, "%" + (Spell(d) + [c] + rest), args, k);
    DirectiveFirst(d, c, rest, args, k);
  }

  lemma DirectiveFirst(d: Directive, c: char, rest: seq<char>, args: seq<Arg>, k: nat)
    requires !(d.zero && d.left) && d.precision >= -1 && c in "diuxXscp%"
    ensures Expand("%" + (Spell(d) + [c] + rest), 0, args, k)
         == Piece(d, c, args, k) + Expand(rest, 0, args, if c == '%' then k else k + 1)
  {
    hide Parse, Piece, Spell, Expand;
    var g := Spell(d) + [c] + rest;
    var f := "%" + g;
    Dropped("%", g);
    ParseShift(f, 1, 0);
    SpellParts(d, c, rest);
    var end := |Spell(d)|;
    assert g[end] == c && f[1 + end] == c;
    Dropped("%" + Spell(d) + [c], rest);
    assert f == "%" + Spell(d) + [c] + rest;
    PieceAnywhere(d, 1 + end, c, args, k);
    ExpandOnce(f, 0, args, k);
    ExpandShift(f, 2 + end, 0, args, if Consumes(c) then k + 1 else k);
  }

  lemma Prefixed(x: seq<char>, y: seq<char>)
    ensures [] + x == x && [] + y == y
  {}

  lemma PieceAnywhere(d: Directive, end: nat, c: char, args: seq<Arg>, k: nat)
    requires !(d.zero && d.left)
    ensures Piece(d.(end := end), c, args, k) == Piece(d, c, args, k)
  {
    hide Field, TextField;
  }
}
