/** Arithmetic modulo 2^255 - 19 on sixteen signed 64-bit limbs of weight 2^16. */
module Field25519 {
  import opened Basics
  import opened Radix
  import opened Bits

  const P: int := 0x7fff_ffff_ffff_ffff_ffff_ffff_ffff_ffff_ffff_ffff_ffff_ffff_ffff_ffff_ffff_ffed

  /** Limbs that every carry pass accepts without 64-bit overflow. */
  const LIMB_MAX: int := 0x4000_0000_0000_0000

  ghost function Num(s: seq<int>): int { Value(65536, s) }

  lemma Weights()
    ensures Pow(65536, 1) == 65536
    ensures Pow(65536, 16) == R256 == 2 * P + 38
    ensures 65536 * Pow(65536, 15) == R256
  {
    assert Pow(65536, 1) == 65536 * Pow(65536, 0);
    PowAdd(65536, 1, 1);
    PowAdd(65536, 2, 2);
    PowAdd(65536, 4, 4);
    PowAdd(65536, 8, 8);
  }

  /** What a carry pass must leave behind, said without the pass: the sixteen base-2^16 digits
      of v mod 2^256, with 38 times the overflow v div 2^256 folded into limb 0. */
  ghost predicate Carried(v: int, s: seq<int>) {
    && |s| == 16
    && Digits(65536, s[1..])
    && 0 <= s[0] - 38 * (v / R256) < 65536
    && Num(s) == v - 2 * (v / R256) * P
  }

  /** Moving a carry of c from limb i to limb i+1 keeps the value. */
  lemma CarryStep(s: seq<int>, i: nat, c: int)
    requires |s| == 16 && i < 15
    ensures Num(s[i + 1 := s[i + 1] + c][i := s[i] - 65536 * c]) == Num(s)
  {
    var s' := s[i + 1 := s[i + 1] + c];
    ValueUpdate(65536, s, i + 1, s[i + 1] + c);
    ValueUpdate(65536, s', i, s[i] - 65536 * c);
    MulAssoc(c, 65536, Pow(65536, i));
    MulAssoc(-65536, c, Pow(65536, i));
  }

  /** The carry out of limb 15 is v div 2^256, and folding it back in as 38 gives Carried. */
  lemma CarryWrap(s: seq<int>, c: int)
    requires |s| == 16 && c == s[15] / 65536
    requires forall k :: 0 <= k < 15 ==> 0 <= s[k] < 65536
    ensures Carried(Num(s), s[0 := s[0] + 38 * c][15 := s[15] - 65536 * c])
  {
    var v := Num(s);
    var d := s[15 := s[15] - 65536 * c];
    Weights();
    ValueUpdate(65536, s, 15, s[15] - 65536 * c);
    MulAssoc(-c, 65536, Pow(65536, 15));
    DigitsBound(65536, d);
    assert v == c * R256 + Num(d);
    DivModUnique(v, R256, c, Num(d));
    var r := d[0 := d[0] + 38 * c];
    ValueUpdate(65536, d, 0, d[0] + 38 * c);
    assert Pow(65536, 0) == 1;
    assert r == s[0 := s[0] + 38 * c][15 := s[15] - 65536 * c];
  }

  method Car25519(o: array<i64>)
    requires o.Length == 16
    requires forall k :: 0 <= k < 16 ==> -LIMB_MAX <= o[k] <= LIMB_MAX
    modifies o
    ensures Carried(old(Num(o[..])), o[..])
  {
    ghost var v := Num(o[..]);
    var i := 0;
    while i < 16
      invariant 0 <= i <= 16
      invariant i < 16 ==> Num(o[..]) == v
      invariant i < 16 ==> forall k :: 0 <= k < i ==> 0 <= o[k] < 65536
      invariant i < 16 ==> -LIMB_MAX - 0x8000_0000_0000 <= o[i] <= LIMB_MAX + 0x8000_0000_0000
      invariant i < 16 ==> forall k :: i < k < 16 ==> -LIMB_MAX <= o[k] <= LIMB_MAX
      invariant i == 16 ==> Carried(v, o[..])
    {
      ghost var s := o[..];
      o[i] := o[i] + 65536;
      var c: i64 := o[i] / 65536;
      var k := if i < 15 then i + 1 else 0;
      var fold: i64 := c - 1 + 37 * (c - 1) * (if i == 15 then 1 else 0);
      o[k] := o[k] + fold;
      o[i] := o[i] - c * 65536;
      if i < 15 {
        CarryStep(s, i, c - 1);
        assert o[..] == s[i + 1 := s[i + 1] + (c - 1)][i := s[i] - 65536 * (c - 1)];
      } else {
        CarryWrap(s, c - 1);
        assert o[..] == s[0 := s[0] + 38 * (c - 1)][15 := s[15] - 65536 * (c - 1)];
      }
      i := i + 1;
    }
  }

  /** Limbs of magnitude at most m give an overflow of at most m div 65535 + 1. */
  lemma OverflowBound(s: seq<int>, m: int)
    requires |s| == 16 && 0 <= m
    requires forall k :: 0 <= k < 16 ==> -m <= s[k] <= m
    ensures -(m / 65535) - 1 <= Num(s) / R256 <= m / 65535 + 1
  {
    MagnitudeBound(65536, s, m);
    Weights();
    assert 65535 * Num(s) <= m * (R256 - 1);
  }

  /** One carry pass after another: the second overflow is -1, 0 or 1. */
  lemma SecondCarry(v: int, s: seq<int>)
    requires Carried(v, s)
    requires -0x1_0000_0000_0000_0000 < v / R256 < 0x1_0000_0000_0000_0000
    ensures -1 <= Num(s) / R256 <= 1
    ensures Num(s) / R256 == 1 ==> Num(s) % R256 < 0x40_0000_0000_0000_0000
    ensures Num(s) / R256 == -1 ==> Num(s) % R256 >= R256 - 0x40_0000_0000_0000_0000
  {
    assert Num(s) == v % R256 + 38 * (v / R256);
  }

  const M_MAX: int := 0x400_0000  // 2^26
  const CELL: int := 0x10_0000_0000_0000  // 2^52

  lemma CellBound(x: int, y: int)
    requires -M_MAX < x < M_MAX && -M_MAX < y < M_MAX
    ensures -CELL <= x * y <= CELL
  {
    if x >= 0 { MulMono(-M_MAX, y, x); MulMono(y, M_MAX, x); MulMono(x, M_MAX, M_MAX); }
    else { MulMono(-M_MAX, y, -x); MulMono(y, M_MAX, -x); MulMono(-x, M_MAX, M_MAX); }
  }

  /** t := a * b, as a 31-digit product without carries. */
  method Schoolbook(a: array<i64>, b: array<i64>) returns (t: array<i64>)
    requires a.Length == 16 && b.Length == 16
    requires forall k :: 0 <= k < 16 ==> -M_MAX < a[k] < M_MAX && -M_MAX < b[k] < M_MAX
    ensures fresh(t) && t.Length == 31
    ensures Num(t[..]) == Num(a[..]) * Num(b[..])
    ensures forall k :: 0 <= k < 31 ==> -16 * CELL <= t[k] <= 16 * CELL
  {
    t := new i64[31](_ => 0);
    ValueZero(65536, t[..]);
    var i := 0;
    while i < 16
      invariant 0 <= i <= 16
      invariant Num(t[..]) == Num(a[..][..i]) * Num(b[..])
      invariant forall k :: 0 <= k < 31 ==> -i * CELL <= t[k] <= i * CELL
    {
      var j := 0;
      ghost var base := Num(t[..]);
      ghost var w := a[i] * Pow(65536, i);
      while j < 16
        invariant 0 <= j <= 16
        invariant Num(t[..]) == base + w * Num(b[..][..j])
        invariant forall k :: i <= k < i + j ==> -(i + 1) * CELL <= t[k] <= (i + 1) * CELL
        invariant forall k :: 0 <= k < i || i + j <= k < 31 ==> -i * CELL <= t[k] <= i * CELL
      {
        CellBound(a[i], b[j]);
        ConvolutionStep(65536, t[..], i, j, a[i], b[..]);
        ghost var s := t[..];
        var x: i64 := a[i] * b[j];
        t[i + j] := t[i + j] + x;
        assert t[..] == s[i + j := s[i + j] + x];
        j := j + 1;
      }
      assert b[..][..16] == b[..];
      ConvolutionRow(65536, a[..], i, Num(b[..]));
      i := i + 1;
    }
    assert a[..][..16] == a[..];
  }

  /** Folding digits 16..30 back with factor 38 is exact up to a multiple of 2P. */
  lemma FoldValue(t: seq<int>, o: seq<int>)
    requires |t| == 31 && |o| == 16 && o[15] == t[15]
    requires forall k :: 0 <= k < 15 ==> o[k] == t[k] + 38 * t[k + 16]
    ensures Num(o) == Num(t) - 2 * P * Num(t[16..])
  {
    Weights();
    ValueSplit(65536, t, 16);
    FoldPrefix(t, o, 15);
    assert t[16..31] == t[16..];
    ValueSnoc(65536, o, 15);
    ValueSnoc(65536, t, 15);
    assert o[..16] == o;
  }

  lemma FoldBounds(t: seq<int>, o: seq<int>)
    requires |t| == 31 && |o| == 16 && o[15] == t[15]
    requires forall k :: 0 <= k < 15 ==> o[k] == t[k] + 38 * t[k + 16]
    requires forall k :: 0 <= k < 31 ==> -16 * CELL <= t[k] <= 16 * CELL
    ensures forall k :: 0 <= k < 16 ==> -LIMB_MAX <= o[k] <= LIMB_MAX
  {
    forall k | 0 <= k < 15
      ensures -LIMB_MAX <= o[k] <= LIMB_MAX
    {
      assert -16 * CELL <= t[k + 16] <= 16 * CELL;
    }
  }

  lemma {:induction false} FoldPrefix(t: seq<int>, o: seq<int>, n: nat)
    requires |t| == 31 && |o| == 16 && n <= 15
    requires forall k :: 0 <= k < 15 ==> o[k] == t[k] + 38 * t[k + 16]
    ensures Num(o[..n]) == Num(t[..n]) + 38 * Num(t[16..16 + n])
  {
    if n > 0 {
      FoldPrefix(t, o, n - 1);
      ValueSnoc(65536, o, n - 1);
      ValueSnoc(65536, t, n - 1);
      ValueSnoc(65536, t[16..], n - 1);
      assert t[16..][..n] == t[16..16 + n] && t[16..][..n - 1] == t[16..16 + n - 1];
      var p, x, y := Pow(65536, n - 1), t[n - 1], t[n + 15];
      assert p * (x + 38 * y) == p * x + 38 * (p * y) by { MulAdd(x, 38 * y, p); MulAssoc(p, 38, y); MulAssoc(38, p, y); }
    }
  }

  /** Limbs as every multiplication leaves them. */
  ghost predicate Reduced(s: seq<int>) {
    |s| == 16 && -38 <= s[0] < 65536 + 38 && Digits(65536, s[1..])
  }

  /** Limbs that a multiplication accepts. */
  ghost predicate Mulable(s: seq<int>) {
    |s| == 16 && forall k :: 0 <= k < 16 ==> -M_MAX < s[k] < M_MAX
  }

  lemma CarriedCong(v: int, s: seq<int>)
    requires Carried(v, s)
    ensures Cong(Num(s), v, P)
  {
    CongFromMultiple(Num(s), v, P, -2 * (v / R256));
  }

  /** o := t with digits 16..30 folded back in with factor 38. */
  method Fold(o: array<i64>, t: array<i64>)
    requires o.Length == 16 && t.Length == 31
    requires forall k :: 0 <= k < 31 ==> -16 * CELL <= t[k] <= 16 * CELL
    modifies o, t
    ensures Cong(Num(o[..]), old(Num(t[..])), P)
    ensures forall k :: 0 <= k < 16 ==> -LIMB_MAX <= o[k] <= LIMB_MAX
  {
    ghost var t0 := t[..];
    var i := 0;
    while i < 15
      invariant 0 <= i <= 15
      invariant forall k :: 0 <= k < i ==> t[k] == t0[k] + 38 * t0[k + 16]
      invariant forall k :: i <= k < 31 ==> t[k] == t0[k]
    {
      var x: i64 := 38 * t[i + 16];
      t[i] := t[i] + x;
      i := i + 1;
    }
    ghost var t1 := t[..];
    i := 0;
    while i < 16
      invariant 0 <= i <= 16
      invariant t[..] == t1
      invariant forall k :: 0 <= k < i ==> o[k] == t1[k]
    {
      o[i] := t[i];
      i := i + 1;
    }
    FoldBounds(t0, t1[..16]);
    FoldValue(t0, t1[..16]);
    assert o[..] == t1[..16];
    CongFromMultiple(Num(o[..]), Num(t0), P, -2 * Num(t0[16..]));
  }

  method CarryTwice(o: array<i64>)
    requires o.Length == 16
    requires forall k :: 0 <= k < 16 ==> -LIMB_MAX <= o[k] <= LIMB_MAX
    modifies o
    ensures Cong(Num(o[..]), old(Num(o[..])), P)
    ensures Reduced(o[..])
  {
    ghost var s1 := o[..];
    OverflowBound(s1, LIMB_MAX);
    Car25519(o);
    ghost var s2 := o[..];
    CarriedCong(Num(s1), s2);
    SecondCarry(Num(s1), s2);
    assert forall k :: 1 <= k < 16 ==> o[k] == s2[1..][k - 1];
    Car25519(o);
    CarriedCong(Num(s2), o[..]);
    CongTrans(Num(o[..]), Num(s2), Num(s1), P);
  }

  /** o := a * b modulo P; o may be a or b themselves. */
  method FieldMul(o: array<i64>, a: array<i64>, b: array<i64>)
    requires o.Length == 16 && Mulable(a[..]) && Mulable(b[..])
    modifies o
    ensures Cong(Num(o[..]), old(Num(a[..])) * old(Num(b[..])), P)
    ensures Reduced(o[..])
  {
    ghost var ab := Num(a[..]) * Num(b[..]);
    assert forall k :: 0 <= k < 16 ==> a[k] == a[..][k] && b[k] == b[..][k];
    var t := Schoolbook(a, b);
    Fold(o, t);
    ghost var s := Num(o[..]);
    CarryTwice(o);
    CongTrans(Num(o[..]), s, ab, P);
  }

  method FieldSquare(o: array<i64>, a: array<i64>)
    requires o.Length == 16 && Mulable(a[..])
    modifies o
    ensures Cong(Num(o[..]), old(Num(a[..])) * old(Num(a[..])), P)
    ensures Reduced(o[..])
  {
    FieldMul(o, a, a);
  }

  /** A: limb by limb, without carries. */
  method FieldAdd(o: array<i64>, a: array<i64>, b: array<i64>)
    requires o.Length == a.Length == b.Length == 16
    requires forall k :: 0 <= k < 16 ==> -LIMB_MAX <= a[k] <= LIMB_MAX - 1 && -LIMB_MAX <= b[k] <= LIMB_MAX - 1
    modifies o
    ensures Num(o[..]) == old(Num(a[..])) + old(Num(b[..]))
    ensures old(Reduced(a[..]) && Reduced(b[..])) ==> Mulable(o[..])
  {
    ghost var x, y := a[..], b[..];
    for i := 0 to 16
      invariant forall k :: 0 <= k < i ==> o[k] == x[k] + y[k]
      invariant forall k :: i <= k < 16 ==> a[k] == x[k] && b[k] == y[k]
    {
      o[i] := a[i] + b[i];
    }
    ValueCombine(65536, x, y, 1, o[..]);
    if Reduced(x) && Reduced(y) { SmallLimbs(x, y); }
  }

  /** Z: limb by limb, without carries. */
  method FieldSub(o: array<i64>, a: array<i64>, b: array<i64>)
    requires o.Length == a.Length == b.Length == 16
    requires forall k :: 0 <= k < 16 ==> -LIMB_MAX <= a[k] <= LIMB_MAX - 1 && -LIMB_MAX <= b[k] <= LIMB_MAX - 1
    modifies o
    ensures Num(o[..]) == old(Num(a[..])) - old(Num(b[..]))
    ensures old(Reduced(a[..]) && Reduced(b[..])) ==> Mulable(o[..])
  {
    ghost var x, y := a[..], b[..];
    for i := 0 to 16
      invariant forall k :: 0 <= k < i ==> o[k] == x[k] - y[k]
      invariant forall k :: i <= k < 16 ==> a[k] == x[k] && b[k] == y[k]
    {
      o[i] := a[i] - b[i];
    }
    ValueCombine(65536, x, y, -1, o[..]);
    if Reduced(x) && Reduced(y) { SmallLimbs(x, y); }
  }

  lemma SmallLimbs(x: seq<int>, y: seq<int>)
    requires Reduced(x) && Reduced(y)
    ensures forall k :: 0 <= k < 16 ==> -38 <= x[k] < 65536 + 38 && -38 <= y[k] < 65536 + 38
  {
    assert forall k :: 1 <= k < 16 ==> x[k] == x[1..][k - 1] && y[k] == y[1..][k - 1];
  }

  lemma ReducedMulable(s: seq<int>)
    requires Reduced(s)
    ensures Mulable(s)
  {
    assert forall k :: 1 <= k < 16 ==> s[k] == s[1..][k - 1];
  }

  /** c := c * c * x^bit, the step of both square-and-multiply loops. */
  lemma PowerStep(x: int, e: nat, sq: int, c: int)
    requires Cong(c, Pow(x, e), P) && Cong(sq, c * c, P)
    ensures Cong(sq, Pow(x, 2 * e), P)
    ensures Cong(sq * x, Pow(x, 2 * e + 1), P)
  {
    CongMul(c, Pow(x, e), c, Pow(x, e), P);
    PowAdd(x, e, e);
    CongTrans(sq, c * c, Pow(x, 2 * e), P);
    CongMul(sq, Pow(x, 2 * e), x, x, P);
    assert Pow(x, 2 * e + 1) == x * Pow(x, 2 * e);
  }

  method SquareTimes(c: array<i64>, x: array<i64>, multiply: bool, ghost e: nat)
    requires c != x && Mulable(c[..]) && Mulable(x[..])
    requires Cong(Num(c[..]), Pow(Num(x[..]), e), P)
    modifies c
    ensures Mulable(c[..])
    ensures Cong(Num(c[..]), Pow(Num(x[..]), if multiply then 2 * e + 1 else 2 * e), P)
  {
    ghost var n, c0 := Num(x[..]), Num(c[..]);
    FieldSquare(c, c);
    ghost var sq := Num(c[..]);
    PowerStep(n, e, sq, c0);
    ReducedMulable(c[..]);
    if multiply {
      FieldMul(c, c, x);
      ReducedMulable(c[..]);
      CongTrans(Num(c[..]), sq * n, Pow(n, 2 * e + 1), P);
    }
  }

  method CopyLimbs(x: array<i64>) returns (c: array<i64>)
    requires x.Length == 16
    ensures fresh(c) && c[..] == x[..]
  {
    c := new i64[16](_ => 0);
    var a := 0;
    while a < 16
      invariant 0 <= a <= 16 && c.Length == 16
      invariant forall k :: 0 <= k < a ==> c[k] == x[k]
    {
      c[a] := x[a];
      a := a + 1;
    }
  }

  /** The exponent reached once inv25519 has handled bits 253 down to a: the top 255 - a bits
      of 2^255 - 21, whose binary expansion is all ones but for bits 4 and 2. */
  ghost function InvExponent(a: nat): int
    requires a <= 254
  {
    Pow(2, 255 - a) - 1 - (if a <= 4 then Pow(2, 4 - a) else 0) - (if a <= 2 then Pow(2, 2 - a) else 0)
  }

  lemma InvExponentStep(a: nat)
    requires a < 254
    ensures InvExponent(a) == 2 * InvExponent(a + 1) + (if a != 2 && a != 4 then 1 else 0)
  {
    assert Pow(2, 255 - a) == 2 * Pow(2, 254 - a);
    if a <= 3 { assert Pow(2, 4 - a) == 2 * Pow(2, 3 - a); }
    if a <= 1 { assert Pow(2, 2 - a) == 2 * Pow(2, 1 - a); }
    assert Pow(2, 0) == 1;
  }

  /** o := x^(2^255 - 21) = x^(P - 2), the inverse of x whenever it has one by Fermat. */
  method Inv25519(o: array<i64>, x: array<i64>)
    requires o.Length == 16 && Mulable(x[..])
    modifies o
    ensures Cong(Num(o[..]), Pow(old(Num(x[..])), P - 2), P)
    ensures Mulable(o[..])
  {
    var c := CopyLimbs(x);
    ghost var x0 := x[..];
    ghost var n := Num(x0);
    ghost var e: nat := 1;
    assert Pow(n, 1) == n * Pow(n, 0);
    assert InvExponent(254) == 1 by { assert Pow(2, 1) == 2 * Pow(2, 0); }
    var a := 253;
    while a >= 0
      invariant -1 <= a <= 253
      invariant c != x && fresh(c) && Mulable(c[..]) && x[..] == x0
      invariant e == InvExponent(a + 1)
      invariant Cong(Num(c[..]), Pow(n, e), P)
    {
      SquareTimes(c, x, a != 2 && a != 4, e);
      InvExponentStep(a);
      e := if a != 2 && a != 4 then 2 * e + 1 else 2 * e;
      a := a - 1;
    }
    InvExponentFinal();
    CopyInto(o, c);
  }

  method CopyInto(o: array<i64>, c: array<i64>)
    requires o.Length == 16 && c.Length == 16
    modifies o
    ensures o[..] == old(c[..])
  {
    ghost var c0 := c[..];
    var a := 0;
    while a < 16
      invariant 0 <= a <= 16
      invariant c[..] == c0
      invariant forall k :: 0 <= k < a ==> o[k] == c0[k]
    {
      o[a] := c[a];
      a := a + 1;
    }
  }

  lemma Pow2_255()
    ensures Pow(2, 255) == P + 19 && Pow(2, 252) == (P + 19) / 8
  {
    assert Pow(2, 4) == 16 && Pow(2, 3) == 8;
    PowAdd(2, 4, 4);
    PowAdd(2, 8, 8);
    PowAdd(2, 16, 16);
    PowAdd(2, 32, 32);
    PowAdd(2, 64, 64);
    PowAdd(2, 128, 128);
    assert Pow(2, 256) == R256;
    PowAdd(2, 1, 255);
    PowAdd(2, 3, 252);
    assert Pow(2, 1) == 2 * Pow(2, 0);
  }

  lemma InvExponentFinal()
    ensures InvExponent(0) == P - 2
  {
    Pow2_255();
    assert Pow(2, 4) == 16 && Pow(2, 2) == 4;
  }

  /** The exponent after pow2523 has handled bits 250 down to a: the top bits of 2^252 - 3. */
  ghost function RootExponent(a: nat): int
    requires a <= 251
  {
    Pow(2, 252 - a) - 1 - (if a <= 1 then Pow(2, 1 - a) else 0)
  }

  lemma RootExponentStep(a: nat)
    requires a < 251
    ensures RootExponent(a) == 2 * RootExponent(a + 1) + (if a != 1 then 1 else 0)
  {
    assert Pow(2, 252 - a) == 2 * Pow(2, 251 - a);
    assert Pow(2, 0) == 1 && Pow(2, 1) == 2 * Pow(2, 0);
  }

  /** o := x^(2^252 - 3) = x^((P - 5) / 8), the power behind square roots modulo P. */
  method Pow2523(o: array<i64>, x: array<i64>)
    requires o.Length == 16 && Mulable(x[..])
    modifies o
    ensures Cong(Num(o[..]), Pow(old(Num(x[..])), (P - 5) / 8), P)
    ensures Mulable(o[..])
  {
    var c := CopyLimbs(x);
    ghost var x0 := x[..];
    ghost var n := Num(x0);
    ghost var e: nat := 1;
    assert Pow(n, 1) == n * Pow(n, 0);
    assert RootExponent(251) == 1 by { assert Pow(2, 1) == 2 * Pow(2, 0); }
    var a := 250;
    while a >= 0
      invariant -1 <= a <= 250
      invariant c != x && fresh(c) && Mulable(c[..]) && x[..] == x0
      invariant e == RootExponent(a + 1)
      invariant Cong(Num(c[..]), Pow(n, e), P)
    {
      SquareTimes(c, x, a != 1, e);
      RootExponentStep(a);
      e := if a != 1 then 2 * e + 1 else 2 * e;
      a := a - 1;
    }
    assert RootExponent(0) == (P - 5) / 8 by { Pow2_255(); assert Pow(2, 1) == 2 * Pow(2, 0); }
    CopyInto(o, c);
  }

  /** Three carry passes bring any limbs to plain digits of a number below 2^256. */
  method CarryThrice(t: array<i64>)
    requires t.Length == 16
    requires forall k :: 0 <= k < 16 ==> -LIMB_MAX <= t[k] <= LIMB_MAX
    modifies t
    ensures Digits(65536, t[..])
    ensures Cong(Num(t[..]), old(Num(t[..])), P)
  {
    ghost var s1 := t[..];
    OverflowBound(s1, LIMB_MAX);
    Car25519(t);
    ghost var s2 := t[..];
    CarriedCong(Num(s1), s2);
    SecondCarry(Num(s1), s2);
    assert forall k :: 1 <= k < 16 ==> t[k] == s2[1..][k - 1];
    Car25519(t);
    ghost var s3 := t[..];
    CarriedCong(Num(s2), s3);
    CongTrans(Num(s3), Num(s2), Num(s1), P);
    ThirdCarry(Num(s2), s3);
    assert forall k :: 1 <= k < 16 ==> t[k] == s3[1..][k - 1];
    Car25519(t);
    CarriedCong(Num(s3), t[..]);
    CongTrans(Num(t[..]), Num(s3), Num(s1), P);
    assert forall k :: 1 <= k < 16 ==> t[k] == t[..][1..][k - 1];
  }

  /** After two passes whose second overflow was -1, 0 or 1, nothing is left to carry out. */
  lemma ThirdCarry(v: int, s: seq<int>)
    requires Carried(v, s) && -1 <= v / R256 <= 1
    requires v / R256 == 1 ==> v % R256 < 0x40_0000_0000_0000_0000
    requires v / R256 == -1 ==> v % R256 >= R256 - 0x40_0000_0000_0000_0000
    ensures Num(s) / R256 == 0
  {
    assert Num(s) == v % R256 + 38 * (v / R256);
  }

  /** The limbs of P. */
  ghost function PLimb(i: nat): int
    requires i < 16
  {
    if i == 0 then 0xffed else if i < 15 then 0xffff else 0x7fff
  }

  ghost function PLimbs(n: nat): seq<int>
    requires n <= 16
  {
    seq(n, i requires 0 <= i < n => PLimb(i))
  }

  lemma PLimbsSnoc(n: nat)
    requires n < 16
    ensures Num(PLimbs(n + 1)) == Num(PLimbs(n)) + Pow(65536, n) * PLimb(n)
  {
    assert PLimbs(n + 1)[..n] == PLimbs(n) && PLimbs(n + 1)[..n + 1] == PLimbs(n + 1);
    ValueSnoc(65536, PLimbs(n + 1), n);
  }

  lemma {:induction false} PPrefix(n: nat)
    requires 1 <= n <= 15
    ensures Num(PLimbs(n)) == Pow(65536, n) - 19
  {
    PLimbsSnoc(n - 1);
    if n > 1 {
      PPrefix(n - 1);
    } else {
      assert Pow(65536, 0) == 1;
    }
  }

  lemma PValue()
    ensures Num(PLimbs(16)) == P
  {
    PPrefix(15);
    PLimbsSnoc(15);
    Weights();
  }

  lemma BorrowAlgebra(p: int, x: int, l: int, b: int, b': int, d: int)
    requires d == x - l - b + 65536 * b'
    ensures p * d - b' * (65536 * p) == p * x - p * l - b * p
  {
    MulAdd(x - l - b, 65536 * b', p);
    MulSub(x - l, b, p);
    MulSub(x, l, p);
    MulAssoc(p, 65536, b');
  }

  /** m holds, in its first n limbs, t - P worked out by borrows; limb n - 1 is still unmasked
      and owes a borrow to limb n when it is negative. */
  ghost predicate Borrowing(t: seq<int>, m: seq<int>, n: nat) {
    && |t| == 16 && |m| == 16 && 1 <= n <= 16
    && Digits(65536, m[..n - 1])
    && -65536 <= m[n - 1] < 65536
    && Num(m[..n]) == Num(t[..n]) - Num(PLimbs(n))
  }

  lemma BorrowNext(t: seq<int>, m: seq<int>, n: nat, m': seq<int>)
    requires Borrowing(t, m, n) && n < 16 && |m'| == 16 && 0 <= t[n] < 65536
    requires m'[..n - 1] == m[..n - 1] && m'[n - 1] == m[n - 1] % 65536
    requires m'[n] == t[n] - PLimb(n) - (m[n - 1] / 65536) % 2
    ensures Borrowing(t, m', n + 1)
  {
    var b := if m[n - 1] < 0 then 1 else 0;
    var p := Pow(65536, n);
    assert m'[n - 1] == m[n - 1] + 65536 * b;
    assert m'[..n] == m[..n][n - 1 := m'[n - 1]];
    ValueUpdate(65536, m[..n], n - 1, m'[n - 1]);
    assert (65536 * b) * Pow(65536, n - 1) == b * p by { MulAssoc(b, 65536, Pow(65536, n - 1)); }
    ValueSnoc(65536, m', n);
    ValueSnoc(65536, t, n);
    PLimbsSnoc(n);
    BorrowAlgebra(p, t[n], PLimb(n), b, 0, m'[n]);
    assert forall k :: 0 <= k < n - 1 ==> m'[k] == m[..n - 1][k];
  }

  /** m := t - P by the borrow chain; b is 1 exactly when that is negative. */
  method SubtractP(t: array<i64>) returns (m: array<i64>, b: int)
    requires t.Length == 16 && Digits(65536, t[..])
    ensures fresh(m) && m.Length == 16
    ensures b == (if Num(t[..]) < P then 1 else 0)
    ensures b == 0 ==> Digits(65536, m[..]) && Num(m[..]) == Num(t[..]) - P
  {
    hide Borrowing, Num, PLimb;
    m := new i64[16](_ => 0);
    ghost var s := t[..];
    PLimbsAre();
    assert forall k :: 0 <= k < 16 ==> t[k] == s[k];
    m[0] := t[0] - 0xffed;
    BorrowFirst(s, m[..]);
    var i := 1;
    while i < 15
      invariant 1 <= i <= 15 && m.Length == 16
      invariant Borrowing(s, m[..], i)
    {
      ghost var m0 := m[..];
      BorrowLimb(s, m0, i);
      m[i] := t[i] - 0xffff - (m[i - 1] / 65536) % 2;
      m[i - 1] := m[i - 1] % 65536;
      BorrowNext(s, m0, i, m[..]);
      i := i + 1;
    }
    ghost var m0 := m[..];
    BorrowLimb(s, m0, 15);
    m[15] := t[15] - 0x7fff - (m[14] / 65536) % 2;
    b := (m[15] / 65536) % 2;
    m[14] := m[14] % 65536;
    BorrowNext(s, m0, 15, m[..]);
    BorrowLimb(s, m[..], 16);
    BorrowLast(s, m[..]);
  }

  lemma BorrowLimb(t: seq<int>, m: seq<int>, n: nat)
    requires Borrowing(t, m, n)
    ensures |m| == 16 && 1 <= n <= 16 && -65536 <= m[n - 1] < 65536
  {}

  lemma PLimbsAre()
    ensures PLimb(15) == 0x7fff && forall n: nat :: 1 <= n < 15 ==> PLimb(n) == 0xffff
  {}

  lemma BorrowFirst(t: seq<int>, m: seq<int>)
    requires |t| == 16 && |m| == 16 && Digits(65536, t) && m[0] == t[0] - 0xffed
    ensures Borrowing(t, m, 1)
  {
    assert Pow(65536, 0) == 1;
    ValueSnoc(65536, m, 0);
    ValueSnoc(65536, t, 0);
    PLimbsSnoc(0);
  }

  lemma BorrowLast(t: seq<int>, m: seq<int>)
    requires Borrowing(t, m, 16) && Digits(65536, t)
    ensures m[15] < 0 <==> Num(t) < P
    ensures Num(t) >= P ==> Digits(65536, m) && Num(m) == Num(t) - P
  {
    assert m[..16] == m && t[..16] == t;
    PValue();
    ValueSnoc(65536, m, 15);
    DigitsBound(65536, m[..15]);
    assert forall k :: 0 <= k < 15 ==> m[k] == m[..15][k];
    var p := Pow(65536, 15);
    if m[15] < 0 { MulMono(m[15], -1, p); } else { MulMono(0, m[15], p); }
  }

  /** A 64-bit word, least significant bit first. */
  type Word = w: seq<bool> | |w| == 64 witness seq(64, _ => false)

  /** The two's complement pattern of a limb, and the limb of a pattern. */
  function ToWord(x: i64): Word { Binary(if x < 0 then x as int + TWO64 else x, 64) }

  function FromWord(w: Word): int {
    var v := Unbinary(w);
    if v >= TWO64 / 2 then v - TWO64 else v
  }

  lemma WordRoundTrip(x: i64)
    ensures FromWord(ToWord(x)) == x
  {
    hide Binary, Unbinary, Pow;
    assert Pow(2, 64) == TWO64 by { Pow2_64(); }
    BinaryRoundTrip(if x < 0 then x as int + TWO64 else x, 64);
  }

  /** sel25519's mask ~(b - 1), which is -b: all bits equal to b. */
  lemma {:induction false} MaskBits(b: int, n: nat)
    requires 0 <= b <= 1
    ensures Binary(b * (Pow(2, n) - 1), n) == seq(n, _ => b == 1)
  {
    if n > 0 {
      MaskBits(b, n - 1);
      assert b * (Pow(2, n) - 1) / 2 == b * (Pow(2, n - 1) - 1);
    }
  }

  /** The masked exclusive-or keeps a word or takes the other one. */
  lemma SelWord(p: Word, q: Word, c: Word, b: bool)
    requires c == seq(64, _ => b)
    ensures Xor(p, And(c, Xor(p, q))) == if b then q else p
    ensures Xor(q, And(c, Xor(p, q))) == if b then p else q
  {
    var t := And(c, Xor(p, q));
    assert forall i :: 0 <= i < 64 ==> t[i] == (b && p[i] != q[i]);
  }

  lemma MaskWord(b: int)
    requires 0 <= b <= 1
    ensures ToWord(-b) == seq(64, _ => b == 1)
  {
    hide Binary, Pow;
    Pow2_64();
    MaskBits(b, 64);
  }

  /** sel25519, on the bit patterns of the limbs: an exchange exactly when b is 1. */
  method Sel25519(p: array<i64>, q: array<i64>, b: int)
    requires p.Length == 16 && q.Length == 16 && p != q && 0 <= b <= 1
    modifies p, q
    ensures p[..] == if b == 1 then old(q[..]) else old(p[..])
    ensures q[..] == if b == 1 then old(p[..]) else old(q[..])
  {
    hide ToWord, FromWord, Xor, And;
    var c := ToWord(-b);
    MaskWord(b);
    var i := 0;
    while i < 16
      invariant 0 <= i <= 16
      invariant forall k :: 0 <= k < i ==> p[k] == (if b == 1 then old(q[k]) else old(p[k]))
      invariant forall k :: 0 <= k < i ==> q[k] == (if b == 1 then old(p[k]) else old(q[k]))
      invariant forall k :: i <= k < 16 ==> p[k] == old(p[k]) && q[k] == old(q[k])
    {
      var x, y := ToWord(p[i]), ToWord(q[i]);
      SelWord(x, y, c, b == 1);
      WordRoundTrip(p[i]);
      WordRoundTrip(q[i]);
      var t := And(c, Xor(x, y));
      p[i] := FromWord(Xor(x, t));
      q[i] := FromWord(Xor(y, t));
      i := i + 1;
    }
  }

  function TwoBytes(lo: int, hi: int): int { lo + 256 * hi }

  /** Two bytes per limb: the byte string has the limbs' value. */
  lemma {:induction false} BytesOfLimbs(b: seq<int>, t: seq<int>)
    requires |b| == 2 * |t|
    requires forall k :: 0 <= k < |t| ==> TwoBytes(b[2 * k], b[2 * k + 1]) == t[k]
    ensures ByteValue(b) == Num(t)
  {
    if |t| > 0 {
      assert TwoBytes(b[2 * 0], b[2 * 0 + 1]) == t[0];
      forall k | 0 <= k < |t| - 1
        ensures TwoBytes(b[2..][2 * k], b[2..][2 * k + 1]) == t[1..][k]
      {
        assert TwoBytes(b[2 * (k + 1)], b[2 * (k + 1) + 1]) == t[k + 1];
      }
      BytesOfLimbs(b[2..], t[1..]);
      assert b[1..][1..] == b[2..];
      assert ByteValue(b) == b[0] + 256 * Value(256, b[1..]);
      assert Value(256, b[1..]) == b[1] + 256 * Value(256, b[2..]);
    }
  }

  lemma CongSubtract(x: int, v: int)
    requires Cong(x, v, P)
    ensures Cong(x - P, v, P)
  {
    CongFromMultiple(x - P, x, P, -1);
    CongTrans(x - P, x, v, P);
  }

  /** The unique encoding below P of the residue that n represents. */
  method Pack25519(n: array<i64>) returns (o: array<Byte>)
    requires n.Length == 16
    requires forall k :: 0 <= k < 16 ==> -LIMB_MAX <= n[k] <= LIMB_MAX
    ensures fresh(o) && o.Length == 32
    ensures ByteValue(o[..]) == Num(n[..]) % P
  {
    var t := CopyLimbs(n);
    ghost var v := Num(n[..]);
    assert forall k :: 0 <= k < 16 ==> t[k] == n[..][k];
    CarryThrice(t);
    DigitsBound(65536, t[..]);
    Weights();
    var j := 0;
    while j < 2
      invariant 0 <= j <= 2 && fresh(t) && t.Length == 16
      invariant Digits(65536, t[..]) && Cong(Num(t[..]), v, P)
      invariant 0 <= Num(t[..]) < (3 - j) * P
    {
      var m, b := SubtractP(t);
      CongSubtract(Num(t[..]), v);
      DigitsBound(65536, t[..]);
      Sel25519(t, m, 1 - b);
      DigitsBound(65536, t[..]);
      j := j + 1;
    }
    ResidueUnique(Num(t[..]), v);
    o := EmitBytes(t);
  }

  lemma ResidueUnique(x: int, v: int)
    requires 0 <= x < P && Cong(x, v, P)
    ensures x == v % P
  {
    CongMod(x, v, P);
    DivModUnique(x, P, 0, x);
  }

  method EmitBytes(t: array<i64>) returns (o: array<Byte>)
    requires t.Length == 16 && Digits(65536, t[..])
    ensures fresh(o) && o.Length == 32 && ByteValue(o[..]) == Num(t[..])
  {
    o := new Byte[32](_ => 0);
    assert forall k :: 0 <= k < 16 ==> t[k] == t[..][k];
    var i := 0;
    while i < 16
      invariant 0 <= i <= 16 && o.Length == 32
      invariant forall k :: 0 <= k < i ==> TwoBytes(o[2 * k], o[2 * k + 1]) == t[k]
    {
      o[2 * i] := t[i] % 256;
      o[2 * i + 1] := t[i] / 256;
      i := i + 1;
    }
    BytesOfLimbs(o[..], t[..]);
  }

  const R255: int := 0x8000_0000_0000_0000_0000_0000_0000_0000_0000_0000_0000_0000_0000_0000_0000_0000

  /** The limbs of a 32-byte string with its top bit dropped. */
  method Unpack25519(n: array<Byte>) returns (o: array<i64>)
    requires n.Length == 32
    ensures fresh(o) && o.Length == 16 && Digits(65536, o[..])
    ensures Num(o[..]) == ByteValue(n[..]) % R255
  {
    o := new i64[16](_ => 0);
    var i := 0;
    while i < 16
      invariant 0 <= i <= 16 && o.Length == 16
      invariant forall k :: 0 <= k < i ==> TwoBytes(n[2 * k], n[2 * k + 1]) == o[k]
      invariant forall k :: 0 <= k < i ==> 0 <= o[k] < 65536
    {
      o[i] := TwoBytes(n[2 * i], n[2 * i + 1]);
      i := i + 1;
    }
    ghost var s := o[..];
    BytesOfLimbs(n[..], s);
    o[15] := o[15] % 0x8000;
    assert o[..] == s[15 := s[15] % 0x8000];
    DropTopBit(s);
  }

  lemma DropTopBit(s: seq<int>)
    requires |s| == 16 && Digits(65536, s)
    ensures Num(s[15 := s[15] % 0x8000]) == Num(s) % R255
  {
    var top, low := s[15] / 0x8000, s[15] % 0x8000;
    var d := s[15 := low];
    Weights();
    var p := Pow(65536, 15);
    ValueUpdate(65536, s, 15, low);
    assert (low - s[15]) * p == -top * R255 by { MulAssoc(-top, 0x8000, p); }
    assert d[..16] == d;
    ValueSnoc(65536, d, 15);
    DigitsBound(65536, d[..15]);
    MulMono(low, 0x7fff, p);
    MulMono(0, low, p);
    DivModUnique(Num(s), R255, top, Num(d));
  }

  /** Unpacking a canonical encoding and packing it again gives back the same bytes. */
  method PackUnpack(b: array<Byte>) returns (o: array<Byte>)
    requires b.Length == 32 && ByteValue(b[..]) < P
    ensures o[..] == b[..]
  {
    DigitsBound(256, b[..]);
    DivModUnique(ByteValue(b[..]), R255, 0, ByteValue(b[..]));
    DivModUnique(ByteValue(b[..]), P, 0, ByteValue(b[..]));
    var t := Unpack25519(b);
    assert forall k :: 0 <= k < 16 ==> t[k] == t[..][k];
    o := Pack25519(t);
    DigitsUnique(256, o[..], b[..]);
  }

  /** neq25519: packing decides congruence modulo P. */
  method Neq25519(a: array<i64>, b: array<i64>) returns (neq: bool)
    requires a.Length == 16 && b.Length == 16
    requires forall k :: 0 <= k < 16 ==> -LIMB_MAX <= a[k] <= LIMB_MAX && -LIMB_MAX <= b[k] <= LIMB_MAX
    ensures neq <==> !Cong(Num(a[..]), Num(b[..]), P)
  {
    var c := Pack25519(a);
    var d := Pack25519(b);
    neq := c[..] != d[..];
    CongMod(Num(a[..]), Num(b[..]), P);
    if ByteValue(c[..]) == ByteValue(d[..]) {
      DigitsUnique(256, c[..], d[..]);
    }
  }
}
