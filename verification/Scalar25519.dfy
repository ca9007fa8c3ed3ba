/** Reduction of scalars modulo the Ed25519 group order L on 64 signed limbs of weight 2^8. */
module Scalar25519 {
  import opened Basics
  import opened Radix

  /** The group order, 2^252 + 27742317777372353535851937790883648493. */
  const ORDER: int := 0x1000_0000_0000_0000_0000_0000_0000_0000_14de_f9de_a2f7_9cd6_5812_631a_5cf5_d3ed

  /** The table L: the bytes of the order, least significant first. */
  const LOW0: seq<int> := [0xed, 0xd3, 0xf5, 0x5c]
  const LOW1: seq<int> := [0x1a, 0x63, 0x12, 0x58]
  const LOW2: seq<int> := [0xd6, 0x9c, 0xf7, 0xa2]
  const LOW3: seq<int> := [0xde, 0xf9, 0xde, 0x14]
  const ZERO4: seq<int> := [0, 0, 0, 0]
  const ZERO11: seq<int> := [0, 0, 0, 0, 0, 0, 0, 0, 0, 0, 0]
  const LOW: seq<int> := LOW0 + (LOW1 + (LOW2 + LOW3))
  const HEAD: seq<int> := LOW + ZERO4
  const TABLE: seq<int> := HEAD + (ZERO11 + [0x10])


  /** The order of the base point of Ed25519 (section 5.1 of RFC 8032). */
  lemma OrderIs()
    ensures ORDER == Pow(2, 252) + 27742317777372353535851937790883648493
  {
    Pow2_64();
    PowAdd(2, 64, 64);
    PowAdd(2, 128, 64);
    PowAdd(2, 192, 60);
    PowAdd(2, 60, 4);
    assert Pow(2, 4) == 16;
    assert 16 * Pow(2, 60) == TWO64;
  }

  lemma ByteWeights()
    ensures Pow(256, 31) * 256 == R256 && Pow(256, 32) == R256
  {
    assert Pow(256, 1) == 256 * Pow(256, 0);
    PowAdd(256, 1, 1);
    PowAdd(256, 2, 2);
    PowAdd(256, 4, 4);
    PowAdd(256, 8, 8);
    PowAdd(256, 16, 16);
  }

  lemma Pow16()
    ensures Pow(256, 4) == 0x1_0000_0000 && Pow(256, 16) == 0x1_0000_0000_0000_0000_0000_0000_0000_0000
  {
    assert Pow(256, 1) == 256 * Pow(256, 0);
    PowAdd(256, 1, 1);
    PowAdd(256, 2, 2);
    PowAdd(256, 4, 4);
    PowAdd(256, 8, 8);
  }

  lemma FourBytes(s: seq<int>)
    requires |s| == 4
    ensures ByteValue(s) == s[0] + 256 * s[1] + 65536 * s[2] + 16777216 * s[3]
  {
    ValueSnoc(256, s, 0);
    ValueSnoc(256, s, 1);
    ValueSnoc(256, s, 2);
    ValueSnoc(256, s, 3);
    assert s[..4] == s;
    assert Pow(256, 0) == 1 && Pow(256, 1) == 256 && Pow(256, 2) == 256 * Pow(256, 1) && Pow(256, 3) == 256 * Pow(256, 2);
  }

  /** The low sixteen table bytes are the order less 2^252. */
  lemma TableLow()
    ensures ByteValue(LOW) == ORDER - 0x1000_0000_0000_0000_0000_0000_0000_0000_0000_0000_0000_0000_0000_0000_0000_0000
  {
    Pow16();
    FourBytes(LOW0);
    FourBytes(LOW1);
    FourBytes(LOW2);
    FourBytes(LOW3);
    ValueConcat(256, LOW2, LOW3);
    ValueConcat(256, LOW1, LOW2 + LOW3);
    ValueConcat(256, LOW0, LOW1 + (LOW2 + LOW3));
  }

  lemma HeadValue()
    ensures |HEAD| == 20 && ByteValue(HEAD) == ByteValue(LOW)
  {
    ValueZero(256, ZERO4);
    ValueConcat(256, LOW, ZERO4);
  }

  lemma TailValue()
    ensures |ZERO11 + [0x10]| == 12 && ByteValue(ZERO11 + [0x10]) == Pow(256, 11) * 0x10
  {
    ValueZero(256, ZERO11);
    ValueConcat(256, ZERO11, [0x10]);
    assert ByteValue([0x10]) == 0x10;
  }

  lemma TableDigits()
    ensures Digits(256, TABLE)
  {
    assert Digits(256, LOW0) && Digits(256, LOW1) && Digits(256, LOW2) && Digits(256, LOW3);
    assert Digits(256, ZERO4) && Digits(256, ZERO11);
    assert Digits(256, LOW2 + LOW3);
    assert Digits(256, LOW1 + (LOW2 + LOW3));
    assert Digits(256, LOW);
  }

  /** What the reduction needs of its table. The main loop uses only the first twenty bytes;
      clearing limb i there accounts for byte 31. */
  ghost predicate OrderTable(l: seq<int>) {
    && |l| == 32 && Digits(256, l)
    && ByteValue(l) == ORDER
    && ByteValue(l[..20]) + 16 * Pow(256, 31) == ORDER
    && l[16] == l[17] == l[18] == l[19] == 0
  }

  lemma TableValue()
    ensures OrderTable(TABLE)
  {
    TableLow();
    HeadValue();
    TailValue();
    TableDigits();
    ByteWeights();
    ValueConcat(256, HEAD, ZERO11 + [0x10]);
    PowAdd(256, 20, 11);
    MulAssoc(Pow(256, 20), Pow(256, 11), 0x10);
    assert TABLE[..20] == HEAD;
    assert forall k :: 16 <= k < 20 ==> TABLE[k] == ZERO4[k - 16];
  }

  /** Limb magnitudes: on entry, for a limb about to be eliminated, and for a running carry. */
  const B0: int := 0x20_0000
  const BQ: int := 0x21_0000
  const BC: int := 0x300_0000

  /** Bound on the carry once k limbs of a row are done; only the first row meets raw limbs
      beyond the first of its window. */
  ghost function CarryMax(first: bool, k: nat): int {
    if k <= 16 then BC
    else if k == 17 then 0x4_0000
    else if k == 18 then (if first then 0x3000 else 1025)
    else if k == 19 then (if first then 0x2100 else 5)
    else (if first then 0x2100 else 1)
  }

  /** The limbs when limb i is the highest one left to eliminate. */
  ghost predicate Shape(x: seq<int>, i: int) {
    && |x| == 64 && 31 <= i <= 63
    && (forall k :: i < k < 64 ==> x[k] == 0)
    && (forall k :: 0 <= k <= i ==> -BQ <= x[k] <= BQ)
    && (forall k :: 0 <= k < i - 31 || (i == 63 && k < 64) ==> 0 <= k < 64 ==> -B0 <= x[k] <= B0)
    && (i < 63 ==> forall k :: 0 <= k && i - 31 <= k <= i - 12 ==> -128 <= x[k] <= 127)
    && (i < 63 ==> forall k :: i - 12 < k <= i && k <= 50 ==> -129 <= x[k] <= 128)
  }

  /** What limb k of a row loses, before carries. */
  function Term(q: int, d: int): int { 16 * q * d }

  /** c at weight 256^j. */
  ghost function At(c: int, j: nat): int { c * Pow(256, j) }

  /** 16 q 256^a times the number formed by the first k table bytes. */
  ghost function RowPart(q: int, a: nat, l: seq<int>, k: nat): int
    requires k <= |l|
  {
    16 * q * Pow(256, a) * ByteValue(l[..k])
  }

  /** One limb of one row: subtract 16 q l[k] at weight a + k and pass a carry on. */
  lemma RowStep(s: seq<int>, a: nat, k: nat, q: int, l: seq<int>, carry: int, carry': int)
    requires |s| == 64 && a + k < 64 && k < |l|
    ensures ByteValue(s[a + k := s[a + k] + carry - Term(q, l[k]) - 256 * carry']) + At(carry', a + k + 1)
         == ByteValue(s) + At(carry, a + k) - RowPart(q, a, l, k + 1) + RowPart(q, a, l, k)
  {
    var p, pa, pk, w := Pow(256, a + k), Pow(256, a), Pow(256, k), 16 * q;
    ValueUpdate(256, s, a + k, s[a + k] + carry - w * l[k] - 256 * carry');
    ValueSnoc(256, l, k);
    MulAdd(ByteValue(l[..k]), pk * l[k], w * pa);
    assert (w * pa) * (pk * l[k]) == (w * l[k]) * p by {
      PowAdd(256, a, k);
      MulRegroup(w, pa, pk, l[k]);
    }
    RowAlgebra(carry, w * l[k], carry', p);
  }

  lemma RowAlgebra(c: int, m: int, c': int, p: int)
    ensures (c - m - 256 * c') * p + c' * (256 * p) == c * p - m * p
  {
    MulSub(c - m, 256 * c', p);
    MulSub(c, m, p);
    MulAssoc(c', 256, p);
  }

  lemma TermBound(q: int, d: int)
    requires -BQ <= q <= BQ && 0 <= d < 256
    ensures -(16 * BQ * 255) <= Term(q, d) <= 16 * BQ * 255
    ensures d == 0 ==> Term(q, d) == 0
  {
    MulMono(16 * q, 16 * BQ, d);
    MulMono(-16 * BQ, 16 * q, d);
    MulMono(d, 255, 16 * BQ);
  }

  /** The window limbs of row i while k of its limbs are done. */
  ghost predicate InRow(x0: seq<int>, x: seq<int>, i: int, k: int) {
    && |x0| == 64 && |x| == 64 && 32 <= i <= 63 && 0 <= k <= 20
    && (forall n :: i - 32 <= n < i - 32 + k ==> -128 <= x[n] <= 127)
    && (forall n :: 0 <= n < i - 32 || i - 32 + k <= n < 64 ==> x[n] == x0[n])
  }

  lemma RowDone(x0: seq<int>, x: seq<int>, i: int, carry: int, x': seq<int>)
    requires Shape(x0, i) && InRow(x0, x, i, 20)
    requires -CarryMax(i == 63, 20) <= carry <= CarryMax(i == 63, 20)
    requires x' == x[i - 12 := x[i - 12] + carry][i := 0]
    ensures Shape(x', i - 1)
    ensures -0x1000_0000 <= x[i - 12] + carry <= 0x1000_0000
  {}

  /** Clearing limb i finishes the subtraction of 16 x[i] 256^(i-32) L. */
  lemma RowValue(x: seq<int>, i: int, q: int, carry: int, v: int, l: seq<int>)
    requires |x| == 64 && 32 <= i <= 63 && x[i] == q && OrderTable(l)
    requires ByteValue(x) + At(carry, i - 12) == v - RowPart(q, i - 32, l, 20)
    ensures ByteValue(x[i - 12 := x[i - 12] + carry][i := 0]) == v - RowTotal(q, i)
  {
    hide Value, Pow;
    var x1 := x[i - 12 := x[i - 12] + carry];
    assert ByteValue(x1) == ByteValue(x) + At(carry, i - 12) by { ValueUpdate(256, x, i - 12, x[i - 12] + carry); }
    assert ByteValue(x1[i := 0]) == ByteValue(x1) + (0 - q) * Pow(256, i) by { ValueUpdate(256, x1, i, 0); }
    RowSum(q, i - 32, ByteValue(l[..20]));
    MulSub(0, q, Pow(256, i));
  }

  lemma RowSum(q: int, a: nat, head: int)
    requires head + 16 * Pow(256, 31) == ORDER
    ensures 16 * q * Pow(256, a) * ORDER == 16 * q * Pow(256, a) * head + q * Pow(256, a + 32)
  {
    var w, p31 := 16 * q * Pow(256, a), Pow(256, 31);
    MulAdd(head, 16 * p31, w);
    PowAdd(256, a, 32);
    assert Pow(256, 32) == 256 * p31;
    RowTop(q, Pow(256, a), p31);
  }

  lemma RowTop(q: int, a: int, b: int)
    ensures 16 * q * a * (16 * b) == q * (a * (256 * b))
  {
    MulAssoc(16 * q, a, 16 * b);
    MulAssoc(a, 16, b);
    MulAssoc(a, 256, b);
    MulAssoc(16, q, 16 * (a * b));
    MulAssoc(q, 16, a * b);
    MulAssoc(q, 256, a * b);
    assert a * (16 * b) == 16 * (a * b) && a * (256 * b) == 256 * (a * b);
  }

  lemma RowStart(q: int, a: nat, l: seq<int>)
    ensures At(0, a) == 0 && RowPart(q, a, l, 0) == 0
  {}

  /** Limb k of row i: the new carry and limb stay within their bounds. */
  lemma CarryBound(x0: seq<int>, i: int, k: nat, carry: int, term: int, carry': int)
    requires Shape(x0, i) && 32 <= i && k < 20
    requires -CarryMax(i == 63, k) <= carry <= CarryMax(i == 63, k)
    requires -(16 * BQ * 255) <= term <= 16 * BQ * 255
    requires k >= 16 ==> term == 0
    requires carry' == (x0[i - 32 + k] + carry - term + 128) / 256
    ensures -CarryMax(i == 63, k + 1) <= carry' <= CarryMax(i == 63, k + 1)
    ensures -0x8000_0000_0000 <= x0[i - 32 + k] + carry - term <= 0x8000_0000_0000
    ensures -128 <= x0[i - 32 + k] + carry - term - 256 * carry' <= 127
  {
    var d := x0[i - 32 + k];
    assert -BQ <= d <= BQ;
    if k >= 16 {
      assert -B0 <= d <= B0;
      if i < 63 { assert -128 <= d <= 127; }
    }
  }

  lemma InRowStep(x0: seq<int>, x: seq<int>, i: int, k: nat, y: int)
    requires InRow(x0, x, i, k) && k < 20 && -128 <= y <= 127
    ensures InRow(x0, x[i - 32 + k := y], i, k + 1)
  {}

  /** One limb of the inner loop, as three assignments. */
  method RowLimb(x: array<i64>, i: int, j: int, d: int, carry: i64) returns (carry': i64)
    requires x.Length == 64 && 0 <= j < i < 64 && -BQ <= x[i] <= BQ && 0 <= d < 256
    requires -0x8000_0000_0000 <= x[j] + carry - Term(x[i], d) <= 0x8000_0000_0000
    modifies x
    ensures carry' == (old(x[j]) + carry - Term(old(x[i]), d) + 128) / 256
    ensures x[..] == old(x[..])[j := old(x[j]) + carry - Term(old(x[i]), d) - 256 * carry']
  {
    TermBound(x[i], d);
    var term: i64 := 16 * x[i] * d;
    assert term == Term(x[i], d);
    hide Term;
    x[j] := x[j] + carry - term;
    carry' := (x[j] + 128) / 256;
    x[j] := x[j] - carry' * 256;
  }

  /** Row i of the limbs x0 with k limbs done: their bounds, the carry's, and what the value has lost. */
  ghost predicate RowState(x0: seq<int>, s: seq<int>, i: int, k: nat, carry: int, l: seq<int>) {
    && InRow(x0, s, i, k) && k <= |l|
    && -CarryMax(i == 63, k) <= carry <= CarryMax(i == 63, k)
    && ByteValue(s) + At(carry, i - 32 + k) == ByteValue(x0) - RowPart(x0[i], i - 32, l, k)
  }

  lemma RowBegin(x0: seq<int>, i: int, l: seq<int>)
    requires Shape(x0, i) && 32 <= i
    ensures RowState(x0, x0, i, 0, 0, l)
  {
    hide Value, Pow;
    RowStart(x0[i], i - 32, l);
  }

  /** What the next limb may rely on. */
  lemma RowReady(x0: seq<int>, s: seq<int>, i: int, k: nat, carry: int, l: seq<int>)
    requires RowState(x0, s, i, k, carry, l) && Shape(x0, i) && OrderTable(l) && k < 20
    ensures |s| == 64 && s[i] == x0[i] && -BQ <= s[i] <= BQ && 0 <= l[k] < 256 && s[i - 32 + k] == x0[i - 32 + k]
    ensures -0x8000_0000_0000 <= s[i - 32 + k] + carry - Term(s[i], l[k]) <= 0x8000_0000_0000
  {
    hide Term, CarryMax, ByteValue, RowPart, At;
    assert -BQ <= x0[i] <= BQ;
    TermBound(x0[i], l[k]);
    CarryBound(x0, i, k, carry, Term(x0[i], l[k]), (x0[i - 32 + k] + carry - Term(x0[i], l[k]) + 128) / 256);
  }

  lemma RowNext(x0: seq<int>, s: seq<int>, i: int, k: nat, carry: int, l: seq<int>, carry': int)
    requires RowState(x0, s, i, k, carry, l) && Shape(x0, i) && OrderTable(l) && k < 20
    requires carry' == (s[i - 32 + k] + carry - Term(s[i], l[k]) + 128) / 256
    ensures RowState(x0, s[i - 32 + k := s[i - 32 + k] + carry - Term(s[i], l[k]) - 256 * carry'], i, k + 1, carry', l)
  {
    hide Term, CarryMax, ByteValue, RowPart, At, Pow, Value;
    RowReady(x0, s, i, k, carry, l);
    TermBound(x0[i], l[k]);
    CarryBound(x0, i, k, carry, Term(x0[i], l[k]), carry');
    RowStep(s, i - 32, k, x0[i], l, carry, carry');
    InRowStep(x0, s, i, k, s[i - 32 + k] + carry - Term(s[i], l[k]) - 256 * carry');
  }

  /** The inner loop over the twenty limbs of row i. */
  method RowLimbs(x: array<i64>, i: int, l: seq<int>) returns (carry: i64)
    requires x.Length == 64 && 32 <= i <= 63 && OrderTable(l) && Shape(x[..], i)
    modifies x
    ensures RowState(old(x[..]), x[..], i, 20, carry, l)
  {
    hide Shape, Term, OrderTable, RowState;
    assert |l| >= 20 by { TableLength(l); }
    ghost var x0 := x[..];
    carry := 0;
    var j := i - 32;
    RowBegin(x0, i, l);
    while j < i - 12
      invariant i - 32 <= j <= i - 12 && RowState(x0, x[..], i, j - (i - 32), carry, l)
    {
      ghost var s, c := x[..], carry;
      RowReady(x0, s, i, j - (i - 32), c, l);
      carry := RowLimb(x, i, j, l[j - (i - 32)], carry);
      RowNext(x0, s, i, j - (i - 32), c, l, carry);
      j := j + 1;
    }
  }

  lemma TableLength(l: seq<int>)
    requires OrderTable(l)
    ensures |l| >= 20
  {}

  /** What row i takes off when limb i holds q. */
  ghost function RowTotal(q: int, i: int): int
    requires i >= 32
  {
    16 * q * Pow(256, i - 32) * ORDER
  }

  /** One row of the main loop: x := x - 16 x[i] 256^(i-32) L, exactly. */
  method EliminateLimb(x: array<i64>, i: int, l: seq<int>)
    requires x.Length == 64 && 32 <= i <= 63 && OrderTable(l) && Shape(x[..], i)
    modifies x
    ensures ByteValue(x[..]) == old(ByteValue(x[..])) - RowTotal(old(x[i]), i)
    ensures Shape(x[..], i - 1)
  {
    hide At, RowPart, Pow, Value, Shape, CarryMax, ByteValue, RowTotal, OrderTable;
    ghost var x0 := x[..];
    var carry := RowLimbs(x, i, l);
    ghost var s: seq<int> := x[..];
    assert s[i] == x0[i];
    RowDone(x0, s, i, carry, s[i - 12 := s[i - 12] + carry][i := 0]);
    RowValue(s, i, x0[i], carry, ByteValue(x0), l);
    x[i - 12] := x[i - 12] + carry;
    x[i] := 0;
    assert x[..] == s[i - 12 := s[i - 12] + carry][i := 0];
  }

  lemma RowMultiple(q: int, i: int, v: int)
    requires i >= 32
    ensures Cong(v - RowTotal(q, i), v, ORDER)
  {
    CongFromMultiple(v - RowTotal(q, i), v, ORDER, -(16 * q * Pow(256, i - 32)));
    MulSub(0, 16 * q * Pow(256, i - 32), ORDER);
  }

  /** The main loop: limbs 63 down to 32 are eliminated; the residue modulo L stays. */
  method EliminateHigh(x: array<i64>, l: seq<int>)
    requires x.Length == 64 && OrderTable(l)
    requires forall k :: 0 <= k < 64 ==> -B0 <= x[k] <= B0
    modifies x
    ensures Cong(ByteValue(x[..]), old(ByteValue(x[..])), ORDER)
    ensures Shape(x[..], 31)
  {
    ghost var v := ByteValue(x[..]);
    CongFromMultiple(v, v, ORDER, 0);
    assert Shape(x[..], 63);
    hide Shape, RowTotal, ByteValue, Cong;
    var i := 63;
    while i >= 32
      invariant 31 <= i <= 63 && Shape(x[..], i)
      invariant Cong(ByteValue(x[..]), v, ORDER)
    {
      ghost var w, q := ByteValue(x[..]), x[i];
      EliminateLimb(x, i, l);
      RowMultiple(q, i, w);
      CongTrans(ByteValue(x[..]), w, v, ORDER);
      i := i - 1;
    }
  }

  /** Subtracting q L from 32 limbs and normalising them to bytes; carry is what is left over. */
  lemma ByteStep(s: seq<int>, j: nat, q: int, l: seq<int>, carry: int, carry': int)
    requires |s| == 64 && j < 32 && |l| == 32
    ensures ByteValue(s[j := s[j] + carry - q * l[j] - 256 * carry']) + At(carry', j + 1)
         == ByteValue(s) + At(carry, j) - q * ByteValue(l[..j + 1]) + q * ByteValue(l[..j])
  {
    var p := Pow(256, j);
    ValueUpdate(256, s, j, s[j] + carry - q * l[j] - 256 * carry');
    ValueSnoc(256, l, j);
    MulAdd(ByteValue(l[..j]), p * l[j], q);
    assert q * (p * l[j]) == (q * l[j]) * p by { MulAssoc(q, l[j], p); }
    RowAlgebra(carry, q * l[j], carry', p);
  }

  lemma SmallTerm(q: int, d: int)
    requires -16 <= q <= 16 && 0 <= d < 256
    ensures -4096 <= q * d <= 4096
  {
    MulMono(q, 16, d);
    MulMono(-16, q, d);
  }

  /** x := x - q L as bytes, with q = x[31] >> 4 read afresh each time round. */
  method SubtractQuotient(x: array<i64>, l: seq<int>) returns (carry: i64)
    requires x.Length == 64 && OrderTable(l)
    requires forall k :: 0 <= k < 32 ==> -129 <= x[k] <= 128
    requires forall k :: 32 <= k < 64 ==> x[k] == 0
    modifies x
    ensures forall k :: 0 <= k < 32 ==> 0 <= x[k] < 256
    ensures forall k :: 32 <= k < 64 ==> x[k] == 0
    ensures -64 <= carry <= 64
    ensures ByteValue(x[..]) + At(carry, 32) == old(ByteValue(x[..])) - (old(x[31]) / 16) * ORDER
  {
    ghost var x0 := x[..];
    ghost var v, q := ByteValue(x0), x[31] / 16;
    carry := 0;
    assert At(0, 0) == 0 && q * ByteValue(l[..0]) == 0;
    hide At, Pow, Value, ByteValue;
    var j := 0;
    while j < 32
      invariant 0 <= j <= 32
      invariant forall k :: 0 <= k < j ==> 0 <= x[k] < 256
      invariant forall k :: j <= k < 64 ==> x[k] == x0[k]
      invariant -64 <= carry <= 64
      invariant ByteValue(x[..]) + At(carry, j) == v - q * ByteValue(l[..j])
    {
      ghost var s, c := x[..], carry;
      SmallTerm(q, l[j]);
      x[j] := x[j] + carry - (x[31] / 16) * l[j];
      carry := x[j] / 256;
      x[j] := x[j] % 256;
      ByteStep(s, j, q, l, c, carry);
      assert x[..] == s[j := s[j] + c - q * l[j] - 256 * carry];
      j := j + 1;
    }
    assert l[..32] == l;
  }

  /** Adding L back when the difference was negative. */
  method AddBack(x: array<i64>, l: seq<int>, carry: i64)
    requires x.Length == 64 && OrderTable(l) && -64 <= carry <= 64
    requires forall k :: 0 <= k < 32 ==> 0 <= x[k] < 256
    requires forall k :: 32 <= k < 64 ==> x[k] == 0
    modifies x
    ensures forall k :: 0 <= k < 32 ==> -0x1_0000 <= x[k] <= 0x1_0000
    ensures forall k :: 32 <= k < 64 ==> x[k] == 0
    ensures ByteValue(x[..]) == old(ByteValue(x[..])) - carry * ORDER
  {
    ghost var x0 := x[..];
    ghost var v := ByteValue(x0);
    assert carry * ByteValue(l[..0]) == 0;
    hide Pow, Value, ByteValue;
    var j := 0;
    while j < 32
      invariant 0 <= j <= 32
      invariant forall k :: 0 <= k < j ==> -0x1_0000 <= x[k] <= 0x1_0000
      invariant forall k :: j <= k < 64 ==> x[k] == x0[k]
      invariant ByteValue(x[..]) == v - carry * ByteValue(l[..j])
    {
      ghost var s := x[..];
      CarryTerm(carry, l[j]);
      AddBackStep(s, j, carry, l);
      x[j] := x[j] - carry * l[j];
      assert x[..] == s[j := s[j] - carry * l[j]];
      j := j + 1;
    }
    assert l[..32] == l;
  }

  lemma CarryTerm(c: int, d: int)
    requires -64 <= c <= 64 && 0 <= d < 256
    ensures -0x8000 <= c * d <= 0x8000
  {
    MulMono(c, 64, d);
    MulMono(-64, c, d);
  }

  lemma AddBackStep(s: seq<int>, j: nat, c: int, l: seq<int>)
    requires |s| == 64 && j < 32 && |l| == 32
    ensures ByteValue(s[j := s[j] - c * l[j]]) == ByteValue(s) - c * ByteValue(l[..j + 1]) + c * ByteValue(l[..j])
  {
    var p := Pow(256, j);
    ValueUpdate(256, s, j, s[j] - c * l[j]);
    ValueSnoc(256, l, j);
    MulAdd(ByteValue(l[..j]), p * l[j], c);
    assert c * (p * l[j]) == (c * l[j]) * p by { MulAssoc(c, l[j], p); }
    MulSub(0, c * l[j], p);
  }

  /** The last loop: bytes of x modulo 2^256. */
  method EmitBytes(x: array<i64>) returns (r: array<Byte>)
    requires x.Length == 64
    requires forall k :: 0 <= k < 32 ==> -0x1_0000 <= x[k] <= 0x1_0000
    requires forall k :: 32 <= k < 64 ==> x[k] == 0
    modifies x
    ensures fresh(r) && r.Length == 32
    ensures ByteValue(r[..]) == old(ByteValue(x[..])) % R256
  {
    ghost var v := ByteValue(x[..]);
    r := new Byte[32](_ => 0);
    EmitStart(x[..], r[..]);
    hide Pow, Value, ByteValue;
    var i := 0;
    while i < 32
      invariant 0 <= i <= 32 && fresh(r) && r.Length == 32
      invariant -0x2_0000 <= x[i] <= 0x2_0000
      invariant forall k :: i < k < 32 ==> -0x1_0000 <= x[k] <= 0x1_0000
      invariant forall k :: i < k < 64 && 32 <= k ==> x[k] == 0
      invariant ByteValue(r[..][..i] + x[..][i..]) == v
    {
      ghost var s, b := x[..], r[..];
      EmitStep(s, b, i);
      x[i + 1] := x[i + 1] + x[i] / 256;
      r[i] := x[i] % 256;
      assert x[..][i + 1..] == s[i + 1 := s[i + 1] + s[i] / 256][i + 1..];
      assert r[..][..i + 1] == b[..i] + [s[i] % 256];
      i := i + 1;
    }
    EmitEnd(r[..], x[..], v);
  }

  lemma EmitStart(x: seq<int>, r: seq<int>)
    ensures ByteValue(r[..0] + x[0..]) == ByteValue(x)
  {
    assert r[..0] + x[0..] == x;
  }

  lemma EmitStep(s: seq<int>, b: seq<int>, i: nat)
    requires |s| == 64 && |b| == 32 && i < 32
    ensures ByteValue(b[..i] + [s[i] % 256] + s[i + 1 := s[i + 1] + s[i] / 256][i + 1..]) == ByteValue(b[..i] + s[i..])
  {
    var t, t' := s[i..], [s[i] % 256] + s[i + 1 := s[i + 1] + s[i] / 256][i + 1..];
    ValueConcat(256, b[..i], t);
    ValueConcat(256, b[..i], t');
    assert b[..i] + [s[i] % 256] + s[i + 1 := s[i + 1] + s[i] / 256][i + 1..] == b[..i] + t';
    assert t'[1..] == t[1..][0 := t[1] + s[i] / 256];
    ValueUpdate(256, t[1..], 0, t[1] + s[i] / 256);
    assert Pow(256, 0) == 1;
  }

  lemma EmitEnd(r: seq<int>, x: seq<int>, v: int)
    requires |r| == 32 && |x| == 64 && Digits(256, r)
    requires forall k :: 32 < k < 64 ==> x[k] == 0
    requires ByteValue(r[..32] + x[32..]) == v
    ensures ByteValue(r) == v % R256
  {
    assert r[..32] == r;
    ValueConcat(256, r, x[32..]);
    ByteWeights();
    ValueZero(256, x[32..][1..]);
    assert ByteValue(x[32..]) == x[32];
    DigitsBound(256, r);
    DivModUnique(v, R256, x[32], ByteValue(r));
  }

  /** Why one quotient estimate and one add-back suffice: with limbs in [-129, 128] the estimate
      x[31] >> 4 is off by at most one. */
  lemma QuotientEstimate(x: seq<int>, carry: int, w: int)
    requires |x| == 64
    requires forall k :: 0 <= k < 32 ==> -129 <= x[k] <= 128
    requires forall k :: 32 <= k < 64 ==> x[k] == 0
    requires w == ByteValue(x) - (x[31] / 16) * ORDER - carry * R256 && 0 <= w < R256
    ensures (w - carry * ORDER) % R256 == ByteValue(x) % ORDER
  {
    TopLimb(x);
    EstimateOffByOne(ByteValue(x), ByteValue(x[..31]), x[31], carry, w);
    var q := x[31] / 16 + carry;
    DivModUnique(ByteValue(x), ORDER, q, ByteValue(x) - q * ORDER);
    DivModUnique(w - carry * ORDER, R256, -carry, ByteValue(x) - q * ORDER);
  }

  lemma EstimateOffByOne(v: int, rest: int, top: int, carry: int, w: int)
    requires v == rest + R248 * top && -129 <= top <= 128
    requires -129 * R248 <= 255 * rest <= 129 * R248
    requires w == v - (top / 16) * ORDER - carry * R256 && 0 <= w < R256
    ensures 0 <= v - (top / 16 + carry) * ORDER < ORDER
    ensures w - carry * ORDER == -carry * R256 + (v - (top / 16 + carry) * ORDER)
  {
    assert -1 <= carry <= 0;
  }

  const R248: int := 0x100_0000_0000_0000_0000_0000_0000_0000_0000_0000_0000_0000_0000_0000_0000_0000

  /** The limbs below limb 31 add up to little more than half of its weight. */
  lemma TopLimb(x: seq<int>)
    requires |x| == 64
    requires forall k :: 0 <= k < 32 ==> -129 <= x[k] <= 128
    requires forall k :: 32 <= k < 64 ==> x[k] == 0
    ensures ByteValue(x) == ByteValue(x[..31]) + R248 * x[31]
    ensures -129 * R248 <= 255 * ByteValue(x[..31]) <= 129 * R248
  {
    ValueSplit(256, x, 32);
    ValueZero(256, x[32..]);
    ValueSnoc(256, x, 31);
    ByteWeights();
    MagnitudeBound(256, x[..31], 129);
  }

  /** modL: for all limbs of magnitude up to 2^21, the 32 bytes of x modulo the group order. */
  method ModL(x: array<i64>) returns (r: array<Byte>)
    requires x.Length == 64
    requires forall k :: 0 <= k < 64 ==> -B0 <= x[k] <= B0
    modifies x
    ensures fresh(r) && r.Length == 32
    ensures ByteValue(r[..]) == old(ByteValue(x[..])) % ORDER
  {
    ghost var v := ByteValue(x[..]);
    TableValue();
    EliminateHigh(x, TABLE);
    ghost var s := x[..];
    CongMod(ByteValue(s), v, ORDER);
    ShapeFinal(s);
    var carry := SubtractQuotient(x, TABLE);
    ghost var w := ByteValue(x[..]);
    BytesBelow(x[..]);
    ByteWeights();
    QuotientEstimate(s, carry, w);
    AddBack(x, TABLE, carry);
    r := EmitBytes(x);
  }

  lemma ShapeFinal(x: seq<int>)
    requires Shape(x, 31)
    ensures forall k :: 0 <= k < 32 ==> -129 <= x[k] <= 128
    ensures forall k :: 32 <= k < 64 ==> x[k] == 0
  {}

  lemma BytesBelow(x: seq<int>)
    requires |x| == 64
    requires forall k :: 0 <= k < 32 ==> 0 <= x[k] < 256
    requires forall k :: 32 <= k < 64 ==> x[k] == 0
    ensures 0 <= ByteValue(x) < R256
  {
    hide Value, Pow;
    ValueSplit(256, x, 32);
    ValueZero(256, x[32..]);
    DigitsBound(256, x[..32]);
    ByteWeights();
  }

  /** reduce: the 64 bytes of r become r modulo the group order, zero-extended. */
  method Reduce(r: array<Byte>)
    requires r.Length == 64
    modifies r
    ensures ByteValue(r[..32]) == old(ByteValue(r[..])) % ORDER
    ensures forall k :: 32 <= k < 64 ==> r[k] == 0
  {
    var x := new i64[64](_ => 0);
    var i := 0;
    while i < 64
      invariant 0 <= i <= 64 && x.Length == 64 && r[..] == old(r[..])
      invariant forall k :: 0 <= k < i ==> x[k] == r[k]
    {
      x[i] := r[i];
      i := i + 1;
    }
    assert x[..] == r[..];
    i := 0;
    while i < 64
      invariant 0 <= i <= 64
      invariant x[..] == old(r[..])
      invariant forall k :: 0 <= k < i ==> r[k] == 0
    {
      r[i] := 0;
      i := i + 1;
    }
    assert forall k :: 0 <= k < 64 ==> x[k] == x[..][k];
    var b := ModL(x);
    ghost var b0 := b[..];
    i := 0;
    while i < 32
      invariant 0 <= i <= 32 && b[..] == b0
      invariant forall k :: 0 <= k < i ==> r[k] == b[k]
      invariant forall k :: 32 <= k < 64 ==> r[k] == 0
    {
      r[i] := b[i];
      i := i + 1;
    }
    assert r[..32] == b[..];
  }

  /** The scalar of a signature: the 32 bytes of r + h d modulo the group order. */
  method SignScalar(r: array<Byte>, h: array<Byte>, d: array<Byte>) returns (s: array<Byte>)
    requires r.Length == 64 && h.Length == 64 && d.Length == 64
    ensures s.Length == 32
    ensures ByteValue(s[..]) == (ByteValue(r[..32]) + ByteValue(h[..32]) * ByteValue(d[..32])) % ORDER
  {
    var x := new i64[64](_ => 0);
    var i := 0;
    while i < 32
      invariant 0 <= i <= 32 && x.Length == 64
      invariant forall k :: 0 <= k < i ==> x[k] == r[k]
      invariant forall k :: i <= k < 64 ==> x[k] == 0
    {
      x[i] := r[i];
      i := i + 1;
    }
    hide ByteValue;
    ghost var h0, d0 := h[..32], d[..32];
    SignStart(x[..], r[..32]);
    NoDigits(h0, ByteValue(d0));
    i := 0;
    while i < 32
      invariant 0 <= i <= 32 && x.Length == 64
      invariant forall k :: 0 <= k < 64 ==> 0 <= x[k] <= 255 + 65025 * i
      invariant ByteValue(x[..]) == ByteValue(r[..32]) + ByteValue(h0[..i]) * ByteValue(d0)
    {
      SignRow(x, i, h[i], d);
      SignRowValue(h0, i, ByteValue(d0));
      i := i + 1;
    }
    assert h0[..32] == h0;
    s := ModL(x);
  }

  /** One row of the product in crypto_sign: a times the bytes of d, at weight i. */
  method SignRow(x: array<i64>, i: nat, a: Byte, d: array<Byte>)
    requires x.Length == 64 && d.Length == 64 && i < 32
    requires forall k :: 0 <= k < 64 ==> 0 <= x[k] <= 255 + 65025 * i
    modifies x
    ensures forall k :: 0 <= k < 64 ==> 0 <= x[k] <= 255 + 65025 * (i + 1)
    ensures ByteValue(x[..]) == old(ByteValue(x[..])) + a as int * Pow(256, i) * ByteValue(d[..32])
  {
    hide Pow;
    var j := 0;
    ghost var base, d0 := ByteValue(x[..]), d[..32];
    NoDigits(d0, a as int * Pow(256, i));
    while j < 32
      invariant 0 <= j <= 32 && x.Length == 64
      invariant forall k :: i <= k < i + j ==> 0 <= x[k] <= 255 + 65025 * (i + 1)
      invariant forall k :: 0 <= k < i || i + j <= k < 64 ==> 0 <= x[k] <= 255 + 65025 * i
      invariant ByteValue(x[..]) == base + a as int * Pow(256, i) * ByteValue(d0[..j])
    {
      ghost var t := x[..];
      ConvolutionStep(256, t, i, j, a, d0);
      ByteProduct(a, d[j]);
      var term: i64 := a as int * d[j] as int;
      x[i + j] := x[i + j] + term;
      assert x[..] == t[i + j := t[i + j] + a as int * d0[j]];
      j := j + 1;
    }
    assert d0[..32] == d0;
  }

  lemma NoDigits(s: seq<int>, w: int)
    ensures ByteValue(s[..0]) == 0 && ByteValue(s[..0]) * w == 0 && w * ByteValue(s[..0]) == 0
  {}

  lemma SignRowValue(h: seq<int>, i: nat, d: int)
    requires i < |h|
    ensures ByteValue(h[..i]) * d + h[i] * Pow(256, i) * d == ByteValue(h[..i + 1]) * d
  {
    ConvolutionRow(256, h, i, d);
  }

  lemma ByteProduct(a: int, b: int)
    requires 0 <= a < 256 && 0 <= b < 256
    ensures 0 <= a * b <= 65025
  {
    MulMono(a, 255, b);
    MulMono(0, a, b);
  }

  lemma SignStart(x: seq<int>, r: seq<int>)
    requires |x| == 64 && |r| == 32
    requires forall k :: 0 <= k < 32 ==> x[k] == r[k]
    requires forall k :: 32 <= k < 64 ==> x[k] == 0
    ensures ByteValue(x) == ByteValue(r)
  {
    assert x[..32] == r;
    ValueSplit(256, x, 32);
    ValueZero(256, x[32..]);
  }
}
