/** Positional numerals: the integer that a little-endian sequence of (possibly
    out-of-range, possibly negative) digits stands for in a given base. */
module Radix {

  function Pow(b: int, n: nat): (r: int)
    ensures b > 0 ==> r > 0
  {
    if n == 0 then 1 else b * Pow(b, n - 1)
  }

  function Value(b: int, s: seq<int>): int
  {
    if |s| == 0 then 0 else s[0] + b * Value(b, s[1..])
  }

  /** The value of a little-endian byte string. */
  ghost function ByteValue(s: seq<int>): int { Value(256, s) }

  const TWO64: int := 0x1_0000_0000_0000_0000
  const R256: int := 0x1_0000_0000_0000_0000_0000_0000_0000_0000_0000_0000_0000_0000_0000_0000_0000_0000

  lemma Pow2_64()
    ensures Pow(2, 64) == TWO64
  {
    PowAdd(2, 8, 8);
    PowAdd(2, 16, 16);
    PowAdd(2, 32, 32);
    assert Pow(2, 8) == 256;
  }

  /** Every digit lies in [0, b). */
  predicate Digits(b: int, s: seq<int>) {
    forall i :: 0 <= i < |s| ==> 0 <= s[i] < b
  }

  lemma MulAssoc(a: int, b: int, c: int)
    ensures a * (b * c) == (a * b) * c
  {}

  lemma MulMono(a: int, b: int, c: int)
    requires a <= b && c >= 0
    ensures a * c <= b * c && c * a <= c * b
  {}

  lemma MulSub(a: int, b: int, c: int)
    ensures (a - b) * c == a * c - b * c && c * (a - b) == c * a - c * b
  {}

  lemma MulAdd(a: int, b: int, c: int)
    ensures (a + b) * c == a * c + b * c && c * (a + b) == c * a + c * b
  {}

  lemma {:induction false} PowAdd(b: int, m: nat, n: nat)
    ensures Pow(b, m + n) == Pow(b, m) * Pow(b, n)
  {
    if m == 0 {
    } else {
      PowAdd(b, m - 1, n);
      MulAssoc(b, Pow(b, m - 1), Pow(b, n));
    }
  }

  /** Changing one digit changes the value by the difference times its weight. */
  lemma {:induction false} ValueUpdate(b: int, s: seq<int>, i: nat, x: int)
    requires i < |s|
    ensures Value(b, s[i := x]) == Value(b, s) + (x - s[i]) * Pow(b, i)
  {
    if i == 0 {
      assert s[0 := x][1..] == s[1..];
    } else {
      ValueUpdate(b, s[1..], i - 1, x);
      assert s[i := x][1..] == s[1..][i - 1 := x];
      var d, p := x - s[i], Pow(b, i - 1);
      assert b * (d * p) == d * (b * p);
      assert b * (Value(b, s[1..]) + d * p) == b * Value(b, s[1..]) + b * (d * p);
    }
  }

  /** Adding c times one digit string to another, digit by digit. */
  lemma {:induction false} ValueCombine(b: int, s: seq<int>, t: seq<int>, c: int, r: seq<int>)
    requires |s| == |t| == |r| && forall i :: 0 <= i < |s| ==> r[i] == s[i] + c * t[i]
    ensures Value(b, r) == Value(b, s) + c * Value(b, t)
  {
    if |s| > 0 {
      ValueCombine(b, s[1..], t[1..], c, r[1..]);
      CombineStep(b, s[0], t[0], c, Value(b, s[1..]), Value(b, t[1..]));
    }
  }

  lemma CombineStep(b: int, s: int, t: int, c: int, x: int, y: int)
    ensures s + c * t + b * (x + c * y) == s + b * x + c * (t + b * y)
  {
    assert b * (x + c * y) == b * x + b * (c * y);
    assert c * (t + b * y) == c * t + c * (b * y);
    assert b * (c * y) == c * (b * y);
  }

  lemma {:induction false} ValueConcat(b: int, s: seq<int>, t: seq<int>)
    ensures Value(b, s + t) == Value(b, s) + Pow(b, |s|) * Value(b, t)
  {
    if |s| == 0 {
      assert s + t == t;
    } else {
      ValueConcat(b, s[1..], t);
      assert (s + t)[1..] == s[1..] + t;
      HornerStep(b, s[0], Value(b, s[1..]), Pow(b, |s| - 1), Value(b, t));
    }
  }

  lemma HornerStep(b: int, d: int, u: int, p: int, v: int)
    ensures d + b * (u + p * v) == d + b * u + (b * p) * v
  {
    MulAdd(u, p * v, b);
    MulAssoc(b, p, v);
  }

  lemma ValueSplit(b: int, s: seq<int>, k: nat)
    requires k <= |s|
    ensures Value(b, s) == Value(b, s[..k]) + Pow(b, k) * Value(b, s[k..])
  {
    ValueConcat(b, s[..k], s[k..]);
    assert s == s[..k] + s[k..];
  }

  lemma ValueSnoc(b: int, s: seq<int>, k: nat)
    requires k < |s|
    ensures Value(b, s[..k + 1]) == Value(b, s[..k]) + Pow(b, k) * s[k]
  {
    assert s[..k + 1] == s[..k] + [s[k]];
    ValueConcat(b, s[..k], [s[k]]);
    assert Value(b, [s[k]]) == s[k] + b * Value(b, []);
  }

  lemma {:induction false} ValueZero(b: int, s: seq<int>)
    requires forall i :: 0 <= i < |s| ==> s[i] == 0
    ensures Value(b, s) == 0
  {
    if |s| > 0 {
      ValueZero(b, s[1..]);
    }
  }

  lemma {:induction false} DigitsBound(b: int, s: seq<int>)
    requires b > 0 && Digits(b, s)
    ensures 0 <= Value(b, s) < Pow(b, |s|)
  {
    if |s| > 0 {
      DigitsBound(b, s[1..]);
      DigitsStep(b, s[0], Value(b, s[1..]), Pow(b, |s| - 1));
    }
  }

  lemma DigitsStep(b: int, d: int, v: int, p: int)
    requires 0 <= d < b && 0 <= v < p
    ensures 0 <= d + b * v < b * p
  {
    MulMono(v, p - 1, b);
    MulMono(0, v, b);
    MulSub(p, 1, b);
  }

  /** Limbs of magnitude at most m: the value is below m * b^n (b at least 2). */
  lemma {:induction false} MagnitudeBound(b: int, s: seq<int>, m: int)
    requires b >= 2 && m >= 0
    requires forall i :: 0 <= i < |s| ==> -m <= s[i] <= m
    ensures -(m * (Pow(b, |s|) - 1)) <= (b - 1) * Value(b, s) <= m * (Pow(b, |s|) - 1)
  {
    if |s| > 0 {
      MagnitudeBound(b, s[1..], m);
      MagnitudeStep(b, m, s[0], Value(b, s[1..]), Pow(b, |s| - 1));
    }
  }

  lemma MagnitudeStep(b: int, m: int, d: int, v: int, p: int)
    requires b >= 2 && m >= 0 && -m <= d <= m
    requires -(m * (p - 1)) <= (b - 1) * v <= m * (p - 1)
    ensures -(m * (b * p - 1)) <= (b - 1) * (d + b * v) <= m * (b * p - 1)
  {
    MagnitudeHalf(b, m, d, v, p);
    MulNeg(b - 1, v);
    MagnitudeHalf(b, m, -d, -v, p);
    MulNeg(b, v);
    MulNeg(b - 1, d + b * v);
  }

  lemma MulNeg(a: int, b: int)
    ensures a * (-b) == -(a * b)
  {}

  lemma MagnitudeHalf(b: int, m: int, d: int, v: int, p: int)
    requires b >= 2 && m >= 0 && d <= m
    requires (b - 1) * v <= m * (p - 1)
    ensures (b - 1) * (d + b * v) <= m * (b * p - 1)
  {
    calc {
      (b - 1) * (d + b * v);
    ==  { MulAdd(d, b * v, b - 1); }
      (b - 1) * d + (b - 1) * (b * v);
    ==  { MulAssoc(b - 1, b, v); MulAssoc(b, b - 1, v); }
      (b - 1) * d + b * ((b - 1) * v);
    <=  { MulMono(d, m, b - 1); MulMono((b - 1) * v, m * (p - 1), b); }
      (b - 1) * m + b * (m * (p - 1));
    ==  { MulAssoc(b, m, p - 1); MulAssoc(m, b, p - 1); MulSub(p, 1, b); }
      (b - 1) * m + m * (b * p - b);
    ==  { MulAdd(b - 1, b * p - b, m); }
      m * (b * p - 1);
    }
  }

  /** In-range digit strings of equal length and equal value are equal. */
  lemma {:induction false} DigitsUnique(b: int, s: seq<int>, t: seq<int>)
    requires b > 0 && Digits(b, s) && Digits(b, t) && |s| == |t|
    requires Value(b, s) == Value(b, t)
    ensures s == t
  {
    if |s| > 0 {
      DivModUnique(Value(b, s), b, Value(b, s[1..]), s[0]);
      DivModUnique(Value(b, t), b, Value(b, t[1..]), t[0]);
      DigitsUnique(b, s[1..], t[1..]);
      assert s == [s[0]] + s[1..] && t == [t[0]] + t[1..];
    }
  }

  /** One cell of a schoolbook product: adding x b[j] at weight i + j. */
  lemma ConvolutionStep(r: int, t: seq<int>, i: nat, j: nat, x: int, b: seq<int>)
    requires i + j < |t| && j < |b|
    ensures Value(r, t[i + j := t[i + j] + x * b[j]])
         == Value(r, t) - x * Pow(r, i) * Value(r, b[..j]) + x * Pow(r, i) * Value(r, b[..j + 1])
  {
    var p, q := Pow(r, i), Pow(r, j);
    ValueUpdate(r, t, i + j, t[i + j] + x * b[j]);
    ValueSnoc(r, b, j);
    MulAdd(Value(r, b[..j]), q * b[j], x * p);
    assert (x * b[j]) * Pow(r, i + j) == (x * p) * (q * b[j]) by {
      PowAdd(r, i, j);
      MulRegroup(x, p, q, b[j]);
    }
  }

  lemma MulRegroup(w: int, a: int, b: int, d: int)
    ensures (w * d) * (a * b) == (w * a) * (b * d)
  {
    MulAssoc(w, a, b * d);
    MulAssoc(a, b, d);
    MulAssoc(w, d, a * b);
  }

  /** A finished row of a schoolbook product. */
  lemma ConvolutionRow(r: int, a: seq<int>, i: nat, w: int)
    requires i < |a|
    ensures Value(r, a[..i]) * w + a[i] * Pow(r, i) * w == Value(r, a[..i + 1]) * w
  {
    ValueSnoc(r, a, i);
    MulAdd(Value(r, a[..i]), Pow(r, i) * a[i], w);
  }

  /** Congruence modulo m, with the quotient as witness. */
  ghost predicate Cong(x: int, y: int, m: int)
    requires m != 0
  {
    (x - y) % m == 0
  }

  lemma CongFromMultiple(x: int, y: int, m: int, k: int)
    requires m > 0 && x == y + k * m
    ensures Cong(x, y, m)
  {
    MultipleMod(k, m);
  }

  lemma CongQuotient(x: int, y: int, m: int) returns (k: int)
    requires m > 0 && Cong(x, y, m)
    ensures x == y + k * m
  {
    k := (x - y) / m;
  }

  lemma MultipleMod(k: int, m: int)
    requires m > 0
    ensures (k * m) % m == 0
  {
    DivModUnique(k * m, m, k, 0);
  }

  /** Euclidean division is determined by its defining equation. */
  lemma DivModUnique(x: int, m: int, q: int, r: int)
    requires m > 0 && x == q * m + r && 0 <= r < m
    ensures x / m == q && x % m == r
  {
    var q', r' := DivMod(x, m);
    MulSub(q, q', m);
    if q > q' { MulMono(1, q - q', m); }
    if q < q' { MulMono(1, q' - q, m); MulSub(q', q, m); }
  }

  lemma DivMod(x: int, m: int) returns (q: int, r: int)
    requires m > 0
    ensures q == x / m && r == x % m && x == q * m + r && 0 <= r < m
  {
    q, r := x / m, x % m;
  }

  lemma CongMul(x: int, x': int, y: int, y': int, m: int)
    requires m > 0 && Cong(x, x', m) && Cong(y, y', m)
    ensures Cong(x * y, x' * y', m)
  {
    var k := CongQuotient(x, x', m);
    var l := CongQuotient(y, y', m);
    var q := k * y + x' * l;
    assert x * y == x' * y + (k * m) * y;
    assert x' * y == x' * y' + x' * (l * m);
    assert (k * m) * y + x' * (l * m) == q * m;
    CongFromMultiple(x * y, x' * y', m, q);
  }

  lemma CongTrans(x: int, y: int, z: int, m: int)
    requires m > 0 && Cong(x, y, m) && Cong(y, z, m)
    ensures Cong(x, z, m)
  {
    var k := CongQuotient(x, y, m);
    var l := CongQuotient(y, z, m);
    assert k * m + l * m == (k + l) * m;
    CongFromMultiple(x, z, m, k + l);
  }

  /** Congruence is equality of the least residues. */
  lemma CongMod(x: int, y: int, m: int)
    requires m > 0
    ensures Cong(x, y, m) <==> x % m == y % m
  {
    if Cong(x, y, m) {
      var k := CongQuotient(x, y, m);
      assert x == (k + y / m) * m + y % m;
      DivModUnique(x, m, k + y / m, y % m);
    }
    if x % m == y % m {
      var k := x / m - y / m;
      assert x == y + k * m;
      CongFromMultiple(x, y, m, k);
    }
  }
}
