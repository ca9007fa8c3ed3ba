/** Words as sequences of bits, least significant first, with the operations of C on them. */
module Bits {
  import opened Radix

  function Binary(v: nat, n: nat): (s: seq<bool>)
    ensures |s| == n
  {
    if n == 0 then [] else [v % 2 == 1] + Binary(v / 2, n - 1)
  }

  function Unbinary(s: seq<bool>): nat {
    if |s| == 0 then 0 else (if s[0] then 1 else 0) + 2 * Unbinary(s[1..])
  }

  lemma {:induction false} BinaryRoundTrip(v: nat, n: nat)
    requires v < Pow(2, n)
    ensures Unbinary(Binary(v, n)) == v
  {
    if n > 0 {
      BinaryRoundTrip(v / 2, n - 1);
      assert Binary(v, n)[1..] == Binary(v / 2, n - 1);
    }
  }

  lemma {:induction false} UnbinaryRoundTrip(s: seq<bool>)
    ensures Unbinary(s) < Pow(2, |s|) && Binary(Unbinary(s), |s|) == s
  {
    if s != [] {
      UnbinaryRoundTrip(s[1..]);
      assert s == [s[0]] + s[1..];
    }
  }

  /** Bit i is worth 2^i. */
  lemma {:induction false} BinaryAt(v: nat, n: nat, i: nat)
    requires i < n
    ensures Binary(v, n)[i] <==> v / Pow(2, i) % 2 == 1
  {
    if i > 0 {
      BinaryAt(v / 2, n - 1, i - 1);
      DivDiv(v, Pow(2, i - 1));
    }
  }

  lemma DivDiv(v: nat, m: nat)
    requires m > 0
    ensures v / (2 * m) == v / 2 / m
  {
    var q, r := DivMod(v / 2, m);
    DivModUnique(v, 2 * m, q, 2 * r + v % 2);
  }

  function Not(p: seq<bool>): (r: seq<bool>)
    ensures |r| == |p|
  {
    seq(|p|, i requires 0 <= i < |p| => !p[i])
  }

  function And(p: seq<bool>, q: seq<bool>): (r: seq<bool>)
    requires |p| == |q|
    ensures |r| == |p|
  {
    seq(|p|, i requires 0 <= i < |p| => p[i] && q[i])
  }

  function Or(p: seq<bool>, q: seq<bool>): (r: seq<bool>)
    requires |p| == |q|
    ensures |r| == |p|
  {
    seq(|p|, i requires 0 <= i < |p| => p[i] || q[i])
  }

  function Xor(p: seq<bool>, q: seq<bool>): (r: seq<bool>)
    requires |p| == |q|
    ensures |r| == |p|
  {
    seq(|p|, i requires 0 <= i < |p| => p[i] != q[i])
  }

  /** p >> n and p << n */
  function ShiftRight(p: seq<bool>, n: nat): (r: seq<bool>)
    requires n <= |p|
    ensures |r| == |p|
  {
    p[n..] + seq(n, _ => false)
  }

  function ShiftLeft(p: seq<bool>, n: nat): (r: seq<bool>)
    requires n <= |p|
    ensures |r| == |p|
  {
    seq(n, _ => false) + p[..|p| - n]
  }

  /** (p >> n) | (p << (width - n)) */
  function RotateRight(p: seq<bool>, n: nat): (r: seq<bool>)
    requires n <= |p|
    ensures |r| == |p|
  {
    Or(ShiftRight(p, n), ShiftLeft(p, |p| - n))
  }

  lemma RotateAt(p: seq<bool>, n: nat, i: nat)
    requires n <= |p| && i < |p|
    ensures RotateRight(p, n)[i] == p[(i + n) % |p|]
  {
    if i + n < |p| { DivModUnique(i + n, |p|, 0, i + n); } else { DivModUnique(i + n, |p|, 1, i + n - |p|); }
  }

  lemma ShiftAt(p: seq<bool>, n: nat, i: nat)
    requires n <= |p| && i < |p|
    ensures ShiftRight(p, n)[i] == (i + n < |p| && p[i + n])
  {}
}
