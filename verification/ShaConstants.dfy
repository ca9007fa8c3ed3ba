/** Where the constants of the SHA-2 family come from (sections 4.2.2, 4.2.3, 5.3.3 and 5.3.5 of FIPS 180-4):
    the first bits of the fractional parts of the cube and square roots of the first primes. */
module ShaConstants {
  import opened Radix

  ghost predicate IsPrime(n: nat) { n >= 2 && forall d :: 2 <= d < n ==> n % d != 0 }

  const P0: seq<nat> := [2, 3, 5, 7, 11, 13, 17, 19, 23, 29, 31, 37, 41, 43, 47, 53]
  const P1: seq<nat> := [59, 61, 67, 71, 73, 79, 83, 89, 97, 101, 103, 107, 109, 113, 127, 131]
  const P2: seq<nat> := [137, 139, 149, 151, 157, 163, 167, 173, 179, 181, 191, 193, 197, 199, 211, 223]
  const P3: seq<nat> := [227, 229, 233, 239, 241, 251, 257, 263, 269, 271, 277, 281, 283, 293, 307, 311]
  const P4: seq<nat> := [313, 317, 331, 337, 347, 349, 353, 359, 367, 373, 379, 383, 389, 397, 401, 409]

  const PRIMES: seq<nat> := P0 + P1 + P2 + P3 + P4

  const TWO32: nat := 0x1_0000_0000
  const TWO96: nat := 0x1_0000_0000_0000_0000_0000_0000
  const TWO128: nat := 0x1_0000_0000_0000_0000_0000_0000_0000_0000
  const TWO192: nat := 0x1_0000_0000_0000_0000_0000_0000_0000_0000_0000_0000_0000_0000

  ghost predicate CubeRoot(x: nat, n: nat) { n * n * n <= x < (n + 1) * (n + 1) * (n + 1) }
  ghost predicate SquareRoot(x: nat, n: nat) { n * n <= x < (n + 1) * (n + 1) }

  lemma {:induction false} CubeRootExists(x: nat)
    ensures exists n: nat :: CubeRoot(x, n)
  {
    if x == 0 {
      assert CubeRoot(0, 0);
    } else {
      CubeRootExists(x - 1);
      var n: nat :| CubeRoot(x - 1, n);
      if (n + 1) * (n + 1) * (n + 1) <= x {
        CubeGrows(n + 1);
        assert CubeRoot(x, n + 1);
      } else {
        assert CubeRoot(x, n);
      }
    }
  }

  lemma {:induction false} SquareRootExists(x: nat)
    ensures exists n: nat :: SquareRoot(x, n)
  {
    if x == 0 {
      assert SquareRoot(0, 0);
    } else {
      SquareRootExists(x - 1);
      var n: nat :| SquareRoot(x - 1, n);
      assert SquareRoot(x, n) || SquareRoot(x, n + 1);
    }
  }

  lemma CubeGrows(n: nat)
    ensures (n + 1) * (n + 1) * (n + 1) > n * n * n
  {
    MulMono(n * n, (n + 1) * (n + 1), n + 1);
    MulAdd(n, 1, n * n);
  }

  lemma CubeMono(m: nat, n: nat)
    requires m <= n
    ensures m * m * m <= n * n * n && m * m <= n * n
  {
    MulMono(m, n, m);
    MulMono(m, n, n);
    MulMono(m * m, n * n, m);
    MulMono(m, n, n * n);
  }

  /** The cube root of x, and the square root, without their fractional parts. */
  ghost function CubeRootOf(x: nat): (n: nat)
    ensures CubeRoot(x, n)
  {
    CubeRootExists(x);
    var n: nat :| CubeRoot(x, n);
    n
  }

  ghost function SquareRootOf(x: nat): (n: nat)
    ensures SquareRoot(x, n)
  {
    SquareRootExists(x);
    var n: nat :| SquareRoot(x, n);
    n
  }

  lemma CubeRootIs(x: nat, n: nat)
    requires CubeRoot(x, n)
    ensures CubeRootOf(x) == n
  {
    var r := CubeRootOf(x);
    if r < n { CubeMono(r + 1, n); }
    if n < r { CubeMono(n + 1, r); }
  }

  lemma SquareRootIs(x: nat, n: nat)
    requires SquareRoot(x, n)
    ensures SquareRootOf(x) == n
  {
    var r := SquareRootOf(x);
    if r < n { CubeMono(r + 1, n); }
    if n < r { CubeMono(n + 1, r); }
  }

  /** A number below 529 is prime exactly when it is one of the first eight primes or has none of them as a
      divisor. */
  predicate Sieved(n: nat) {
    || n == 2 || n == 3 || n == 5 || n == 7 || n == 11 || n == 13 || n == 17 || n == 19
    || (n >= 2 && n % 2 != 0 && n % 3 != 0 && n % 5 != 0 && n % 7 != 0 && n % 11 != 0 && n % 13 != 0 && n % 17 != 0 && n % 19 != 0)
  }

  lemma SieveIsPrime(n: nat)
    requires n < 529
    ensures IsPrime(n) <==> Sieved(n)
  {
    if Sieved(n) {
      forall d | 2 <= d < n ensures n % d != 0 {
        if n % d == 0 { NoDivisor(n, d); }
      }
    } else if n >= 2 {
      SomeDivisor(n);
    }
  }

  lemma SomeDivisor(n: nat)
    requires 2 <= n && !Sieved(n)
    ensures exists d :: 2 <= d < n && n % d == 0
  {
    var d := if n % 2 == 0 then 2 else if n % 3 == 0 then 3 else if n % 5 == 0 then 5 else if n % 7 == 0 then 7
             else if n % 11 == 0 then 11 else if n % 13 == 0 then 13 else if n % 17 == 0 then 17 else 19;
    assert n % d == 0 && d <= n;
    assert d != n;
  }

  lemma NoDivisor(n: nat, d: nat)
    requires n < 529 && 2 <= d < n && n % d == 0
    ensures !Sieved(n)
  {
    hide Sieved;
    var e := n / d;
    Quotient(n, d);
    if d < 23 { SmallFactor(d, e); } else { SmallFactor(e, d); }
  }

  lemma Quotient(n: nat, d: nat)
    requires n < 529 && 2 <= d < n && n % d == 0
    ensures var e := n / d; n == d * e && n == e * d && e >= 2 && (d < 23 || e < 23)
  {
    var e, r := DivMod(n, d);
    if d >= 23 && e >= 23 { MulMono(23, d, 23); MulMono(23, e, d); }
    if e <= 1 { MulMono(e, 1, d); }
  }

  lemma SmallFactor(f: nat, g: nat)
    requires 2 <= f < 23 && g >= 2
    ensures !Sieved(f * g)
  {
    var p := if f % 2 == 0 then 2 else if f % 3 == 0 then 3 else f;
    assert p in {2, 3, 5, 7, 11, 13, 17, 19};
    var h := f / p;
    assert f == p * h && h >= 1;
    MulMono(1, h, g);
    assert f * g == h * g * p;
    Divided(h * g, p);
  }

  lemma Divided(k: nat, p: nat)
    requires p in {2, 3, 5, 7, 11, 13, 17, 19} && k >= 2
    ensures !Sieved(k * p)
  {
    MultipleMod(k, p);
    MulMono(2, k, p);
  }

  /** q is the next prime after p. */
  ghost predicate NextPrime(p: nat, q: nat) {
    p < q && IsPrime(q) && forall n :: p < n < q ==> !IsPrime(n)
  }

  predicate NoneBetween(p: nat, q: nat)
    decreases q - p
  {
    p + 1 < q ==> !Sieved(p + 1) && NoneBetween(p + 1, q)
  }

  lemma {:induction false} NextSieved(p: nat, q: nat)
    requires p < q < 529 && Sieved(q) && NoneBetween(p, q)
    ensures NextPrime(p, q)
  {
    SieveIsPrime(q);
    forall n | p < n < q ensures !IsPrime(n) {
      SieveIsPrime(n);
      Between(p, q, n);
    }
  }

  lemma {:induction false} Between(p: nat, q: nat, n: nat)
    requires p < n < q && NoneBetween(p, q)
    ensures !Sieved(n)
    decreases q - p
  {
    if n > p + 1 { Between(p + 1, q, n); }
  }

  lemma Ascend0()
    ensures NextPrime(2, 3) && NextPrime(3, 5) && NextPrime(5, 7) && NextPrime(7, 11)
    ensures NextPrime(11, 13) && NextPrime(13, 17) && NextPrime(17, 19) && NextPrime(19, 23)
  {
    hide NextPrime;
    NextSieved(2, 3); NextSieved(3, 5); NextSieved(5, 7); NextSieved(7, 11);
    NextSieved(11, 13); NextSieved(13, 17); NextSieved(17, 19); NextSieved(19, 23);
  }

  lemma Ascend1()
    ensures NextPrime(23, 29) && NextPrime(29, 31) && NextPrime(31, 37) && NextPrime(37, 41)
    ensures NextPrime(41, 43) && NextPrime(43, 47) && NextPrime(47, 53) && NextPrime(53, 59)
  {
    hide NextPrime;
    NextSieved(23, 29); NextSieved(29, 31); NextSieved(31, 37); NextSieved(37, 41);
    NextSieved(41, 43); NextSieved(43, 47); NextSieved(47, 53); NextSieved(53, 59);
  }

  lemma Ascend2()
    ensures NextPrime(59, 61) && NextPrime(61, 67) && NextPrime(67, 71) && NextPrime(71, 73)
    ensures NextPrime(73, 79) && NextPrime(79, 83) && NextPrime(83, 89) && NextPrime(89, 97)
  {
    hide NextPrime;
    NextSieved(59, 61); NextSieved(61, 67); NextSieved(67, 71); NextSieved(71, 73);
    NextSieved(73, 79); NextSieved(79, 83); NextSieved(83, 89); NextSieved(89, 97);
  }

  lemma Ascend3()
    ensures NextPrime(97, 101) && NextPrime(101, 103) && NextPrime(103, 107) && NextPrime(107, 109)
    ensures NextPrime(109, 113) && NextPrime(113, 127) && NextPrime(127, 131) && NextPrime(131, 137)
  {
    hide NextPrime;
    NextSieved(97, 101); NextSieved(101, 103); NextSieved(103, 107); NextSieved(107, 109);
    NextSieved(109, 113); NextSieved(113, 127); NextSieved(127, 131); NextSieved(131, 137);
  }

  lemma Ascend4()
    ensures NextPrime(137, 139) && NextPrime(139, 149) && NextPrime(149, 151) && NextPrime(151, 157)
    ensures NextPrime(157, 163) && NextPrime(163, 167) && NextPrime(167, 173) && NextPrime(173, 179)
  {
    hide NextPrime;
    NextSieved(137, 139); NextSieved(139, 149); NextSieved(149, 151); NextSieved(151, 157);
    NextSieved(157, 163); NextSieved(163, 167); NextSieved(167, 173); NextSieved(173, 179);
  }

  lemma Ascend5()
    ensures NextPrime(179, 181) && NextPrime(181, 191) && NextPrime(191, 193) && NextPrime(193, 197)
    ensures NextPrime(197, 199) && NextPrime(199, 211) && NextPrime(211, 223) && NextPrime(223, 227)
  {
    hide NextPrime;
    NextSieved(179, 181); NextSieved(181, 191); NextSieved(191, 193); NextSieved(193, 197);
    NextSieved(197, 199); NextSieved(199, 211); NextSieved(211, 223); NextSieved(223, 227);
  }

  lemma Ascend6()
    ensures NextPrime(227, 229) && NextPrime(229, 233) && NextPrime(233, 239) && NextPrime(239, 241)
    ensures NextPrime(241, 251) && NextPrime(251, 257) && NextPrime(257, 263) && NextPrime(263, 269)
  {
    hide NextPrime;
    NextSieved(227, 229); NextSieved(229, 233); NextSieved(233, 239); NextSieved(239, 241);
    NextSieved(241, 251); NextSieved(251, 257); NextSieved(257, 263); NextSieved(263, 269);
  }

  lemma Ascend7()
    ensures NextPrime(269, 271) && NextPrime(271, 277) && NextPrime(277, 281) && NextPrime(281, 283)
    ensures NextPrime(283, 293) && NextPrime(293, 307) && NextPrime(307, 311) && NextPrime(311, 313)
  {
    hide NextPrime;
    NextSieved(269, 271); NextSieved(271, 277); NextSieved(277, 281); NextSieved(281, 283);
    NextSieved(283, 293); NextSieved(293, 307); NextSieved(307, 311); NextSieved(311, 313);
  }

  lemma Ascend8()
    ensures NextPrime(313, 317) && NextPrime(317, 331) && NextPrime(331, 337) && NextPrime(337, 347)
    ensures NextPrime(347, 349) && NextPrime(349, 353) && NextPrime(353, 359) && NextPrime(359, 367)
  {
    hide NextPrime;
    NextSieved(313, 317); NextSieved(317, 331); NextSieved(331, 337); NextSieved(337, 347);
    NextSieved(347, 349); NextSieved(349, 353); NextSieved(353, 359); NextSieved(359, 367);
  }

  lemma Ascend9()
    ensures NextPrime(367, 373) && NextPrime(373, 379) && NextPrime(379, 383) && NextPrime(383, 389)
    ensures NextPrime(389, 397) && NextPrime(397, 401) && NextPrime(401, 409)
  {
    hide NextPrime;
    NextSieved(367, 373); NextSieved(373, 379); NextSieved(379, 383); NextSieved(383, 389);
    NextSieved(389, 397); NextSieved(397, 401); NextSieved(401, 409);
  }

  /** PRIMES lists the first eighty primes. */
  lemma PrimesListed()
    ensures |PRIMES| == 80 && PRIMES[0] == 2 && IsPrime(2)
    ensures forall t :: 0 <= t < 79 ==> NextPrime(PRIMES[t], PRIMES[t + 1])
  {
    hide NextPrime;
    Row0();
    Row1();
    Row2();
    Row3();
    Row4();
    assert P0[0] == 2;
    hide P0, P1, P2, P3, P4;
  }

  lemma RowLengths()
    ensures |P0| == |P1| == |P2| == |P3| == |P4| == 16
  {}

  lemma FirstPrimes()
    ensures PRIMES[0] == 2 && PRIMES[1] == 3 && PRIMES[2] == 5 && PRIMES[3] == 7
    ensures PRIMES[4] == 11 && PRIMES[5] == 13 && PRIMES[6] == 17 && PRIMES[7] == 19
  {}

  ghost predicate Ascends(ps: seq<nat>) { forall t :: 0 <= t < |ps| - 1 ==> NextPrime(ps[t], ps[t + 1]) }

  lemma Row0()
    ensures |P0| == 16 && Ascends(P0)
    ensures NextPrime(P0[15], P1[0])
  {
    hide NextPrime;
    Ascend0();
    Ascend1();
  }

  lemma Row1()
    ensures |P1| == 16 && Ascends(P1)
    ensures NextPrime(P1[15], P2[0])
  {
    hide NextPrime;
    Ascend2();
    Ascend3();
  }

  lemma Row2()
    ensures |P2| == 16 && Ascends(P2)
    ensures NextPrime(P2[15], P3[0])
  {
    hide NextPrime;
    Ascend4();
    Ascend5();
  }

  lemma Row3()
    ensures |P3| == 16 && Ascends(P3)
    ensures NextPrime(P3[15], P4[0])
  {
    hide NextPrime;
    Ascend6();
    Ascend7();
  }

  lemma Row4()
    ensures |P4| == 16 && Ascends(P4)
  {
    hide NextPrime;
    Ascend8();
    Ascend9();
  }

  /** The constants of SHA-512: 64 bits of the fractional parts of the cube roots of the first eighty
      primes, and of the square roots of the first eight. */
  ghost function Round64(t: nat): (k: nat)
    requires t < 80
    ensures k < TWO64
  {
    CubeRootOf(PRIMES[t] * TWO192) % TWO64
  }

  ghost function Initial64(i: nat): (k: nat)
    requires i < 8
    ensures k < TWO64
  {
    SquareRootOf(PRIMES[i] * TWO128) % TWO64
  }

  /** Those of SHA-256: 32 bits, and 64 primes. */
  ghost function Round32(t: nat): (k: nat)
    requires t < 64
    ensures k < TWO32
  {
    CubeRootOf(PRIMES[t] * TWO96) % TWO32
  }

  ghost function Initial32(i: nat): (k: nat)
    requires i < 8
    ensures k < TWO32
  {
    SquareRootOf(PRIMES[i] * TWO64) % TWO32
  }

  /** Each of ks is what is left of the cube root of its number, scaled, modulo m. */
  ghost predicate CubeRoots(ps: seq<nat>, scale: nat, m: nat, ks: seq<int>) {
    m > 0 && |ks| == |ps| && forall t :: 0 <= t < |ps| ==> ks[t] == CubeRootOf(ps[t] * scale) % m
  }

  lemma CubeRootsJoin(ps: seq<nat>, qs: seq<nat>, scale: nat, m: nat, ks: seq<int>, ls: seq<int>)
    requires CubeRoots(ps, scale, m, ks) && CubeRoots(qs, scale, m, ls)
    ensures CubeRoots(ps + qs, scale, m, ks + ls)
  {}

  /** A cube root whose whole part is w and whose fraction begins with k. */
  lemma CubeFraction(p: nat, w: nat, k: nat)
    requires k < TWO64 && CubeRoot(p * TWO192, w * TWO64 + k)
    ensures CubeRootOf(p * TWO192) % TWO64 == k
  {
    CubeRootIs(p * TWO192, w * TWO64 + k);
  }

  lemma CubeFraction32(p: nat, w: nat, k: nat)
    requires k < TWO32 && CubeRoot(p * TWO96, w * TWO32 + k)
    ensures CubeRootOf(p * TWO96) % TWO32 == k
  {
    CubeRootIs(p * TWO96, w * TWO32 + k);
  }

  lemma SquareFraction(p: nat, w: nat, k: nat)
    requires k < TWO64 && SquareRoot(p * TWO128, w * TWO64 + k)
    ensures SquareRootOf(p * TWO128) % TWO64 == k
  {
    SquareRootIs(p * TWO128, w * TWO64 + k);
  }

  lemma SquareFraction32(p: nat, w: nat, k: nat)
    requires k < TWO32 && SquareRoot(p * TWO64, w * TWO32 + k)
    ensures SquareRootOf(p * TWO64) % TWO32 == k
  {
    SquareRootIs(p * TWO64, w * TWO32 + k);
  }
}
