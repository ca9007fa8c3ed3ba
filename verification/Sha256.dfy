/** SHA-256: the compression function as section 6.2.2 of FIPS 180-4 defines it, and the streaming
    implementation of kernel/crypto/sha256.c. */
module Sha256 {
  import opened Basics
  import opened Radix
  import opened Bits
  import opened ShaConstants
  import opened ShaPadding

  type Word = x: int | 0 <= x < 0x1_0000_0000

  /** The bits of a word, and the word of 32 bits. */
  function ToBits(x: Word): (b: seq<bool>)
    ensures |b| == 32
  {
    Binary(x, 32)
  }

  function FromBits(b: seq<bool>): (x: Word)
    requires |b| == 32
    ensures ToBits(x) == b
  {
    UnbinaryRoundTrip(b);
    assert Pow(2, 32) == TWO32 by { PowAdd(2, 8, 8); PowAdd(2, 16, 16); assert Pow(2, 8) == 256; }
    Unbinary(b)
  }

  /** Addition modulo 2^32. */
  function Plus(x: Word, y: Word): Word { (x as int + y as int) % TWO32 }

  lemma PlusWraps(x: Word, y: Word)
    ensures Plus(x, y) == if x + y < 0x1_0000_0000 then x + y else x + y - 0x1_0000_0000
  {}

  function Ch(x: Word, y: Word, z: Word): Word {
    var p := ToBits(x);
    FromBits(Xor(And(p, ToBits(y)), And(Not(p), ToBits(z))))
  }

  function Maj(x: Word, y: Word, z: Word): Word {
    var p, q, r := ToBits(x), ToBits(y), ToBits(z);
    FromBits(Xor(Xor(And(p, q), And(p, r)), And(q, r)))
  }

  function BigSigma0(x: Word): Word {
    var p := ToBits(x);
    FromBits(Xor(Xor(RotateRight(p, 2), RotateRight(p, 13)), RotateRight(p, 22)))
  }

  function BigSigma1(x: Word): Word {
    var p := ToBits(x);
    FromBits(Xor(Xor(RotateRight(p, 6), RotateRight(p, 11)), RotateRight(p, 25)))
  }

  function SmallSigma0(x: Word): Word {
    var p := ToBits(x);
    FromBits(Xor(Xor(RotateRight(p, 7), RotateRight(p, 18)), ShiftRight(p, 3)))
  }

  function SmallSigma1(x: Word): Word {
    var p := ToBits(x);
    FromBits(Xor(Xor(RotateRight(p, 17), RotateRight(p, 19)), ShiftRight(p, 10)))
  }

  /** Bit i of a word. */
  predicate Bit(x: Word, i: nat)
    requires i < 32
  {
    x / Pow(2, i) % 2 == 1
  }

  lemma BitIs(x: Word, i: nat)
    requires i < 32
    ensures Bit(x, i) <==> ToBits(x)[i]
  {
    BinaryAt(x, 32, i);
  }

  /** Ch chooses between y and z, bit by bit, and Maj takes the majority. */
  lemma ChooseMajority(x: Word, y: Word, z: Word, i: nat)
    requires i < 32
    ensures Bit(Ch(x, y, z), i) == if Bit(x, i) then Bit(y, i) else Bit(z, i)
    ensures Bit(Maj(x, y, z), i) <==> (Bit(x, i) && Bit(y, i)) || (Bit(y, i) && Bit(z, i)) || (Bit(x, i) && Bit(z, i))
  {
    hide Bit, ToBits, FromBits;
    BitIs(x, i);
    BitIs(y, i);
    BitIs(z, i);
    BitIs(Ch(x, y, z), i);
    BitIs(Maj(x, y, z), i);
  }

  /** An odd number of the three. */
  predicate Odd(a: bool, b: bool, c: bool) { (a != b) != c }

  /** The four functions of section 4.1.2 of FIPS 180-4, bit by bit; a bit shifted in is zero. */
  lemma Sigmas(x: Word, i: nat)
    requires i < 32
    ensures Bit(BigSigma0(x), i) == Odd(Bit(x, (i + 2) % 32), Bit(x, (i + 13) % 32), Bit(x, (i + 22) % 32))
    ensures Bit(BigSigma1(x), i) == Odd(Bit(x, (i + 6) % 32), Bit(x, (i + 11) % 32), Bit(x, (i + 25) % 32))
    ensures Bit(SmallSigma0(x), i) == Odd(Bit(x, (i + 7) % 32), Bit(x, (i + 18) % 32), i + 3 < 32 && Bit(x, i + 3))
    ensures Bit(SmallSigma1(x), i) == Odd(Bit(x, (i + 17) % 32), Bit(x, (i + 19) % 32), i + 10 < 32 && Bit(x, i + 10))
  {
    hide Bit, ToBits, FromBits, RotateRight, ShiftRight;
    forall n: nat, j: nat | n <= 32 && j < 32 ensures RotateRight(ToBits(x), n)[j] == Bit(x, (j + n) % 32) {
      RotateAt(ToBits(x), n, j);
      BitIs(x, (j + n) % 32);
    }
    forall n: nat | n <= 32 ensures ShiftRight(ToBits(x), n)[i] == (i + n < 32 && Bit(x, i + n)) {
      ShiftAt(ToBits(x), n, i);
      if i + n < 32 { BitIs(x, i + n); }
    }
    BitIs(BigSigma0(x), i);
    BitIs(BigSigma1(x), i);
    BitIs(SmallSigma0(x), i);
    BitIs(SmallSigma1(x), i);
  }

  ghost function Constant(t: nat): Word
    requires t < 64
  {
    Round32(t)
  }

  /** The eight working variables. */
  datatype Hash = Hash(a: Word, b: Word, c: Word, d: Word, e: Word, f: Word, g: Word, h: Word)

  /** A big-endian word. */
  function WordAt(s: seq<Byte>, i: nat): Word
    requires i + 4 <= |s|
  {
    0x100_0000 * s[i] as int + 0x1_0000 * s[i + 1] as int + 0x100 * s[i + 2] as int + s[i + 3] as int
  }

  /** The bytes of a word, most significant first. */
  function WordBytes(w: Word): (s: seq<Byte>)
    ensures |s| == 4
  {
    LengthField(w, 4)
  }

  /** Reading the word that was written. */
  lemma WordRoundTrip(w: Word)
    ensures WordAt(WordBytes(w), 0) == w
  {
    hide LengthField;
    var s := WordBytes(w);
    ShiftFour(w);
    NumberOfBytes(w, 4, 4);
    assert Number(s, 0, 2) == 256 * Number(s, 0, 1) + s[1];
    assert Number(s, 0, 4) == 256 * Number(s, 0, 3) + s[3];
    assert Shift(w, 0) == w;
  }

  /** The message schedule. */
  function Schedule(block: seq<Byte>, t: nat): Word
    requires |block| == 64
  {
    if t < 16 then WordAt(block, 4 * t)
    else NextWord(Schedule(block, t - 2), Schedule(block, t - 7), Schedule(block, t - 15), Schedule(block, t - 16))
  }

  /** A schedule word from those 2, 7, 15 and 16 places before it. */
  function NextWord(w2: Word, w7: Word, w15: Word, w16: Word): Word {
    Plus(Plus(Plus(SmallSigma1(w2), w7), SmallSigma0(w15)), w16)
  }

  lemma NextWordIs(w2: Word, w7: Word, w15: Word, w16: Word)
    ensures NextWord(w2, w7, w15, w16) == Plus(Plus(Plus(SmallSigma1(w2), w7), SmallSigma0(w15)), w16)
  {}

  lemma ScheduleStep(block: seq<Byte>, t: nat)
    requires |block| == 64
    ensures t < 16 ==> Schedule(block, t) == WordAt(block, 4 * t)
    ensures t >= 16 ==>
              Schedule(block, t) == NextWord(Schedule(block, t - 2), Schedule(block, t - 7), Schedule(block, t - 15), Schedule(block, t - 16))
  {
    hide WordAt, NextWord;
  }

  function Round(s: Hash, k: Word, w: Word): Hash {
    var t1 := Plus(Plus(Plus(Plus(s.h, BigSigma1(s.e)), Ch(s.e, s.f, s.g)), k), w);
    var t2 := Plus(BigSigma0(s.a), Maj(s.a, s.b, s.c));
    Hash(Plus(t1, t2), s.a, s.b, s.c, Plus(s.d, t1), s.e, s.f, s.g)
  }

  ghost function Rounds(s: Hash, block: seq<Byte>, n: nat): Hash
    requires |block| == 64 && n <= 64
  {
    if n == 0 then s else Round(Rounds(s, block, n - 1), Constant(n - 1), Schedule(block, n - 1))
  }

  function Sum(s: Hash, r: Hash): Hash {
    Hash(Plus(s.a, r.a), Plus(s.b, r.b), Plus(s.c, r.c), Plus(s.d, r.d),
         Plus(s.e, r.e), Plus(s.f, r.f), Plus(s.g, r.g), Plus(s.h, r.h))
  }

  ghost function Compress(s: Hash, block: seq<Byte>): Hash
    requires |block| == 64
  {
    Sum(s, Rounds(s, block, 64))
  }

  ghost function IV(): Hash {
    Hash(Initial32(0), Initial32(1), Initial32(2), Initial32(3), Initial32(4), Initial32(5), Initial32(6), Initial32(7))
  }

  // The round constants of kernel/crypto/sha256.c.
  const K0: seq<Word> := [
    0x428a2f98, 0x71374491, 0xb5c0fbcf, 0xe9b5dba5, 0x3956c25b, 0x59f111f1, 0x923f82a4, 0xab1c5ed5,
    0xd807aa98, 0x12835b01, 0x243185be, 0x550c7dc3, 0x72be5d74, 0x80deb1fe, 0x9bdc06a7, 0xc19bf174
  ]
  const K1: seq<Word> := [
    0xe49b69c1, 0xefbe4786, 0x0fc19dc6, 0x240ca1cc, 0x2de92c6f, 0x4a7484aa, 0x5cb0a9dc, 0x76f988da,
    0x983e5152, 0xa831c66d, 0xb00327c8, 0xbf597fc7, 0xc6e00bf3, 0xd5a79147, 0x06ca6351, 0x14292967
  ]
  const K2: seq<Word> := [
    0x27b70a85, 0x2e1b2138, 0x4d2c6dfc, 0x53380d13, 0x650a7354, 0x766a0abb, 0x81c2c92e, 0x92722c85,
    0xa2bfe8a1, 0xa81a664b, 0xc24b8b70, 0xc76c51a3, 0xd192e819, 0xd6990624, 0xf40e3585, 0x106aa070
  ]
  const K3: seq<Word> := [
    0x19a4c116, 0x1e376c08, 0x2748774c, 0x34b0bcb5, 0x391c0cb3, 0x4ed8aa4a, 0x5b9cca4f, 0x682e6ff3,
    0x748f82ee, 0x78a5636f, 0x84c87814, 0x8cc70208, 0x90befffa, 0xa4506ceb, 0xbef9a3f7, 0xc67178f2
  ]
  const K: seq<Word> := K0 + K1 + K2 + K3

  lemma Row0()
    ensures CubeRoots(P0, TWO96, TWO32, K0)
  {
    hide CubeRootOf;
    CubeFraction32(2, 1, 0x428a2f98); CubeFraction32(3, 1, 0x71374491); CubeFraction32(5, 1, 0xb5c0fbcf);
    CubeFraction32(7, 1, 0xe9b5dba5); CubeFraction32(11, 2, 0x3956c25b); CubeFraction32(13, 2, 0x59f111f1);
    CubeFraction32(17, 2, 0x923f82a4); CubeFraction32(19, 2, 0xab1c5ed5); CubeFraction32(23, 2, 0xd807aa98);
    CubeFraction32(29, 3, 0x12835b01); CubeFraction32(31, 3, 0x243185be); CubeFraction32(37, 3, 0x550c7dc3);
    CubeFraction32(41, 3, 0x72be5d74); CubeFraction32(43, 3, 0x80deb1fe); CubeFraction32(47, 3, 0x9bdc06a7);
    CubeFraction32(53, 3, 0xc19bf174);
  }

  lemma Row1()
    ensures CubeRoots(P1, TWO96, TWO32, K1)
  {
    hide CubeRootOf;
    CubeFraction32(59, 3, 0xe49b69c1); CubeFraction32(61, 3, 0xefbe4786); CubeFraction32(67, 4, 0x0fc19dc6);
    CubeFraction32(71, 4, 0x240ca1cc); CubeFraction32(73, 4, 0x2de92c6f); CubeFraction32(79, 4, 0x4a7484aa);
    CubeFraction32(83, 4, 0x5cb0a9dc); CubeFraction32(89, 4, 0x76f988da); CubeFraction32(97, 4, 0x983e5152);
    CubeFraction32(101, 4, 0xa831c66d); CubeFraction32(103, 4, 0xb00327c8); CubeFraction32(107, 4, 0xbf597fc7);
    CubeFraction32(109, 4, 0xc6e00bf3); CubeFraction32(113, 4, 0xd5a79147); CubeFraction32(127, 5, 0x06ca6351);
    CubeFraction32(131, 5, 0x14292967);
  }

  lemma Row2()
    ensures CubeRoots(P2, TWO96, TWO32, K2)
  {
    hide CubeRootOf;
    CubeFraction32(137, 5, 0x27b70a85); CubeFraction32(139, 5, 0x2e1b2138); CubeFraction32(149, 5, 0x4d2c6dfc);
    CubeFraction32(151, 5, 0x53380d13); CubeFraction32(157, 5, 0x650a7354); CubeFraction32(163, 5, 0x766a0abb);
    CubeFraction32(167, 5, 0x81c2c92e); CubeFraction32(173, 5, 0x92722c85); CubeFraction32(179, 5, 0xa2bfe8a1);
    CubeFraction32(181, 5, 0xa81a664b); CubeFraction32(191, 5, 0xc24b8b70); CubeFraction32(193, 5, 0xc76c51a3);
    CubeFraction32(197, 5, 0xd192e819); CubeFraction32(199, 5, 0xd6990624); CubeFraction32(211, 5, 0xf40e3585);
    CubeFraction32(223, 6, 0x106aa070);
  }

  lemma Row3()
    ensures CubeRoots(P3, TWO96, TWO32, K3)
  {
    hide CubeRootOf;
    CubeFraction32(227, 6, 0x19a4c116); CubeFraction32(229, 6, 0x1e376c08); CubeFraction32(233, 6, 0x2748774c);
    CubeFraction32(239, 6, 0x34b0bcb5); CubeFraction32(241, 6, 0x391c0cb3); CubeFraction32(251, 6, 0x4ed8aa4a);
    CubeFraction32(257, 6, 0x5b9cca4f); CubeFraction32(263, 6, 0x682e6ff3); CubeFraction32(269, 6, 0x748f82ee);
    CubeFraction32(271, 6, 0x78a5636f); CubeFraction32(277, 6, 0x84c87814); CubeFraction32(281, 6, 0x8cc70208);
    CubeFraction32(283, 6, 0x90befffa); CubeFraction32(293, 6, 0xa4506ceb); CubeFraction32(307, 6, 0xbef9a3f7);
    CubeFraction32(311, 6, 0xc67178f2);
  }

  /** The table holds the constants of the standard. */
  lemma TableRight(t: nat)
    requires t < 64
    ensures |K| == 64 && K[t] == Constant(t)
  {
    hide CubeRoots;
    Row0();
    Row1();
    Row2();
    Row3();
    CubeRootsJoin(P0, P1, TWO96, TWO32, K0, K1);
    CubeRootsJoin(P0 + P1, P2, TWO96, TWO32, K0 + K1, K2);
    CubeRootsJoin(P0 + P1 + P2, P3, TWO96, TWO32, K0 + K1 + K2, K3);
    TableAt(t);
  }

  lemma TableAt(t: nat)
    requires t < 64 && CubeRoots(P0 + P1 + P2 + P3, TWO96, TWO32, K)
    ensures |K| == 64 && K[t] == Constant(t)
  {
    hide CubeRootOf, K, P0, P1, P2, P3, P4;
    RowLengths();
  }

  /** The initial hash value, and that it is the standard's. */
  const START: Hash := Hash(0x6a09e667, 0xbb67ae85, 0x3c6ef372, 0xa54ff53a, 0x510e527f, 0x9b05688c, 0x1f83d9ab, 0x5be0cd19)

  lemma StartRight()
    ensures START == IV()
  {
    hide SquareRootOf, PRIMES;
    FirstPrimes();
    SquareFraction32(2, 1, 0x6a09e667);
    SquareFraction32(3, 1, 0xbb67ae85);
    SquareFraction32(5, 2, 0x3c6ef372);
    SquareFraction32(7, 2, 0xa54ff53a);
    SquareFraction32(11, 3, 0x510e527f);
    SquareFraction32(13, 3, 0x9b05688c);
    SquareFraction32(17, 4, 0x1f83d9ab);
    SquareFraction32(19, 4, 0x5be0cd19);
  }

  /** The whole blocks of s folded into a hash value. */
  ghost function Absorb(s: Hash, bytes: seq<Byte>): Hash
    decreases |bytes|
  {
    if |bytes| < 64 then s else Absorb(Compress(s, bytes[..64]), bytes[64..])
  }

  function Words(s: Hash): (r: seq<Word>)
    ensures |r| == 8
  {
    [s.a, s.b, s.c, s.d, s.e, s.f, s.g, s.h]
  }

  /** Byte i of the digest is byte i mod 4 of word i / 4. */
  function Digest(s: Hash): (r: seq<Byte>)
    ensures |r| == 32
  {
    seq(32, i requires 0 <= i < 32 => WordBytes(Words(s)[i / 4])[i % 4])
  }

  lemma {:induction false} AbsorbConcat(s: Hash, p: seq<Byte>, q: seq<Byte>)
    requires |p| % 64 == 0
    ensures Absorb(s, p + q) == Absorb(Absorb(s, p), q)
    decreases |p|
  {
    hide Compress;
    if |p| == 0 {
      assert p + q == q;
    } else {
      assert (p + q)[..64] == p[..64] && (p + q)[64..] == p[64..] + q;
      AbsorbConcat(Compress(s, p[..64]), p[64..], q);
    }
  }

  lemma AbsorbBlock(s: Hash, block: seq<Byte>)
    requires |block| == 64
    ensures Absorb(s, block) == Compress(s, block)
  {
    hide Compress;
    assert block[..64] == block && block[64..] == [];
  }

  /** sha256_transform's schedule. */
  method Expand(data: seq<Byte>) returns (m: seq<Word>)
    requires |data| == 64
    ensures |m| == 64 && forall k :: 0 <= k < 64 ==> m[k] == Schedule(data, k)
  {
    hide WordAt, NextWord, Schedule, Plus, SmallSigma0, SmallSigma1;
    m := [];
    for i := 0 to 16
      invariant |m| == i && forall k :: 0 <= k < i ==> m[k] == Schedule(data, k)
    {
      ScheduleStep(data, i);
      m := m + [WordAt(data, 4 * i)];
    }
    for i := 16 to 64
      invariant |m| == i && forall k :: 0 <= k < i ==> m[k] == Schedule(data, k)
    {
      ScheduleStep(data, i);
      NextWordIs(m[i - 2], m[i - 7], m[i - 15], m[i - 16]);
      m := m + [Plus(Plus(Plus(SmallSigma1(m[i - 2]), m[i - 7]), SmallSigma0(m[i - 15])), m[i - 16])];
    }
  }

  method Transform(state: Hash, data: seq<Byte>) returns (r: Hash)
    requires |data| == 64
    ensures r == Compress(state, data)
  {
    hide Constant, Schedule, Round, K, Plus;
    var m := Expand(data);
    var s := state;
    for i := 0 to 64
      invariant s == Rounds(state, data, i)
    {
      TableRight(i);
      s := Step(s, K[i], m[i]);
    }
    r := Hash(Plus(state.a, s.a), Plus(state.b, s.b), Plus(state.c, s.c), Plus(state.d, s.d),
              Plus(state.e, s.e), Plus(state.f, s.f), Plus(state.g, s.g), Plus(state.h, s.h));
  }

  /** One round of sha256_transform on its eight variables. */
  method Step(s: Hash, k: Word, w: Word) returns (r: Hash)
    ensures r == Round(s, k, w)
  {
    hide BigSigma0, BigSigma1, Ch, Maj, Plus;
    var a, b, c, d := s.a, s.b, s.c, s.d;
    var e, f, g, h := s.e, s.f, s.g, s.h;
    var t1 := Plus(Plus(Plus(Plus(h, BigSigma1(e)), Ch(e, f, g)), k), w);
    var t2 := Plus(BigSigma0(a), Maj(a, b, c));
    h := g;
    g := f;
    f := e;
    e := Plus(d, t1);
    d := c;
    c := b;
    b := a;
    a := Plus(t1, t2);
    r := Hash(a, b, c, d, e, f, g, h);
  }

  /** The state once a tail too long for the length has been padded into a block of its own. */
  ghost function Carried(s: Hash, tail: seq<Byte>): Hash
    requires |tail| < 64
  {
    if |tail| < 56 then s else Compress(s, tail + [MARK] + Zeros(63 - |tail|))
  }

  /** What the last block holds before the length. */
  function Front(tail: seq<Byte>): (r: seq<Byte>)
    requires |tail| < 64
    ensures |r| == 56
  {
    if |tail| < 56 then tail + [MARK] + Zeros(55 - |tail|) else Zeros(56)
  }

  class Context {
    const data: array<Byte>
    var datalen: nat
    var bitlen: nat
    var state: Hash
    ghost var absorbed: seq<Byte>

    ghost predicate Valid()
      reads this, data
    {
      && data.Length == 64 && datalen == |absorbed| % 64
      && data[..datalen] == Tail(absorbed, 64)
      && state == Absorb(IV(), Whole(absorbed, 64))
      && bitlen == (8 * (|absorbed| - datalen)) % WRAP
    }

    /** sha256_init */
    constructor ()
      ensures Valid() && absorbed == [] && fresh(data)
    {
      hide IV, Absorb, Whole, Tail;
      data := new Byte[64];
      datalen, bitlen := 0, 0;
      StartRight();
      state := START;
      absorbed := [];
      new;
      NothingYet();
    }

    /** One byte of sha256_update. */
    method Add(b: Byte)
      requires Valid()
      modifies this, data
      ensures Valid() && absorbed == old(absorbed) + [b]
    {
      hide Compress, Absorb, IV, Whole, Tail;
      ghost var was := absorbed;
      absorbed := absorbed + [b];
      Put(b);
      if datalen == 64 {
        assert data[..] == data[..datalen];
        FilledBlock(was, b);
        LengthWraps(|was| + 1, 64);
        state := Transform(state, data[..]);
        bitlen := (bitlen + 512) % WRAP;
        datalen := 0;
      } else {
        ByteGrows(was, b, 64);
      }
    }

    method Put(b: Byte)
      requires datalen < data.Length == 64
      modifies data, this`datalen
      ensures datalen == old(datalen) + 1 && data[..datalen] == old(data[..datalen]) + [b]
    {
      data[datalen] := b;
      datalen := datalen + 1;
    }

    /** sha256_update, whose counter has 32 bits. */
    method Update(bytes: seq<Byte>)
      requires Valid() && |bytes| < TWO32
      modifies this, data
      ensures Valid() && absorbed == old(absorbed) + bytes
    {
      hide Absorb, IV;
      for i := 0 to |bytes|
        invariant Valid() && absorbed == old(absorbed) + bytes[..i]
      {
        Add(bytes[i]);
        assert bytes[..i + 1] == bytes[..i] + [bytes[i]];
      }
      assert bytes[..|bytes|] == bytes;
    }

    /** sha256_final: the fold of the compression function over the padded message, at every length. */
    method Final() returns (hash: seq<Byte>)
      requires Valid()
      modifies this, data
      ensures hash == Digest(Absorb(IV(), Pad(absorbed, 64, 8)))
      ensures absorbed == old(absorbed)
    {
      hide Absorb, Compress, Digest, LengthField, IV, Whole, Tail, Pad, Gap, Carried, Front;
      PadTail();
      LengthWraps(|absorbed|, datalen);
      bitlen := (bitlen + datalen * 8) % WRAP;
      PutLength();
      PaddedFold(absorbed);
      assert data[..] == data[..56] + LengthField(bitlen, 8);
      state := Transform(state, data[..]);
      hash := Emit(state);
    }

    /** The mark and zeros: up to byte 55, or through a block of their own when the tail is longer. */
    method PadTail()
      requires data.Length == 64 && datalen < 64
      modifies data, this`state
      ensures state == Carried(old(state), old(data[..datalen])) && data[..56] == Front(old(data[..datalen]))
    {
      hide Compress;
      ghost var tail := data[..datalen];
      if datalen < 56 {
        Mark(56);
      } else {
        Mark(64);
        assert data[..] == data[..64] == tail + [MARK] + Zeros(63 - |tail|);
        state := Transform(state, data[..]);
        for i := 0 to 56
          invariant state == Carried(old(state), tail)
          invariant forall k :: 0 <= k < i ==> data[k] == 0
        {
          data[i] := 0;
        }
        assert data[..56] == Zeros(56);
      }
    }

    method Mark(end: nat)
      requires data.Length == 64 && datalen < end <= 64
      modifies data
      ensures data[..end] == old(data[..datalen]) + [MARK] + Zeros(end - 1 - datalen)
    {
      var i := datalen;
      data[i] := MARK;
      i := i + 1;
      while i < end
        invariant datalen < i <= end && data[..datalen] == old(data[..datalen]) && data[datalen] == MARK
        invariant forall k :: datalen < k < i ==> data[k] == 0
      {
        data[i] := 0;
        i := i + 1;
      }
      assert forall k :: 0 <= k < datalen ==> data[k] == data[..datalen][k];
    }

    /** The length field. */
    method PutLength()
      requires data.Length == 64
      modifies data
      ensures data[..56] == old(data[..56]) && data[56..] == LengthField(bitlen, 8)
    {
      hide LengthByte;
      for i := 0 to 8
        invariant data[..56] == old(data[..56])
        invariant forall k :: 0 <= k < i ==> data[63 - k] == LengthByte(bitlen, k)
      {
        data[63 - i] := LengthByte(bitlen, i);
      }
      forall j | 0 <= j < 8 ensures data[56..][j] == LengthField(bitlen, 8)[j] {
        assert data[63 - (7 - j)] == LengthByte(bitlen, 7 - j);
      }
    }
  }

  /** The bytes of all words are written side by side, one place at a time. */
  method Emit(s: Hash) returns (hash: seq<Byte>)
    ensures hash == Digest(s)
  {
    hide WordBytes;
    var w := Words(s);
    var out := new Byte[32](i => 0);
    for i := 0 to 4
      invariant forall j :: 0 <= j < 32 && j % 4 < i ==> out[j] == WordBytes(w[j / 4])[j % 4]
    {
      for k := 0 to 8
        invariant forall j :: 0 <= j < 32 && (j % 4 < i || (j % 4 == i && j / 4 < k)) ==> out[j] == WordBytes(w[j / 4])[j % 4]
      {
        out[i + 4 * k] := WordBytes(w[k])[i];
      }
    }
    hash := out[..];
  }

  lemma NothingYet()
    ensures Absorb(IV(), Whole([], 64)) == IV() && Tail([], 64) == []
  {
    hide IV, Compress;
  }

  lemma FilledBlock(m: seq<Byte>, b: Byte)
    requires |m| % 64 == 63
    ensures |m + [b]| % 64 == 0 && Tail(m + [b], 64) == []
    ensures Absorb(IV(), Whole(m + [b], 64)) == Compress(Absorb(IV(), Whole(m, 64)), Tail(m, 64) + [b])
  {
    hide Compress, Absorb, IV;
    ByteFills(m, b, 64);
    AbsorbConcat(IV(), Whole(m, 64), Tail(m, 64) + [b]);
    AbsorbBlock(Absorb(IV(), Whole(m, 64)), Tail(m, 64) + [b]);
  }

  /** The padded message: whole blocks, the filled tail, and a last block that ends in the length. */
  lemma PaddedFold(m: seq<Byte>)
    ensures Absorb(IV(), Pad(m, 64, 8))
         == Compress(Carried(Absorb(IV(), Whole(m, 64)), Tail(m, 64)), Front(Tail(m, 64)) + LengthField((8 * |m|) % WRAP, 8))
  {
    hide Absorb, Compress, IV, LengthField, Pad, Whole;
    var tail, start := Tail(m, 64), Absorb(IV(), Whole(m, 64));
    FieldWraps(8 * |m|);
    var field := LengthField(8 * |m|, 8);
    var last := Front(tail) + field;
    PadParts(m);
    if |tail| < 56 {
      AbsorbConcat(IV(), Whole(m, 64), last);
      AbsorbBlock(start, last);
    } else {
      var filled := tail + [MARK] + Zeros(63 - |tail|);
      assert tail + [MARK] + Zeros(119 - |tail|) + field == filled + last;
      AbsorbConcat(IV(), Whole(m, 64), filled + last);
      AbsorbConcat(start, filled, last);
      AbsorbBlock(start, filled);
      AbsorbBlock(Compress(start, filled), last);
    }
  }

  lemma PadParts(m: seq<Byte>)
    ensures |Whole(m, 64)| % 64 == 0
    ensures Pad(m, 64, 8) == Whole(m, 64) +
              (Tail(m, 64) + [MARK] + Zeros(if |m| % 64 < 56 then 55 - |m| % 64 else 119 - |m| % 64) + LengthField(8 * |m|, 8))
  {
    hide LengthField;
    GapIs(|m|);
    assert m == Whole(m, 64) + Tail(m, 64);
  }

  lemma GapIs(n: nat)
    ensures Gap(n, 64, 8) == if n % 64 < 56 then 55 - n % 64 else 119 - n % 64
  {}

  lemma FieldWraps(bits: nat)
    ensures LengthField(bits % WRAP, 8) == LengthField(bits, 8)
  {
    hide LengthByte;
    forall j | 0 <= j < 8 ensures LengthField(bits % WRAP, 8)[j] == LengthField(bits, 8)[j] {
      LowBytes(bits, 7 - j);
    }
  }

  /** sha256 */
  method Sha256Hash(m: seq<Byte>) returns (hash: seq<Byte>)
    requires |m| < TWO32
    ensures hash == Digest(Absorb(IV(), Pad(m, 64, 8)))
  {
    hide Absorb, Digest, Pad, IV;
    var ctx := new Context();
    ctx.Update(m);
    assert ctx.absorbed == m;
    hash := ctx.Final();
  }
}
