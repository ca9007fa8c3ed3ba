/** The streaming SHA-512 of kernel/crypto/sha512.c. */
module Sha512 {
  import opened Basics
  import opened Sha512Core
  import opened Radix
  import opened ShaConstants
  import opened ShaPadding

  // The round constants.
  const K0: seq<Word> := [
    0x428a2f98d728ae22, 0x7137449123ef65cd, 0xb5c0fbcfec4d3b2f, 0xe9b5dba58189dbbc,
    0x3956c25bf348b538, 0x59f111f1b605d019, 0x923f82a4af194f9b, 0xab1c5ed5da6d8118,
    0xd807aa98a3030242, 0x12835b0145706fbe, 0x243185be4ee4b28c, 0x550c7dc3d5ffb4e2,
    0x72be5d74f27b896f, 0x80deb1fe3b1696b1, 0x9bdc06a725c71235, 0xc19bf174cf692694
  ]
  const K1: seq<Word> := [
    0xe49b69c19ef14ad2, 0xefbe4786384f25e3, 0x0fc19dc68b8cd5b5, 0x240ca1cc77ac9c65,
    0x2de92c6f592b0275, 0x4a7484aa6ea6e483, 0x5cb0a9dcbd41fbd4, 0x76f988da831153b5,
    0x983e5152ee66dfab, 0xa831c66d2db43210, 0xb00327c898fb213f, 0xbf597fc7beef0ee4,
    0xc6e00bf33da88fc2, 0xd5a79147930aa725, 0x06ca6351e003826f, 0x142929670a0e6e70
  ]
  const K2: seq<Word> := [
    0x27b70a8546d22ffc, 0x2e1b21385c26c926, 0x4d2c6dfc5ac42aed, 0x53380d139d95b3df,
    0x650a73548baf63de, 0x766a0abb3c77b2a8, 0x81c2c92e47edaee6, 0x92722c851482353b,
    0xa2bfe8a14cf10364, 0xa81a664bbc423001, 0xc24b8b70d0f89791, 0xc76c51a30654be30,
    0xd192e819d6ef5218, 0xd69906245565a910, 0xf40e35855771202a, 0x106aa07032bbd1b8
  ]
  const K3: seq<Word> := [
    0x19a4c116b8d2d0c8, 0x1e376c085141ab53, 0x2748774cdf8eeb99, 0x34b0bcb5e19b48a8,
    0x391c0cb3c5c95a63, 0x4ed8aa4ae3418acb, 0x5b9cca4f7763e373, 0x682e6ff3d6b2b8a3,
    0x748f82ee5defb2fc, 0x78a5636f43172f60, 0x84c87814a1f0ab72, 0x8cc702081a6439ec,
    0x90befffa23631e28, 0xa4506cebde82bde9, 0xbef9a3f7b2c67915, 0xc67178f2e372532b
  ]
  const K4: seq<Word> := [
    0xca273eceea26619c, 0xd186b8c721c0c207, 0xeada7dd6cde0eb1e, 0xf57d4f7fee6ed178,
    0x06f067aa72176fba, 0x0a637dc5a2c898a6, 0x113f9804bef90dae, 0x1b710b35131c471b,
    0x28db77f523047d84, 0x32caab7b40c72493, 0x3c9ebe0a15c9bebc, 0x431d67c49c100d4c,
    0x4cc5d4becb3e42b6, 0x597f299cfc657e2a, 0x5fcb6fab3ad6faec, 0x6c44198c4a475817
  ]
  const K: seq<Word> := K0 + K1 + K2 + K3 + K4

  lemma Row0()
    ensures CubeRoots(P0, TWO192, TWO64, K0)
  {
    hide CubeRootOf;
    CubeFraction(2, 1, 0x428a2f98d728ae22); CubeFraction(3, 1, 0x7137449123ef65cd);
    CubeFraction(5, 1, 0xb5c0fbcfec4d3b2f); CubeFraction(7, 1, 0xe9b5dba58189dbbc);
    CubeFraction(11, 2, 0x3956c25bf348b538); CubeFraction(13, 2, 0x59f111f1b605d019);
    CubeFraction(17, 2, 0x923f82a4af194f9b); CubeFraction(19, 2, 0xab1c5ed5da6d8118);
    CubeFraction(23, 2, 0xd807aa98a3030242); CubeFraction(29, 3, 0x12835b0145706fbe);
    CubeFraction(31, 3, 0x243185be4ee4b28c); CubeFraction(37, 3, 0x550c7dc3d5ffb4e2);
    CubeFraction(41, 3, 0x72be5d74f27b896f); CubeFraction(43, 3, 0x80deb1fe3b1696b1);
    CubeFraction(47, 3, 0x9bdc06a725c71235); CubeFraction(53, 3, 0xc19bf174cf692694);
  }

  lemma Row1()
    ensures CubeRoots(P1, TWO192, TWO64, K1)
  {
    hide CubeRootOf;
    CubeFraction(59, 3, 0xe49b69c19ef14ad2); CubeFraction(61, 3, 0xefbe4786384f25e3);
    CubeFraction(67, 4, 0x0fc19dc68b8cd5b5); CubeFraction(71, 4, 0x240ca1cc77ac9c65);
    CubeFraction(73, 4, 0x2de92c6f592b0275); CubeFraction(79, 4, 0x4a7484aa6ea6e483);
    CubeFraction(83, 4, 0x5cb0a9dcbd41fbd4); CubeFraction(89, 4, 0x76f988da831153b5);
    CubeFraction(97, 4, 0x983e5152ee66dfab); CubeFraction(101, 4, 0xa831c66d2db43210);
    CubeFraction(103, 4, 0xb00327c898fb213f); CubeFraction(107, 4, 0xbf597fc7beef0ee4);
    CubeFraction(109, 4, 0xc6e00bf33da88fc2); CubeFraction(113, 4, 0xd5a79147930aa725);
    CubeFraction(127, 5, 0x06ca6351e003826f); CubeFraction(131, 5, 0x142929670a0e6e70);
  }

  lemma Row2()
    ensures CubeRoots(P2, TWO192, TWO64, K2)
  {
    hide CubeRootOf;
    CubeFraction(137, 5, 0x27b70a8546d22ffc); CubeFraction(139, 5, 0x2e1b21385c26c926);
    CubeFraction(149, 5, 0x4d2c6dfc5ac42aed); CubeFraction(151, 5, 0x53380d139d95b3df);
    CubeFraction(157, 5, 0x650a73548baf63de); CubeFraction(163, 5, 0x766a0abb3c77b2a8);
    CubeFraction(167, 5, 0x81c2c92e47edaee6); CubeFraction(173, 5, 0x92722c851482353b);
    CubeFraction(179, 5, 0xa2bfe8a14cf10364); CubeFraction(181, 5, 0xa81a664bbc423001);
    CubeFraction(191, 5, 0xc24b8b70d0f89791); CubeFraction(193, 5, 0xc76c51a30654be30);
    CubeFraction(197, 5, 0xd192e819d6ef5218); CubeFraction(199, 5, 0xd69906245565a910);
    CubeFraction(211, 5, 0xf40e35855771202a); CubeFraction(223, 6, 0x106aa07032bbd1b8);
  }

  lemma Row3()
    ensures CubeRoots(P3, TWO192, TWO64, K3)
  {
    hide CubeRootOf;
    CubeFraction(227, 6, 0x19a4c116b8d2d0c8); CubeFraction(229, 6, 0x1e376c085141ab53);
    CubeFraction(233, 6, 0x2748774cdf8eeb99); CubeFraction(239, 6, 0x34b0bcb5e19b48a8);
    CubeFraction(241, 6, 0x391c0cb3c5c95a63); CubeFraction(251, 6, 0x4ed8aa4ae3418acb);
    CubeFraction(257, 6, 0x5b9cca4f7763e373); CubeFraction(263, 6, 0x682e6ff3d6b2b8a3);
    CubeFraction(269, 6, 0x748f82ee5defb2fc); CubeFraction(271, 6, 0x78a5636f43172f60);
    CubeFraction(277, 6, 0x84c87814a1f0ab72); CubeFraction(281, 6, 0x8cc702081a6439ec);
    CubeFraction(283, 6, 0x90befffa23631e28); CubeFraction(293, 6, 0xa4506cebde82bde9);
    CubeFraction(307, 6, 0xbef9a3f7b2c67915); CubeFraction(311, 6, 0xc67178f2e372532b);
  }

  lemma Row4()
    ensures CubeRoots(P4, TWO192, TWO64, K4)
  {
    hide CubeRootOf;
    CubeFraction(313, 6, 0xca273eceea26619c); CubeFraction(317, 6, 0xd186b8c721c0c207);
    CubeFraction(331, 6, 0xeada7dd6cde0eb1e); CubeFraction(337, 6, 0xf57d4f7fee6ed178);
    CubeFraction(347, 7, 0x06f067aa72176fba); CubeFraction(349, 7, 0x0a637dc5a2c898a6);
    CubeFraction(353, 7, 0x113f9804bef90dae); CubeFraction(359, 7, 0x1b710b35131c471b);
    CubeFraction(367, 7, 0x28db77f523047d84); CubeFraction(373, 7, 0x32caab7b40c72493);
    CubeFraction(379, 7, 0x3c9ebe0a15c9bebc); CubeFraction(383, 7, 0x431d67c49c100d4c);
    CubeFraction(389, 7, 0x4cc5d4becb3e42b6); CubeFraction(397, 7, 0x597f299cfc657e2a);
    CubeFraction(401, 7, 0x5fcb6fab3ad6faec); CubeFraction(409, 7, 0x6c44198c4a475817);
  }

  /** The table holds the constants of the standard. */
  lemma TableRight(t: nat)
    requires t < 80
    ensures |K| == 80 && K[t] == Constant(t)
  {
    hide CubeRoots;
    Row0();
    Row1();
    Row2();
    Row3();
    Row4();
    CubeRootsJoin(P0, P1, TWO192, TWO64, K0, K1);
    CubeRootsJoin(P0 + P1, P2, TWO192, TWO64, K0 + K1, K2);
    CubeRootsJoin(P0 + P1 + P2, P3, TWO192, TWO64, K0 + K1 + K2, K3);
    CubeRootsJoin(P0 + P1 + P2 + P3, P4, TWO192, TWO64, K0 + K1 + K2 + K3, K4);
    TableAt(t);
  }

  lemma TableAt(t: nat)
    requires t < 80 && CubeRoots(PRIMES, TWO192, TWO64, K)
    ensures |K| == 80 && K[t] == Constant(t)
  {
    hide CubeRootOf, PRIMES, K;
    PrimesListed();
  }

  /** The initial hash value, and that it is the standard's. */
  const START: Hash := Hash(0x6a09e667f3bcc908, 0xbb67ae8584caa73b, 0x3c6ef372fe94f82b, 0xa54ff53a5f1d36f1,
                             0x510e527fade682d1, 0x9b05688c2b3e6c1f, 0x1f83d9abfb41bd6b, 0x5be0cd19137e2179)

  lemma StartRight()
    ensures START == IV()
  {
    hide SquareRootOf, PRIMES;
    FirstPrimes();
    SquareFraction(2, 1, 0x6a09e667f3bcc908);
    SquareFraction(3, 1, 0xbb67ae8584caa73b);
    SquareFraction(5, 2, 0x3c6ef372fe94f82b);
    SquareFraction(7, 2, 0xa54ff53a5f1d36f1);
    SquareFraction(11, 3, 0x510e527fade682d1);
    SquareFraction(13, 3, 0x9b05688c2b3e6c1f);
    SquareFraction(17, 4, 0x1f83d9abfb41bd6b);
    SquareFraction(19, 4, 0x5be0cd19137e2179);
  }

  /** sha512_transform's 80-word schedule. */
  method Expand(data: seq<Byte>) returns (m: seq<Word>)
    requires |data| == 128
    ensures |m| == 80 && forall k :: 0 <= k < 80 ==> m[k] == Schedule(data, k)
  {
    hide WordAt, NextWord, Schedule, Plus, SmallSigma0, SmallSigma1;
    m := [];
    for i := 0 to 16
      invariant |m| == i && forall k :: 0 <= k < i ==> m[k] == Schedule(data, k)
    {
      ScheduleStep(data, i);
      m := m + [WordAt(data, 8 * i)];
    }
    for i := 16 to 80
      invariant |m| == i && forall k :: 0 <= k < i ==> m[k] == Schedule(data, k)
    {
      ScheduleStep(data, i);
      NextWordIs(m[i - 2], m[i - 7], m[i - 15], m[i - 16]);
      m := m + [Plus(Plus(Plus(SmallSigma1(m[i - 2]), m[i - 7]), SmallSigma0(m[i - 15])), m[i - 16])];
    }
  }

  method Transform(state: Hash, data: seq<Byte>) returns (r: Hash)
    requires |data| == 128
    ensures r == Compress(state, data)
  {
    hide Constant, Schedule, Round, K, Plus;
    var m := Expand(data);
    var s := state;
    for i := 0 to 80
      invariant s == Rounds(state, data, i)
    {
      TableRight(i);
      s := Step(s, K[i], m[i]);
    }
    r := Hash(Plus(state.a, s.a), Plus(state.b, s.b), Plus(state.c, s.c), Plus(state.d, s.d),
              Plus(state.e, s.e), Plus(state.f, s.f), Plus(state.g, s.g), Plus(state.h, s.h));
  }

  /** One round of sha512_transform on its eight variables. */
  method Step(s: Hash, k: Word, w: Word) returns (r: Hash)
    ensures r == Round(s, k, w)
  {
    hide BigSigma0, BigSigma1, Ch, Maj, Plus;
    var a, b, c, d := s.a, s.b, s.c, s.d;
    var e, f, g, h := s.e, s.f, s.g, s.h;
    var t1 := Plus(Plus(Plus(Plus(h, BigSigma1(e)), Ch(e, f, g)), k), w);
    var t2 := Plus(BigSigma0(a), Maj(a, b, c));
    h := g;
    g := f;
    f := e;
    e := Plus(d, t1);
    d := c;
    c := b;
    b := a;
    a := Plus(t1, t2);
    r := Hash(a, b, c, d, e, f, g, h);
  }

  /** The one last block sha512_final makes, whatever the tail: the mark and zeros as far as byte
      119, then the length, over anything the tail had there. */
  function LastBlock(tail: seq<Byte>, bits: nat): (r: seq<Byte>)
    ensures |r| == 128
  {
    (tail + [MARK] + Zeros(120))[..120] + LengthField(bits, 8)
  }

  /** All bytes that reach the compression function. */
  function Fed(m: seq<Byte>): seq<Byte> {
    Whole(m, 128) + LastBlock(Tail(m, 128), (8 * |m|) % WRAP)
  }

  class Context {
    const data: array<Byte>
    var datalen: nat
    var bitlen: nat
    var state: Hash
    ghost var absorbed: seq<Byte>

    ghost predicate Valid()
      reads this, data
    {
      && data.Length == 128 && datalen == |absorbed| % 128
      && data[..datalen] == Tail(absorbed, 128)
      && state == Absorb(IV(), Whole(absorbed, 128))
      && bitlen == (8 * (|absorbed| - datalen)) % WRAP
    }

    /** sha512_init */
    constructor ()
      ensures Valid() && absorbed == [] && fresh(data)
    {
      hide IV, Absorb, Whole, Tail;
      data := new Byte[128];
      datalen, bitlen := 0, 0;
      StartRight();
      state := START;
      absorbed := [];
      new;
      NothingYet();
    }

    /** One byte of sha512_update. */
    method Add(b: Byte)
      requires Valid()
      modifies this, data
      ensures Valid() && absorbed == old(absorbed) + [b]
    {
      hide Compress, Absorb, IV, Whole, Tail;
      ghost var was := absorbed;
      absorbed := absorbed + [b];
      Put(b);
      if datalen == 128 {
        assert data[..] == data[..datalen];
        FilledBlock(was, b);
        LengthWraps(|was| + 1, 128);
        state := Transform(state, data[..]);
        bitlen := (bitlen + 1024) % WRAP;
        datalen := 0;
      } else {
        ByteGrows(was, b, 128);
      }
    }

    method Put(b: Byte)
      requires datalen < data.Length == 128
      modifies data, this`datalen
      ensures datalen == old(datalen) + 1 && data[..datalen] == old(data[..datalen]) + [b]
    {
      data[datalen] := b;
      datalen := datalen + 1;
    }

    /** sha512_update */
    method Update(bytes: seq<Byte>)
      requires Valid()
      modifies this, data
      ensures Valid() && absorbed == old(absorbed) + bytes
    {
      hide Absorb, IV;
      for i := 0 to |bytes|
        invariant Valid() && absorbed == old(absorbed) + bytes[..i]
      {
        Add(bytes[i]);
        assert bytes[..i + 1] == bytes[..i] + [bytes[i]];
      }
      assert bytes[..|bytes|] == bytes;
    }

    /** sha512_final: the fold of the compression function over the bytes fed to it. */
    method Final() returns (hash: seq<Byte>)
      requires Valid()
      modifies this, data
      ensures hash == Digest(Absorb(IV(), Fed(absorbed)))
      ensures absorbed == old(absorbed)
    {
      hide Absorb, Compress, Digest, LengthField, IV, Whole, Tail, LastBlock;
      ghost var tail := Tail(absorbed, 128);
      FillTail();
      LengthWraps(|absorbed|, datalen);
      bitlen := (bitlen + datalen * 8) % WRAP;
      PutLength();
      assert data[..] == LastBlock(tail, bitlen) by { BlockParts(data[..], tail, bitlen); }
      FedFold(absorbed);
      state := Transform(state, data[..]);
      hash := Emit(state);
    }

    /** The mark, then zeros up to byte 119. */
    method FillTail()
      requires data.Length == 128 && datalen < 128
      modifies data
      ensures data[..120] == (old(data[..datalen]) + [MARK] + Zeros(120))[..120]
    {
      var i := datalen;
      data[i] := MARK;
      i := i + 1;
      while i < 112
        invariant datalen < i && (i <= 112 || i == datalen + 1)
        invariant data[..datalen] == old(data[..datalen]) && data[datalen] == MARK
        invariant forall k :: datalen < k < i ==> data[k] == 0
      {
        data[i] := 0;
        i := i + 1;
      }
      while i < 120
        invariant datalen < i && (i <= 120 || i == datalen + 1)
        invariant data[..datalen] == old(data[..datalen]) && data[datalen] == MARK
        invariant forall k :: datalen < k < i ==> data[k] == 0
      {
        data[i] := 0;
        i := i + 1;
      }
      assert forall k :: 0 <= k < datalen ==> data[k] == data[..datalen][k];
    }

    /** The length field. */
    method PutLength()
      requires data.Length == 128
      modifies data
      ensures data[..120] == old(data[..120]) && data[120..] == LengthField(bitlen, 8)
    {
      hide LengthByte;
      for i := 0 to 8
        invariant data[..120] == old(data[..120])
        invariant forall k :: 0 <= k < i ==> data[127 - k] == LengthByte(bitlen, k)
      {
        data[127 - i] := LengthByte(bitlen, i);
      }
      forall j | 0 <= j < 8 ensures data[120..][j] == LengthField(bitlen, 8)[j] {
        assert data[127 - (7 - j)] == LengthByte(bitlen, 7 - j);
      }
    }
  }

  /** The output loops of sha512_final: word by word, byte by byte. */
  method Emit(s: Hash) returns (hash: seq<Byte>)
    ensures hash == Digest(s)
  {
    hide WordBytes, Digest;
    var w := [s.a, s.b, s.c, s.d, s.e, s.f, s.g, s.h];
    var out := new Byte[64](_ => 0);
    for i := 0 to 8
      invariant forall k :: 0 <= k < 8 * i ==> out[k] == WordBytes(w[k / 8])[k % 8]
    {
      for j := 0 to 8
        invariant forall k :: 0 <= k < 8 * i + j ==> out[k] == WordBytes(w[k / 8])[k % 8]
      {
        assert (8 * i + j) / 8 == i && (8 * i + j) % 8 == j;
        out[i * 8 + j] := WordBytes(w[i])[j];
      }
    }
    hash := out[..];
    DigestBytes(s, hash);
  }

  lemma DigestBytes(s: Hash, x: seq<Byte>)
    requires |x| == 64
    requires var w := [s.a, s.b, s.c, s.d, s.e, s.f, s.g, s.h]; forall k :: 0 <= k < 64 ==> x[k] == WordBytes(w[k / 8])[k % 8]
    ensures x == Digest(s)
  {
    hide WordBytes;
    var d := Digest(s);
    forall k | 0 <= k < 64 ensures d[k] == x[k] {
      assert k / 8 == 0 || k / 8 == 1 || k / 8 == 2 || k / 8 == 3 || k / 8 == 4 || k / 8 == 5 || k / 8 == 6 || k / 8 == 7;
    }
  }

  lemma BlockParts(block: seq<Byte>, tail: seq<Byte>, bits: nat)
    requires |block| == 128 && block[..120] == (tail + [MARK] + Zeros(120))[..120] && block[120..] == LengthField(bits, 8)
    ensures block == LastBlock(tail, bits)
  {
    assert block == block[..120] + block[120..];
  }

  lemma FedFold(m: seq<Byte>)
    ensures Absorb(IV(), Fed(m)) == Compress(Absorb(IV(), Whole(m, 128)), LastBlock(Tail(m, 128), (8 * |m|) % WRAP))
  {
    hide IV, Compress, Absorb, LastBlock;
    var block := LastBlock(Tail(m, 128), (8 * |m|) % WRAP);
    AbsorbConcat(IV(), Whole(m, 128), block);
    AbsorbBlock(Absorb(IV(), Whole(m, 128)), block);
  }

  lemma NothingYet()
    ensures Absorb(IV(), Whole([], 128)) == IV() && Tail([], 128) == []
  {
    hide IV, Compress;
  }

  lemma FilledBlock(m: seq<Byte>, b: Byte)
    requires |m| % 128 == 127
    ensures |m + [b]| % 128 == 0 && Tail(m + [b], 128) == []
    ensures Absorb(IV(), Whole(m + [b], 128)) == Compress(Absorb(IV(), Whole(m, 128)), Tail(m, 128) + [b])
  {
    hide Compress, Absorb, IV;
    ByteFills(m, b, 128);
    AbsorbConcat(IV(), Whole(m, 128), Tail(m, 128) + [b]);
    AbsorbBlock(Absorb(IV(), Whole(m, 128)), Tail(m, 128) + [b]);
  }

  /** sha512_final pads as FIPS 180-4 does exactly when the tail is at most 111 bytes. */
  lemma FedIsPadding(m: seq<Byte>)
    requires 8 * |m| < WRAP
    ensures Fed(m) == Pad(m, 128, 16) <==> |m| % 128 <= 111
  {
    hide LengthField, Pad;
    var n, r := |m|, |m| % 128;
    if r <= 111 {
      GapShort(n);
      FieldHalves(8 * n);
      ShortTail(Tail(m, 128), 8 * n);
      PadParts(m);
    } else {
      assert |Fed(m)| == n - r + 128;
      assert |Pad(m, 128, 16)| == n + 17 + Gap(n, 128, 16);
    }
  }

  lemma GapShort(n: nat)
    requires n % 128 <= 111
    ensures Gap(n, 128, 16) == 111 - n % 128
  {}

  lemma ShortTail(tail: seq<Byte>, bits: nat)
    requires |tail| <= 111
    ensures LastBlock(tail, bits) == tail + [MARK] + Zeros(111 - |tail|) + (Zeros(8) + LengthField(bits, 8))
  {
    hide LengthField;
    assert (tail + [MARK] + Zeros(120))[..120] == tail + [MARK] + Zeros(111 - |tail|) + Zeros(8);
  }

  lemma PadParts(m: seq<Byte>)
    ensures Pad(m, 128, 16)
         == Whole(m, 128) + (Tail(m, 128) + [MARK] + Zeros(Gap(|m|, 128, 16)) + LengthField(8 * |m|, 16))
  {
    hide LengthField, Gap;
    assert m == Whole(m, 128) + Tail(m, 128);
  }

  lemma FieldHalves(bits: nat)
    requires bits < WRAP
    ensures LengthField(bits, 16) == Zeros(8) + LengthField(bits, 8)
  {
    hide LengthByte;
    forall j | 0 <= j < 16 ensures LengthField(bits, 16)[j] == (Zeros(8) + LengthField(bits, 8))[j] {
      if j < 8 { UpperZero(bits, 15 - j); }
    }
  }

  /** sha512: correct for every message below 2^61 bytes whose tail leaves room for the length. */
  method Sha512Hash(m: seq<Byte>) returns (hash: seq<Byte>)
    ensures hash == Digest(Absorb(IV(), Fed(m)))
    ensures 8 * |m| < WRAP && |m| % 128 <= 111 ==> hash == Digest(Absorb(IV(), Pad(m, 128, 16)))
  {
    hide Absorb, Digest, Pad, Fed, IV;
    var ctx := new Context();
    ctx.Update(m);
    assert ctx.absorbed == m;
    hash := ctx.Final();
    if 8 * |m| < WRAP { FedIsPadding(m); }
  }
}
