/** The SHA-512 compression function as section 6.4.2 of FIPS 180-4 defines it: the message schedule
    and the rounds by recursion. Both implementations are proved against it. */
module Sha512Core {
  import opened Basics
  import opened Radix
  import opened Bits
  import opened ShaConstants
  import opened ShaPadding

  type Word = x: int | 0 <= x < 0x1_0000_0000_0000_0000

  /** The bits of a word, and the word of 64 bits. */
  function ToBits(x: Word): (b: seq<bool>)
    ensures |b| == 64
  {
    Binary(x, 64)
  }

  function FromBits(b: seq<bool>): (x: Word)
    requires |b| == 64
    ensures ToBits(x) == b
  {
    UnbinaryRoundTrip(b);
    Pow2_64();
    Unbinary(b)
  }

  /** Addition modulo 2^64. */
  function Plus(x: Word, y: Word): Word { (x as int + y as int) % WRAP }

  lemma PlusWraps(x: Word, y: Word)
    ensures Plus(x, y) == if x + y < 0x1_0000_0000_0000_0000 then x + y else x + y - 0x1_0000_0000_0000_0000
  {}

  function Ch(x: Word, y: Word, z: Word): Word {
    var p := ToBits(x);
    FromBits(Xor(And(p, ToBits(y)), And(Not(p), ToBits(z))))
  }

  function Maj(x: Word, y: Word, z: Word): Word {
    var p, q, r := ToBits(x), ToBits(y), ToBits(z);
    FromBits(Xor(Xor(And(p, q), And(p, r)), And(q, r)))
  }

  function BigSigma0(x: Word): Word {
    var p := ToBits(x);
    FromBits(Xor(Xor(RotateRight(p, 28), RotateRight(p, 34)), RotateRight(p, 39)))
  }

  function BigSigma1(x: Word): Word {
    var p := ToBits(x);
    FromBits(Xor(Xor(RotateRight(p, 14), RotateRight(p, 18)), RotateRight(p, 41)))
  }

  function SmallSigma0(x: Word): Word {
    var p := ToBits(x);
    FromBits(Xor(Xor(RotateRight(p, 1), RotateRight(p, 8)), ShiftRight(p, 7)))
  }

  function SmallSigma1(x: Word): Word {
    var p := ToBits(x);
    FromBits(Xor(Xor(RotateRight(p, 19), RotateRight(p, 61)), ShiftRight(p, 6)))
  }

  /** Bit i of a word. */
  predicate Bit(x: Word, i: nat)
    requires i < 64
  {
    x / Pow(2, i) % 2 == 1
  }

  lemma BitIs(x: Word, i: nat)
    requires i < 64
    ensures Bit(x, i) <==> ToBits(x)[i]
  {
    BinaryAt(x, 64, i);
  }

  /** Ch chooses between y and z, bit by bit, and Maj takes the majority. */
  lemma ChooseMajority(x: Word, y: Word, z: Word, i: nat)
    requires i < 64
    ensures Bit(Ch(x, y, z), i) == if Bit(x, i) then Bit(y, i) else Bit(z, i)
    ensures Bit(Maj(x, y, z), i) <==> (Bit(x, i) && Bit(y, i)) || (Bit(y, i) && Bit(z, i)) || (Bit(x, i) && Bit(z, i))
  {
    hide Bit, ToBits, FromBits;
    BitIs(x, i);
    BitIs(y, i);
    BitIs(z, i);
    BitIs(Ch(x, y, z), i);
    BitIs(Maj(x, y, z), i);
  }

  /** An odd number of the three. */
  predicate Odd(a: bool, b: bool, c: bool) { (a != b) != c }

  /** The four functions of section 4.1.3 of FIPS 180-4, bit by bit; a bit shifted in is zero. */
  lemma Sigmas(x: Word, i: nat)
    requires i < 64
    ensures Bit(BigSigma0(x), i) == Odd(Bit(x, (i + 28) % 64), Bit(x, (i + 34) % 64), Bit(x, (i + 39) % 64))
    ensures Bit(BigSigma1(x), i) == Odd(Bit(x, (i + 14) % 64), Bit(x, (i + 18) % 64), Bit(x, (i + 41) % 64))
    ensures Bit(SmallSigma0(x), i) == Odd(Bit(x, (i + 1) % 64), Bit(x, (i + 8) % 64), i + 7 < 64 && Bit(x, i + 7))
    ensures Bit(SmallSigma1(x), i) == Odd(Bit(x, (i + 19) % 64), Bit(x, (i + 61) % 64), i + 6 < 64 && Bit(x, i + 6))
  {
    hide Bit, ToBits, FromBits, RotateRight, ShiftRight;
    forall n: nat, j: nat | n <= 64 && j < 64 ensures RotateRight(ToBits(x), n)[j] == Bit(x, (j + n) % 64) {
      RotateAt(ToBits(x), n, j);
      BitIs(x, (j + n) % 64);
    }
    forall n: nat | n <= 64 ensures ShiftRight(ToBits(x), n)[i] == (i + n < 64 && Bit(x, i + n)) {
      ShiftAt(ToBits(x), n, i);
      if i + n < 64 { BitIs(x, i + n); }
    }
    BitIs(BigSigma0(x), i);
    BitIs(BigSigma1(x), i);
    BitIs(SmallSigma0(x), i);
    BitIs(SmallSigma1(x), i);
  }

  ghost function Constant(t: nat): Word
    requires t < 80
  {
    Round64(t)
  }

  /** The eight working variables. */
  datatype Hash = Hash(a: Word, b: Word, c: Word, d: Word, e: Word, f: Word, g: Word, h: Word)

  /** A big-endian word. */
  function WordAt(s: seq<Byte>, i: nat): Word
    requires i + 8 <= |s|
  {
    NumberBound(s, i, 8);
    assert Modulus(8) == WRAP by { EightBytes(); }
    Number(s, i, 8)
  }

  /** The bytes of a word, most significant first. */
  function WordBytes(w: Word): (s: seq<Byte>)
    ensures |s| == 8
  {
    LengthField(w, 8)
  }

  /** The message schedule. */
  function Schedule(block: seq<Byte>, t: nat): Word
    requires |block| == 128
  {
    if t < 16 then WordAt(block, 8 * t)
    else NextWord(Schedule(block, t - 2), Schedule(block, t - 7), Schedule(block, t - 15), Schedule(block, t - 16))
  }

  /** A schedule word from those 2, 7, 15 and 16 places before it. */
  function NextWord(w2: Word, w7: Word, w15: Word, w16: Word): Word {
    Plus(Plus(Plus(SmallSigma1(w2), w7), SmallSigma0(w15)), w16)
  }

  lemma NextWordIs(w2: Word, w7: Word, w15: Word, w16: Word)
    ensures NextWord(w2, w7, w15, w16) == Plus(Plus(Plus(SmallSigma1(w2), w7), SmallSigma0(w15)), w16)
  {}

  lemma ScheduleStep(block: seq<Byte>, t: nat)
    requires |block| == 128
    ensures t < 16 ==> Schedule(block, t) == WordAt(block, 8 * t)
    ensures t >= 16 ==>
              Schedule(block, t) == NextWord(Schedule(block, t - 2), Schedule(block, t - 7), Schedule(block, t - 15), Schedule(block, t - 16))
  {
    hide WordAt, NextWord;
  }

  function Round(s: Hash, k: Word, w: Word): Hash {
    var t1 := Plus(Plus(Plus(Plus(s.h, BigSigma1(s.e)), Ch(s.e, s.f, s.g)), k), w);
    var t2 := Plus(BigSigma0(s.a), Maj(s.a, s.b, s.c));
    Hash(Plus(t1, t2), s.a, s.b, s.c, Plus(s.d, t1), s.e, s.f, s.g)
  }

  ghost function Rounds(s: Hash, block: seq<Byte>, n: nat): Hash
    requires |block| == 128 && n <= 80
  {
    if n == 0 then s else Round(Rounds(s, block, n - 1), Constant(n - 1), Schedule(block, n - 1))
  }

  function Sum(s: Hash, r: Hash): Hash {
    Hash(Plus(s.a, r.a), Plus(s.b, r.b), Plus(s.c, r.c), Plus(s.d, r.d),
         Plus(s.e, r.e), Plus(s.f, r.f), Plus(s.g, r.g), Plus(s.h, r.h))
  }

  ghost function Compress(s: Hash, block: seq<Byte>): Hash
    requires |block| == 128
  {
    Sum(s, Rounds(s, block, 80))
  }

  ghost function IV(): Hash {
    Hash(Initial64(0), Initial64(1), Initial64(2), Initial64(3), Initial64(4), Initial64(5), Initial64(6), Initial64(7))
  }

  /** The whole blocks of s folded into a hash value. */
  ghost function Absorb(s: Hash, bytes: seq<Byte>): Hash
    decreases |bytes|
  {
    if |bytes| < 128 then s else Absorb(Compress(s, bytes[..128]), bytes[128..])
  }

  function Digest(s: Hash): (r: seq<Byte>)
    ensures |r| == 64
  {
    WordBytes(s.a) + WordBytes(s.b) + WordBytes(s.c) + WordBytes(s.d)
    + WordBytes(s.e) + WordBytes(s.f) + WordBytes(s.g) + WordBytes(s.h)
  }

  /** Reading the word that was written. */
  lemma WordRoundTrip(w: Word)
    ensures WordAt(WordBytes(w), 0) == w
  {
    hide LengthField;
    ShiftEight(w);
    NumberOfBytes(w, 8, 8);
    assert Shift(w, 0) == w;
  }

  lemma {:induction false} AbsorbConcat(s: Hash, p: seq<Byte>, q: seq<Byte>)
    requires |p| % 128 == 0
    ensures Absorb(s, p + q) == Absorb(Absorb(s, p), q)
    decreases |p|
  {
    hide Compress;
    if |p| == 0 {
      assert p + q == q;
    } else {
      assert (p + q)[..128] == p[..128] && (p + q)[128..] == p[128..] + q;
      AbsorbConcat(Compress(s, p[..128]), p[128..], q);
    }
  }

  lemma AbsorbBlock(s: Hash, block: seq<Byte>)
    requires |block| == 128
    ensures Absorb(s, block) == Compress(s, block)
  {
    hide Compress;
    assert block[..128] == block && block[128..] == [];
  }
}
