/** The other SHA-512, crypto_hashblocks and crypto_hash of kernel/crypto/tweetnacl.c: a schedule of
    sixteen words updated in place and a state that is rotated through an array. */
module TweetHash {
  import opened Basics
  import opened Sha512Core
  import opened ShaPadding
  import Sha512

  // The round constants of this implementation.
  const K0: seq<Word> := [
    0x428a2f98d728ae22, 0x7137449123ef65cd, 0xb5c0fbcfec4d3b2f, 0xe9b5dba58189dbbc,
    0x3956c25bf348b538, 0x59f111f1b605d019, 0x923f82a4af194f9b, 0xab1c5ed5da6d8118,
    0xd807aa98a3030242, 0x12835b0145706fbe, 0x243185be4ee4b28c, 0x550c7dc3d5ffb4e2,
    0x72be5d74f27b896f, 0x80deb1fe3b1696b1, 0x9bdc06a725c71235, 0xc19bf174cf692694
  ]
  const K1: seq<Word> := [
    0xe49b69c19ef14ad2, 0xefbe4786384f25e3, 0x0fc19dc68b8cd5b5, 0x240ca1cc77ac9c65,
    0x2de92c6f592b0275, 0x4a7484aa6ea6e483, 0x5cb0a9dcbd41fbd4, 0x76f988da831153b5,
    0x983e5152ee66dfab, 0xa831c66d2db43210, 0xb00327c898fb213f, 0xbf597fc7beef0ee4,
    0xc6e00bf33da88fc2, 0xd5a79147930aa725, 0x06ca6351e003826f, 0x142929670a0e6e70
  ]
  const K2: seq<Word> := [
    0x27b70a8546d22ffc, 0x2e1b21385c26c926, 0x4d2c6dfc5ac42aed, 0x53380d139d95b3df,
    0x650a73548baf63de, 0x766a0abb3c77b2a8, 0x81c2c92e47edaee6, 0x92722c851482353b,
    0xa2bfe8a14cf10364, 0xa81a664bbc423001, 0xc24b8b70d0f89791, 0xc76c51a30654be30,
    0xd192e819d6ef5218, 0xd69906245565a910, 0xf40e35855771202a, 0x106aa07032bbd1b8
  ]
  const K3: seq<Word> := [
    0x19a4c116b8d2d0c8, 0x1e376c085141ab53, 0x2748774cdf8eeb99, 0x34b0bcb5e19b48a8,
    0x391c0cb3c5c95a63, 0x4ed8aa4ae3418acb, 0x5b9cca4f7763e373, 0x682e6ff3d6b2b8a3,
    0x748f82ee5defb2fc, 0x78a5636f43172f60, 0x84c87814a1f0ab72, 0x8cc702081a6439ec,
    0x90befffa23631e28, 0xa4506cebde82bde9, 0xbef9a3f7b2c67915, 0xc67178f2e372532b
  ]
  const K4: seq<Word> := [
    0xca273eceea26619c, 0xd186b8c721c0c207, 0xeada7dd6cde0eb1e, 0xf57d4f7fee6ed178,
    0x06f067aa72176fba, 0x0a637dc5a2c898a6, 0x113f9804bef90dae, 0x1b710b35131c471b,
    0x28db77f523047d84, 0x32caab7b40c72493, 0x3c9ebe0a15c9bebc, 0x431d67c49c100d4c,
    0x4cc5d4becb3e42b6, 0x597f299cfc657e2a, 0x5fcb6fab3ad6faec, 0x6c44198c4a475817
  ]
  const K: seq<Word> := K0 + K1 + K2 + K3 + K4

  /** They are those of the other one. */
  lemma TableRight(t: nat)
    requires t < 80
    ensures |K| == 80 && K[t] == Constant(t)
  {
    hide Constant;
    assert K0 == Sha512.K0 && K1 == Sha512.K1 && K2 == Sha512.K2 && K3 == Sha512.K3 && K4 == Sha512.K4;
    Sha512.TableRight(t);
  }

  function Words(s: Hash): (r: seq<Word>)
    ensures |r| == 8
  {
    [s.a, s.b, s.c, s.d, s.e, s.f, s.g, s.h]
  }

  function FromWords(r: seq<Word>): (s: Hash)
    requires |r| == 8
    ensures Words(s) == r
  {
    Hash(r[0], r[1], r[2], r[3], r[4], r[5], r[6], r[7])
  }

  /** The state a 64-byte string holds. */
  function Load(x: seq<Byte>): Hash
    requires |x| == 64
  {
    Hash(WordAt(x, 0), WordAt(x, 8), WordAt(x, 16), WordAt(x, 24), WordAt(x, 32), WordAt(x, 40), WordAt(x, 48), WordAt(x, 56))
  }

  /** dl64 */
  method LoadWord(x: seq<Byte>, i: nat) returns (u: Word)
    requires i + 8 <= |x|
    ensures u == WordAt(x, i)
  {
    EightBytes();
    u := 0;
    for j := 0 to 8
      invariant u as int == Number(x, i, j) < Modulus(j)
    {
      NumberBound(x, i, j + 1);
      ModulusUpTo(j + 1);
      u := (256 * u as int) % WRAP + x[i + j] as int;
    }
  }

  lemma ModulusUpTo(j: nat)
    requires j <= 8
    ensures Modulus(j) <= WRAP
    decreases 8 - j
  {
    if j == 8 { EightBytes(); } else { ModulusUpTo(j + 1); }
  }

  /** ts64, from the last byte to the first. */
  method StoreWord(x: array<Byte>, i: nat, w: Word)
    requires i + 8 <= x.Length
    modifies x
    ensures x[i..i + 8] == WordBytes(w)
    ensures forall k :: 0 <= k < x.Length && !(i <= k < i + 8) ==> x[k] == old(x[k])
  {
    hide LengthByte, Shift;
    var u: Word := w;
    var j := 7;
    ShiftOnce(w, 0);
    while j >= 0
      invariant -1 <= j <= 7 && u as int == Shift(w, 7 - j)
      invariant forall k :: i + j < k < i + 8 ==> x[k] == LengthByte(w, i + 7 - k)
      invariant forall k :: 0 <= k < x.Length && !(i <= k < i + 8) ==> x[k] == old(x[k])
    {
      ShiftOnce(w, 7 - j);
      x[i + j] := u as int % 256;
      u := u as int / 256;
      j := j - 1;
    }
    assert x[i..i + 8] == WordBytes(w);
  }

  lemma ShiftOnce(x: nat, k: nat)
    ensures Shift(x, k + 1) == Shift(x, k) / 256 && Shift(x, 0) == x && LengthByte(x, k) == Shift(x, k) % 256
  {
    ShiftMore(x, k, 1);
    assert Shift(Shift(x, k), 1) == Shift(Shift(x, k) / 256, 0);
  }

  lemma PlusAssoc(x: Word, y: Word, z: Word)
    ensures Plus(Plus(x, y), z) == Plus(x, Plus(y, z))
  {}

  /** The order in which crypto_hashblocks adds the four words of the schedule. */
  lemma MixOrder(w16: Word, w7: Word, s0: Word, s1: Word)
    ensures Plus(w16, Plus(Plus(w7, s0), s1)) == Plus(Plus(Plus(s1, w7), s0), w16)
  {
    hide Plus;
    PlusComm(w16, Plus(Plus(w7, s0), s1));
    PlusComm(Plus(w7, s0), s1);
    PlusAssoc(s1, w7, s0);
  }

  lemma PlusComm(x: Word, y: Word)
    ensures Plus(x, y) == Plus(y, x)
  {}

  /** The body of the round loop on the state array. */
  method RotateRound(a: seq<Word>, k: Word, w: Word) returns (r: seq<Word>)
    requires |a| == 8
    ensures |r| == 8 && r == Words(Round(FromWords(a), k, w))
  {
    hide BigSigma0, BigSigma1, Ch, Maj, Plus;
    var b := a;
    var t := Plus(Plus(Plus(Plus(a[7], BigSigma1(a[4])), Ch(a[4], a[5], a[6])), k), w);
    b := b[7 := Plus(Plus(t, BigSigma0(a[0])), Maj(a[0], a[1], a[2]))];
    b := b[3 := Plus(b[3], t)];
    PlusAssoc(t, BigSigma0(a[0]), Maj(a[0], a[1], a[2]));
    r := a;
    for j := 0 to 8
      invariant |r| == 8 && forall i :: 0 <= i < j ==> r[(i + 1) % 8] == b[i]
    {
      r := r[(j + 1) % 8 := b[j]];
    }
    assert r[0] == b[7] && r[1] == b[0] && r[2] == b[1] && r[3] == b[2];
    assert r[4] == b[3] && r[5] == b[4] && r[6] == b[5] && r[7] == b[6];
  }

  /** Sixteen consecutive words of the schedule. */
  ghost predicate Window(w: seq<Word>, block: seq<Byte>, base: nat)
    requires |block| == 128
  {
    |w| == 16 && forall j :: 0 <= j < 16 ==> w[j] == Schedule(block, base + j)
  }

  /** The in-place update of the schedule: the window moves on by sixteen words. */
  method Slide(w: seq<Word>, ghost block: seq<Byte>, ghost base: nat) returns (r: seq<Word>)
    requires |block| == 128 && Window(w, block, base)
    ensures Window(r, block, base + 16)
  {
    hide Schedule, SmallSigma0, SmallSigma1, Plus, NextWord;
    r := w;
    for j := 0 to 16
      invariant |r| == 16
      invariant forall k :: 0 <= k < 16 ==> r[k] == Schedule(block, if k < j then base + 16 + k else base + k)
    {
      ghost var t := base + 16 + j;
      assert r[(j + 9) % 16] == Schedule(block, t - 7);
      assert r[(j + 1) % 16] == Schedule(block, t - 15);
      assert r[(j + 14) % 16] == Schedule(block, t - 2);
      SlideWord(block, t);
      r := r[j := Plus(r[j], Plus(Plus(r[(j + 9) % 16], SmallSigma0(r[(j + 1) % 16])), SmallSigma1(r[(j + 14) % 16])))];
    }
  }

  lemma SlideWord(block: seq<Byte>, t: nat)
    requires |block| == 128 && t >= 16
    ensures Schedule(block, t) == Plus(Schedule(block, t - 16),
        Plus(Plus(Schedule(block, t - 7), SmallSigma0(Schedule(block, t - 15))), SmallSigma1(Schedule(block, t - 2))))
  {
    hide Schedule, SmallSigma0, SmallSigma1, Plus;
    ScheduleStep(block, t);
    MixOrder(Schedule(block, t - 16), Schedule(block, t - 7), SmallSigma0(Schedule(block, t - 15)), SmallSigma1(Schedule(block, t - 2)));
  }

  /** One block of crypto_hashblocks. */
  method OneBlock(z: seq<Word>, block: seq<Byte>) returns (r: seq<Word>)
    requires |z| == 8 && |block| == 128
    ensures |r| == 8 && r == Words(Compress(FromWords(z), block))
  {
    hide Schedule, Round, Plus, WordAt, Constant, K;
    var w: seq<Word> := [];
    for i := 0 to 16
      invariant |w| == i && forall j :: 0 <= j < i ==> w[j] == Schedule(block, j)
    {
      ScheduleStep(block, i);
      var u := LoadWord(block, 8 * i);
      w := w + [u];
    }
    var a := z;
    for i := 0 to 80
      invariant |a| == 8 && a == Words(Rounds(FromWords(z), block, i))
      invariant Window(w, block, 16 * (i / 16))
    {
      assert w[i % 16] == Schedule(block, i);
      TableRight(i);
      a := RotateRound(a, K[i], w[i % 16]);
      if i % 16 == 15 { w := Slide(w, block, 16 * (i / 16)); }
    }
    r := AddWords(a, z);
  }

  method AddWords(a: seq<Word>, z: seq<Word>) returns (r: seq<Word>)
    requires |a| == |z| == 8
    ensures |r| == 8 && r == Words(Sum(FromWords(z), FromWords(a)))
  {
    hide Plus;
    r := [];
    for i := 0 to 8
      invariant |r| == i && forall k :: 0 <= k < i ==> r[k] == Plus(z[k], a[k])
    {
      PlusComm(z[i], a[i]);
      r := r + [Plus(a[i], z[i])];
    }
  }

  /** crypto_hashblocks: the state in x, updated with the whole blocks of m. */
  method HashBlocks(x: array<Byte>, m: seq<Byte>) returns (left: nat)
    requires x.Length == 64
    modifies x
    ensures x[..] == Digest(Absorb(Load(old(x[..])), m))
    ensures left == |m| % 128
  {
    hide Absorb, Compress, Digest, WordAt, Load;
    var z := LoadState(x[..]);
    ghost var start := Load(x[..]);
    var p := 0;
    AbsorbNone(start, m[..0]);
    while |m| - p >= 128
      invariant p <= |m| && p % 128 == 0 && |z| == 8 && z == Words(Absorb(start, m[..p]))
    {
      var block := m[p..p + 128];
      z := OneBlock(z, block);
      AbsorbConcat(start, m[..p], block);
      AbsorbBlock(Absorb(start, m[..p]), block);
      assert m[..p + 128] == m[..p] + block;
      p := p + 128;
    }
    AbsorbConcat(start, m[..p], m[p..]);
    AbsorbNone(Absorb(start, m[..p]), m[p..]);
    assert m == m[..p] + m[p..];
    StoreState(x, z);
    left := |m| - p;
  }

  method LoadState(x: seq<Byte>) returns (z: seq<Word>)
    requires |x| == 64
    ensures |z| == 8 && z == Words(Load(x))
  {
    hide WordAt;
    z := [];
    for i := 0 to 8
      invariant |z| == i && forall k :: 0 <= k < i ==> z[k] == WordAt(x, 8 * k)
    {
      var u := LoadWord(x, 8 * i);
      z := z + [u];
    }
    assert z[0] == WordAt(x, 8 * 0) && z[1] == WordAt(x, 8 * 1) && z[2] == WordAt(x, 8 * 2) && z[3] == WordAt(x, 8 * 3);
    assert z[4] == WordAt(x, 8 * 4) && z[5] == WordAt(x, 8 * 5) && z[6] == WordAt(x, 8 * 6) && z[7] == WordAt(x, 8 * 7);
  }

  method StoreState(x: array<Byte>, z: seq<Word>)
    requires x.Length == 64 && |z| == 8
    modifies x
    ensures x[..] == Digest(FromWords(z))
  {
    hide WordBytes, Digest;
    for i := 0 to 8
      invariant forall k :: 0 <= k < i ==> x[8 * k..8 * k + 8] == WordBytes(z[k])
    {
      ghost var before := x[..];
      StoreWord(x, 8 * i, z[i]);
      forall k | 0 <= k < i ensures x[8 * k..8 * k + 8] == WordBytes(z[k]) {
        assert before[8 * k..8 * k + 8] == WordBytes(z[k]);
        assert x[8 * k..8 * k + 8] == before[8 * k..8 * k + 8];
      }
    }
    DigestParts(x[..], z);
  }

  lemma DigestParts(x: seq<Byte>, z: seq<Word>)
    requires |x| == 64 && |z| == 8
    requires forall k :: 0 <= k < 8 ==> x[8 * k..8 * k + 8] == WordBytes(z[k])
    ensures x == Digest(FromWords(z))
  {
    hide WordBytes;
    assert x[8 * 0..8 * 0 + 8] == WordBytes(z[0]) && x[8 * 1..8 * 1 + 8] == WordBytes(z[1]);
    assert x[8 * 2..8 * 2 + 8] == WordBytes(z[2]) && x[8 * 3..8 * 3 + 8] == WordBytes(z[3]);
    assert x[8 * 4..8 * 4 + 8] == WordBytes(z[4]) && x[8 * 5..8 * 5 + 8] == WordBytes(z[5]);
    assert x[8 * 6..8 * 6 + 8] == WordBytes(z[6]) && x[8 * 7..8 * 7 + 8] == WordBytes(z[7]);
    assert x == x[0..8] + x[8..16] + x[16..24] + x[24..32] + x[32..40] + x[40..48] + x[48..56] + x[56..64];
  }

  lemma AbsorbNone(s: Hash, q: seq<Byte>)
    requires |q| < 128
    ensures Absorb(s, q) == s
  {
    hide Compress;
  }

  /** The state survives being written out and read back, as it is between two calls. */
  lemma LoadDigest(s: Hash)
    ensures Load(Digest(s)) == s
  {
    hide WordBytes, WordAt;
    var x := Digest(s);
    assert x[0..8] == WordBytes(s.a) && x[8..16] == WordBytes(s.b) && x[16..24] == WordBytes(s.c) && x[24..32] == WordBytes(s.d);
    assert x[32..40] == WordBytes(s.e) && x[40..48] == WordBytes(s.f) && x[48..56] == WordBytes(s.g) && x[56..64] == WordBytes(s.h);
    WordSlice(x, 0, s.a);
    WordSlice(x, 8, s.b);
    WordSlice(x, 16, s.c);
    WordSlice(x, 24, s.d);
    WordSlice(x, 32, s.e);
    WordSlice(x, 40, s.f);
    WordSlice(x, 48, s.g);
    WordSlice(x, 56, s.h);
  }

  lemma WordSlice(x: seq<Byte>, i: nat, w: Word)
    requires i + 8 <= |x| && x[i..i + 8] == WordBytes(w)
    ensures WordAt(x, i) == w
  {
    hide WordBytes;
    NumberSlice(x, i, 8, 8);
    WordRoundTrip(w);
  }

  /** The eight rows of the table of initial bytes. */
  function IvRow(k: nat): (r: seq<Byte>)
    requires k < 8
    ensures |r| == 8
  {
    if k == 0 then [0x6a, 0x09, 0xe6, 0x67, 0xf3, 0xbc, 0xc9, 0x08]
    else if k == 1 then [0xbb, 0x67, 0xae, 0x85, 0x84, 0xca, 0xa7, 0x3b]
    else if k == 2 then [0x3c, 0x6e, 0xf3, 0x72, 0xfe, 0x94, 0xf8, 0x2b]
    else if k == 3 then [0xa5, 0x4f, 0xf5, 0x3a, 0x5f, 0x1d, 0x36, 0xf1]
    else if k == 4 then [0x51, 0x0e, 0x52, 0x7f, 0xad, 0xe6, 0x82, 0xd1]
    else if k == 5 then [0x9b, 0x05, 0x68, 0x8c, 0x2b, 0x3e, 0x6c, 0x1f]
    else if k == 6 then [0x1f, 0x83, 0xd9, 0xab, 0xfb, 0x41, 0xbd, 0x6b]
    else [0x5b, 0xe0, 0xcd, 0x19, 0x13, 0x7e, 0x21, 0x79]
  }

  function IvBytes(): (r: seq<Byte>)
    ensures |r| == 64
  {
    IvRow(0) + IvRow(1) + IvRow(2) + IvRow(3) + IvRow(4) + IvRow(5) + IvRow(6) + IvRow(7)
  }

  /** The table of bytes is the initial hash value. */
  lemma IvIsInitial()
    ensures Load(IvBytes()) == IV()
  {
    hide WordAt, IvRow, IvBytes;
    var x := IvBytes();
    assert forall k: nat :: k < 8 ==> x[8 * k..8 * k + 8] == IvRow(k) by { IvRows(); }
    RowWord(x, 0);
    RowWord(x, 1);
    RowWord(x, 2);
    RowWord(x, 3);
    RowWord(x, 4);
    RowWord(x, 5);
    RowWord(x, 6);
    RowWord(x, 7);
    Sha512.StartRight();
  }

  lemma IvRows()
    ensures forall k: nat :: k < 8 ==> IvBytes()[8 * k..8 * k + 8] == IvRow(k)
  {
    hide IvRow;
    forall k: nat | k < 8 ensures IvBytes()[8 * k..8 * k + 8] == IvRow(k) {
      if k == 0 {} else if k == 1 {} else if k == 2 {} else if k == 3 {}
      else if k == 4 {} else if k == 5 {} else if k == 6 {} else { assert k == 7; }
    }
  }

  lemma RowWord(x: seq<Byte>, k: nat)
    requires k < 8 && |x| == 64 && x[8 * k..8 * k + 8] == IvRow(k)
    ensures WordAt(x, 8 * k) == Words(Sha512.START)[k]
  {
    hide WordAt, Number;
    NumberEight(IvRow(k), 0);
    WordOfSlice(x, 8 * k);
  }

  lemma WordOfSlice(x: seq<Byte>, i: nat)
    requires i + 8 <= |x|
    ensures WordAt(x, i) == WordAt(x[i..i + 8], 0)
  {
    NumberSlice(x, i, 8, 8);
  }

  lemma NumberEight(x: seq<Byte>, i: nat)
    requires i + 8 <= |x|
    ensures WordAt(x, i) as int == 0x100_0000_0000_0000 * x[i] as int + 0x1_0000_0000_0000 * x[i + 1] as int
      + 0x100_0000_0000 * x[i + 2] as int + 0x1_0000_0000 * x[i + 3] as int + 0x100_0000 * x[i + 4] as int
      + 0x1_0000 * x[i + 5] as int + 0x100 * x[i + 6] as int + x[i + 7] as int
  {
    assert Number(x, i, 1) == x[i] as int;
    assert Number(x, i, 2) == 256 * Number(x, i, 1) + x[i + 1] as int;
    assert Number(x, i, 3) == 256 * Number(x, i, 2) + x[i + 2] as int;
    assert Number(x, i, 4) == 256 * Number(x, i, 3) + x[i + 3] as int;
    assert Number(x, i, 5) == 256 * Number(x, i, 4) + x[i + 4] as int;
    assert Number(x, i, 6) == 256 * Number(x, i, 5) + x[i + 5] as int;
    assert Number(x, i, 7) == 256 * Number(x, i, 6) + x[i + 6] as int;
  }

  /** The last one or two blocks as crypto_hash lays them out. */
  method LastBlocks(tail: seq<Byte>, b: nat) returns (r: seq<Byte>)
    requires |tail| < 128 && b < WRAP && b % 128 == |tail|
    ensures r == tail + [MARK] + Zeros(Gap(b, 128, 16)) + LengthField(8 * b, 16)
  {
    hide LengthField, WordBytes;
    var x := new Byte[256](i => 0);
    for i := 0 to |tail|
      invariant x[..i] == tail[..i] && forall k :: i <= k < 256 ==> x[k] == 0
    {
      x[i] := tail[i];
    }
    x[|tail|] := MARK;
    var n := if |tail| < 112 then 128 else 256;
    ghost var front := tail + [MARK] + Zeros(n - 17 - |tail|);
    assert forall k :: 0 <= k < n - 16 ==> x[k] == front[k];
    x[n - 9] := b / 0x2000_0000_0000_0000;
    StoreWord(x, n - 8, (8 * b) % WRAP);
    r := x[..n];
    LengthLayout(r[n - 16..], b);
    GapIs(b);
    assert r == r[..n - 16] + r[n - 16..];
    assert forall k :: 0 <= k < n - 16 ==> r[..n - 16][k] == front[k];
    assert r[..n - 16] == front;
  }

  lemma GapIs(n: nat)
    ensures Gap(n, 128, 16) == if n % 128 < 112 then 111 - n % 128 else 239 - n % 128
  {}

  /** Seven zeros, the top three bits, and the rest of the bit length. */
  lemma LengthLayout(field: seq<Byte>, b: nat)
    requires |field| == 16 && b < WRAP
    requires forall k :: 0 <= k < 7 ==> field[k] == 0
    requires field[7] as int == b / 0x2000_0000_0000_0000 && field[8..] == WordBytes((8 * b) % WRAP)
    ensures field == LengthField(8 * b, 16)
  {
    hide LengthByte;
    forall k | 0 <= k < 16 ensures field[k] == LengthByte(8 * b, 15 - k) {
      if k < 8 {
        TopByte(b, 15 - k);
      } else {
        assert field[k] == field[8..][k - 8];
        LowBytes(8 * b, 15 - k);
      }
    }
    assert field == LengthField(8 * b, 16);
  }

  lemma TopByte(b: nat, k: nat)
    requires b < WRAP && 8 <= k < 16
    ensures LengthByte(8 * b, k) as int == if k == 8 then b / 0x2000_0000_0000_0000 else 0
  {
    var top := b / 0x2000_0000_0000_0000;
    ShiftMore(8 * b, 8, k - 8);
    ShiftEight(8 * b);
    assert 8 * b / WRAP == top < 8;
    if k > 8 {
      assert Shift(top, k - 8) == Shift(top / 256, k - 9);
      ShiftZero(k - 9);
    }
  }

  /** crypto_hash: SHA-512 of every message whose length fits 64 bits. */
  method CryptoHash(m: seq<Byte>) returns (out: seq<Byte>)
    requires |m| < WRAP
    ensures out == Digest(Absorb(IV(), Pad(m, 128, 16)))
  {
    hide Absorb, Digest, Load, IV, LengthField, Gap, IvBytes;
    var start := IvBytes();
    var h := new Byte[64](i requires 0 <= i < 64 => start[i]);
    assert h[..] == start;
    IvIsInitial();
    var left := HashBlocks(h, m);
    var tail := m[|m| - left..];
    var last := LastBlocks(tail, |m|);
    LoadDigest(Absorb(IV(), m));
    var _ := HashBlocks(h, last);
    PaddedFold(m, last);
    out := h[..];
  }

  lemma PaddedFold(m: seq<Byte>, last: seq<Byte>)
    requires last == Tail(m, 128) + [MARK] + Zeros(Gap(|m|, 128, 16)) + LengthField(8 * |m|, 16)
    ensures Absorb(IV(), Pad(m, 128, 16)) == Absorb(Absorb(IV(), m), last)
  {
    hide Absorb, IV, LengthField, Gap, Pad, Zeros;
    Sha512.PadParts(m);
    assert m == Whole(m, 128) + Tail(m, 128);
    AbsorbConcat(IV(), Whole(m, 128), Tail(m, 128));
    AbsorbNone(Absorb(IV(), Whole(m, 128)), Tail(m, 128));
    AbsorbConcat(IV(), Whole(m, 128), last);
  }

  /** Both hash functions of the kernel on one message: they agree below 2^61 bytes whenever the tail
      is at most 111 bytes. */
  method HashesAgree(m: seq<Byte>) returns (first: seq<Byte>, second: seq<Byte>)
    requires |m| < WRAP
    ensures first == Digest(Absorb(IV(), Sha512.Fed(m))) && second == Digest(Absorb(IV(), Pad(m, 128, 16)))
    ensures 8 * |m| < WRAP && |m| % 128 <= 111 ==> first == second
  {
    hide Absorb, Digest, IV, Pad, Sha512.Fed;
    first := Sha512.Sha512Hash(m);
    second := CryptoHash(m);
  }
}
