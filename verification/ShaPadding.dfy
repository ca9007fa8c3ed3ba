/** Message padding of sections 5.1.1 and 5.1.2 of FIPS 180-4: a one bit, zeros, and the length in
    bits as a big-endian field, up to a whole number of blocks. */
module ShaPadding {
  import opened Basics
  import opened Radix

  const MARK: Byte := 0x80
  const WRAP: nat := 0x1_0000_0000_0000_0000

  /** x shifted right by k bytes. */
  function Shift(x: nat, k: nat): (r: nat)
    ensures r <= x
  {
    if k == 0 then x else Shift(x / 256, k - 1)
  }

  function LengthByte(bits: nat, k: nat): Byte { Shift(bits, k) % 256 }

  /** The low bytes of a length, most significant first. */
  function LengthField(bits: nat, size: nat): (r: seq<Byte>)
    ensures |r| == size
  {
    seq(size, j requires 0 <= j < size => LengthByte(bits, size - 1 - j))
  }

  /** The least number of zeros that completes a block. */
  function Gap(n: nat, block: nat, field: nat): (k: nat)
    requires block > 0
    ensures k < block && (n + 1 + k + field) % block == 0
  {
    var k := (block - (n + 1 + field) % block) % block;
    GapFills(n + 1 + field, block, k);
    k
  }

  lemma GapFills(x: nat, block: nat, k: nat)
    requires block > 0 && k == (block - x % block) % block
    ensures (x + k) % block == 0
  {
    var r := x % block;
    if r == 0 {
      assert k == 0;
    } else {
      assert k == block - r;
      assert x + k == block * (x / block + 1);
      DivModUnique(x + k, block, x / block + 1, 0);
    }
  }

  function Pad(m: seq<Byte>, block: nat, field: nat): (r: seq<Byte>)
    requires block > 0
    ensures |r| == |m| + 1 + Gap(|m|, block, field) + field
  {
    m + [MARK] + Zeros(Gap(|m|, block, field)) + LengthField(8 * |m|, field)
  }

  /** The first n bytes at i as a big-endian number. */
  function Number(s: seq<Byte>, i: nat, n: nat): (r: nat)
    requires i + n <= |s|
  {
    if n == 0 then 0 else 256 * Number(s, i, n - 1) + s[i + n - 1] as int
  }

  lemma {:induction false} NumberBound(s: seq<Byte>, i: nat, n: nat)
    requires i + n <= |s|
    ensures Number(s, i, n) < Modulus(n)
  {
    if n > 0 { NumberBound(s, i, n - 1); }
  }

  /** The first n of the bytes are the number without its low 8 - n bytes. */
  lemma {:induction false} NumberOfBytes(x: nat, size: nat, n: nat)
    requires n <= size && Shift(x, size) == 0
    ensures Number(LengthField(x, size), 0, n) == Shift(x, size - n)
  {
    if n > 0 {
      NumberOfBytes(x, size, n - 1);
      ShiftMore(x, size - n, 1);
      var y := Shift(x, size - n);
      assert Shift(y, 1) == Shift(y / 256, 0) == y / 256;
      assert size - 1 - (n - 1) == size - n;
      assert LengthField(x, size)[n - 1] == LengthByte(x, size - n) == y % 256;
    }
  }

  lemma {:induction false} ShiftSmall(x: nat, n: nat)
    requires x < Modulus(n)
    ensures Shift(x, n) == 0
  {
    if n > 0 { ShiftSmall(x / 256, n - 1); }
  }

  lemma {:induction false} NumberSlice(x: seq<Byte>, i: nat, w: nat, n: nat)
    requires i + w <= |x| && n <= w
    ensures Number(x, i, n) == Number(x[i..i + w], 0, n)
  {
    if n > 0 { NumberSlice(x, i, w, n - 1); }
  }

  /** The padding of section 5.1 of FIPS 180-4: the message, a one bit, as few zeros as fill a block
      together with the rest, and the length in bits as a big-endian number. */
  lemma PadMeans(m: seq<Byte>, block: nat, field: nat)
    requires block > 0 && 8 * |m| < Modulus(field)
    ensures var r := Pad(m, block, field); var k := |r| - |m| - 1 - field;
            && 0 <= k < block && |r| % block == 0
            && r[..|m|] == m && r[|m|] == 0x80 && (forall i :: |m| < i < |m| + 1 + k ==> r[i] == 0)
            && Number(r, |m| + 1 + k, field) == 8 * |m|
  {
    hide LengthField, Modulus;
    var r := Pad(m, block, field);
    var at := |r| - field;
    ShiftSmall(8 * |m|, field);
    NumberOfBytes(8 * |m|, field, field);
    NumberSlice(r, at, field, field);
    assert r[at..at + field] == LengthField(8 * |m|, field);
  }

  /** The upper half of a 16-byte field is zero for lengths below 2^64 bits. */
  lemma UpperZero(bits: nat, k: nat)
    requires bits < 0x1_0000_0000_0000_0000 && k >= 8
    ensures LengthByte(bits, k) == 0
  {
    ShiftMore(bits, 8, k - 8);
    ShiftEight(bits);
    ShiftZero(k - 8);
  }

  lemma ShiftEight(x: nat)
    ensures Shift(x, 8) == x / 0x1_0000_0000_0000_0000
  {
    ShiftMore(x, 4, 4);
    ShiftFour(x);
    ShiftFour(x / 0x1_0000_0000);
  }

  lemma ShiftFour(x: nat)
    ensures Shift(x, 4) == x / 0x1_0000_0000
  {
    assert Shift(x, 4) == Shift(x / 256, 3) == Shift(x / 256 / 256, 2);
    assert Shift(x / 256 / 256, 2) == Shift(x / 256 / 256 / 256, 1) == Shift(x / 256 / 256 / 256 / 256, 0);
  }

  lemma {:induction false} ShiftMore(x: nat, j: nat, k: nat)
    ensures Shift(x, j + k) == Shift(Shift(x, j), k)
    decreases j
  {
    if j > 0 { ShiftMore(x / 256, j - 1, k); }
  }

  lemma {:induction false} ShiftZero(k: nat)
    ensures Shift(0, k) == 0
  {
    if k > 0 { ShiftZero(k - 1); }
  }

  /** Reducing the length to 64 bits leaves its low eight bytes alone. */
  lemma LowBytes(bits: nat, k: nat)
    requires k < 8
    ensures LengthByte(bits % 0x1_0000_0000_0000_0000, k) == LengthByte(bits, k)
  {
    ShiftMod(bits, k, 8);
  }

  /** x mod 256^n, by bytes. */
  function Modulus(n: nat): (r: nat)
    ensures r > 0
  {
    if n == 0 then 1 else 256 * Modulus(n - 1)
  }

  lemma {:induction false} ShiftMod(x: nat, k: nat, n: nat)
    requires k < n
    ensures Shift(x % Modulus(n), k) % 256 == Shift(x, k) % 256
    ensures Modulus(8) == 0x1_0000_0000_0000_0000
    decreases k
  {
    var m := Modulus(n - 1);
    if k == 0 {
      ModOfMod(x, m);
    } else {
      ModQuotient(x, m);
      ShiftMod(x / 256, k - 1, n - 1);
    }
  }

  lemma EightBytes()
    ensures Modulus(8) == 0x1_0000_0000_0000_0000
  {
    assert Modulus(4) == 256 * Modulus(3) == 256 * 256 * Modulus(2);
    assert Modulus(8) == 256 * Modulus(7) == 256 * 256 * Modulus(6) == 256 * 256 * 256 * Modulus(5);
  }

  lemma ModOfMod(x: nat, m: nat)
    requires m > 0
    ensures (x % (256 * m)) % 256 == x % 256
  {
    var q := x / (256 * m);
    assert x == 256 * (m * q) + x % (256 * m);
  }

  lemma ModQuotient(x: nat, m: nat)
    requires m > 0
    ensures (x % (256 * m)) / 256 == (x / 256) % m
  {
    var q, r := x / (256 * m), x % (256 * m);
    assert x == 256 * (m * q) + r;
    assert x / 256 == m * q + r / 256;
    assert r / 256 < m;
    DivModUnique(x / 256, m, q, r / 256);
  }

  /** The whole blocks of a message, and what is left over. */
  function Whole(m: seq<Byte>, block: nat): (r: seq<Byte>)
    requires block > 0
    ensures |r| == |m| - |m| % block
  {
    m[..|m| - |m| % block]
  }

  function Tail(m: seq<Byte>, block: nat): (r: seq<Byte>)
    requires block > 0
    ensures |r| == |m| % block
  {
    m[|m| - |m| % block..]
  }

  lemma CountUp(n: nat, block: nat)
    requires block > 1
    ensures (n + 1) % block == if n % block == block - 1 then 0 else n % block + 1
  {
    if n % block == block - 1 {
      DivModUnique(n + 1, block, n / block + 1, 0);
    } else {
      DivModUnique(n + 1, block, n / block, n % block + 1);
    }
  }

  /** One more byte that does not complete a block. */
  lemma ByteGrows(m: seq<Byte>, b: Byte, block: nat)
    requires block > 1 && |m| % block < block - 1
    ensures |m + [b]| % block == |m| % block + 1
    ensures Tail(m + [b], block) == Tail(m, block) + [b] && Whole(m + [b], block) == Whole(m, block)
  {
    CountUp(|m|, block);
    Cut(m, b, |m| - |m| % block);
  }

  /** One more byte that does. */
  lemma ByteFills(m: seq<Byte>, b: Byte, block: nat)
    requires block > 1 && |m| % block == block - 1
    ensures |m + [b]| % block == 0
    ensures Tail(m + [b], block) == [] && Whole(m + [b], block) == Whole(m, block) + (Tail(m, block) + [b])
  {
    CountUp(|m|, block);
    Cut(m, b, |m| - |m| % block);
  }

  lemma Cut(m: seq<Byte>, b: Byte, c: nat)
    requires c <= |m|
    ensures (m + [b])[c..] == m[c..] + [b] && (m + [b])[..c] == m[..c]
    ensures (m + [b])[|m| + 1..] == [] && (m + [b])[..|m| + 1] == m[..c] + (m[c..] + [b])
  {}

  /** Adding the bits of the last r bytes, modulo 2^64. */
  lemma LengthWraps(n: nat, r: nat)
    requires r <= n
    ensures ((8 * (n - r)) % WRAP + r * 8) % WRAP == (8 * n) % WRAP
  {}
}
