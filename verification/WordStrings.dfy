/** The word-at-a-time string functions of kernel/string.c against byte-by-byte definitions. Memory
    is an array of bytes indexed by address, made of whole aligned words; a string is an address. */
module WordStrings {
  type Memory = m: seq<bv8> | |m| % 8 == 0

  /** Some NUL follows within the memory. */
  ghost predicate Terminated(m: Memory, s: nat) {
    exists k :: s <= k < |m| && m[k] == 0
  }

  /** Eight bytes as the machine loads them, the first the least significant. */
  function Pack(b0: bv8, b1: bv8, b2: bv8, b3: bv8, b4: bv8, b5: bv8, b6: bv8, b7: bv8): bv64 {
    (b0 as bv64) | ((b1 as bv64) << 8) | ((b2 as bv64) << 16) | ((b3 as bv64) << 24)
    | ((b4 as bv64) << 32) | ((b5 as bv64) << 40) | ((b6 as bv64) << 48) | ((b7 as bv64) << 56)
  }

  function Load(m: Memory, a: nat): bv64
    requires a + 8 <= |m|
  {
    Pack(m[a], m[a + 1], m[a + 2], m[a + 3], m[a + 4], m[a + 5], m[a + 6], m[a + 7])
  }

  function ZeroMask(v: bv64): bv64 { (v - 0x0101010101010101) & !v & 0x8080808080808080 }

  /** The bit trick: the mask is nonzero exactly when one of the bytes is zero. */
  lemma ZeroTrick(b0: bv8, b1: bv8, b2: bv8, b3: bv8, b4: bv8, b5: bv8, b6: bv8, b7: bv8)
    ensures ZeroMask(Pack(b0, b1, b2, b3, b4, b5, b6, b7)) != 0 <==>
            b0 == 0 || b1 == 0 || b2 == 0 || b3 == 0 || b4 == 0 || b5 == 0 || b6 == 0 || b7 == 0
  {}

  lemma HasZero(m: Memory, a: nat)
    requires a + 8 <= |m|
    ensures ZeroMask(Load(m, a)) != 0 <==> exists k :: a <= k < a + 8 && m[k] == 0
  {
    hide Pack, ZeroMask;
    ZeroTrick(m[a], m[a + 1], m[a + 2], m[a + 3], m[a + 4], m[a + 5], m[a + 6], m[a + 7]);
    if k :| a <= k < a + 8 && m[k] == 0 {
      assert k == a || k == a + 1 || k == a + 2 || k == a + 3 || k == a + 4 || k == a + 5 || k == a + 6 || k == a + 7;
    }
  }

  /** Words are equal exactly when their bytes are. */
  lemma SameBytes(b0: bv8, b1: bv8, b2: bv8, b3: bv8, b4: bv8, b5: bv8, b6: bv8, b7: bv8,
                  c0: bv8, c1: bv8, c2: bv8, c3: bv8, c4: bv8, c5: bv8, c6: bv8, c7: bv8)
    ensures Pack(b0, b1, b2, b3, b4, b5, b6, b7) == Pack(c0, c1, c2, c3, c4, c5, c6, c7)
        <==> b0 == c0 && b1 == c1 && b2 == c2 && b3 == c3 && b4 == c4 && b5 == c5 && b6 == c6 && b7 == c7
  {}

  lemma SameWord(m: Memory, a: nat, b: nat)
    requires a + 8 <= |m| && b + 8 <= |m|
    ensures Load(m, a) == Load(m, b) <==> m[a..a + 8] == m[b..b + 8]
  {
    hide Pack;
    SameBytes(m[a], m[a + 1], m[a + 2], m[a + 3], m[a + 4], m[a + 5], m[a + 6], m[a + 7],
              m[b], m[b + 1], m[b + 2], m[b + 3], m[b + 4], m[b + 5], m[b + 6], m[b + 7]);
    var x, y := m[a..a + 8], m[b..b + 8];
    assert x[0] == m[a] && x[1] == m[a + 1] && x[2] == m[a + 2] && x[3] == m[a + 3];
    assert x[4] == m[a + 4] && x[5] == m[a + 5] && x[6] == m[a + 6] && x[7] == m[a + 7];
    assert y[0] == m[b] && y[1] == m[b + 1] && y[2] == m[b + 2] && y[3] == m[b + 3];
    assert y[4] == m[b + 4] && y[5] == m[b + 5] && y[6] == m[b + 6] && y[7] == m[b + 7];
    EightSame(x, y);
  }

  lemma EightSame(x: seq<bv8>, y: seq<bv8>)
    requires |x| == |y| == 8
    ensures x == y <==>
            x[0] == y[0] && x[1] == y[1] && x[2] == y[2] && x[3] == y[3]
            && x[4] == y[4] && x[5] == y[5] && x[6] == y[6] && x[7] == y[7]
  {}

  /** No NUL in the first n bytes. */
  ghost predicate Full(m: Memory, s: nat, n: nat) {
    s + n <= |m| && forall k :: s <= k < s + n ==> m[k] != 0
  }

  /** A string goes on past an aligned address it has reached, so a whole word can be read there. */
  lemma WordFits(m: Memory, s: nat, a: nat)
    requires Terminated(m, s) && s <= a && Full(m, s, a - s)
    ensures a < |m| && Terminated(m, a) && (a % 8 == 0 ==> a + 8 <= |m|)
  {
    var k :| s <= k < |m| && m[k] == 0;
    assert a <= k;
  }

  /** The unrolled tests: the first zero byte of a word known to have one. */
  method FirstZero(m: Memory, a: nat) returns (i: nat)
    requires a + 8 <= |m| && exists k :: a <= k < a + 8 && m[k] == 0
    ensures i < 8 && m[a + i] == 0 && forall k :: a <= k < a + i ==> m[k] != 0
  {
    if m[a] == 0 { return 0; }
    if m[a + 1] == 0 { return 1; }
    if m[a + 2] == 0 { return 2; }
    if m[a + 3] == 0 { return 3; }
    if m[a + 4] == 0 { return 4; }
    if m[a + 5] == 0 { return 5; }
    if m[a + 6] == 0 { return 6; }
    i := 7;
  }

  lemma FullNone(m: Memory, s: nat)
    requires Terminated(m, s) || s <= |m|
    ensures Full(m, s, 0)
  {}

  lemma FullMore(m: Memory, s: nat, n: nat, k: nat)
    requires Full(m, s, n) && s + n + k <= |m| && forall i :: s + n <= i < s + n + k ==> m[i] != 0
    ensures Full(m, s, n + k)
  {}

  /** The bytes a bounded scan may read, one or an aligned word at a time. */
  lemma InReach(m: Memory, s: nat, max: nat, a: nat)
    requires (Terminated(m, s) || s + max <= |m|) && s <= a < s + max && Full(m, s, a - s)
    ensures a < |m| && (a % 8 == 0 && a + 8 <= s + max ==> a + 8 <= |m|)
  {
    if Terminated(m, s) { WordFits(m, s, a); }
  }

  /** strlen */
  method StrLen(m: Memory, s: nat) returns (n: nat)
    requires Terminated(m, s)
    ensures s + n < |m| && m[s + n] == 0 && Full(m, s, n)
  {
    hide Load, ZeroMask;
    var p := s;
    while p % 8 != 0
      invariant s <= p && Full(m, s, p - s)
      decreases |m| - p
    {
      WordFits(m, s, p);
      if m[p] == 0 { return p - s; }
      p := p + 1;
    }
    while true
      invariant s <= p && p % 8 == 0 && Full(m, s, p - s)
      decreases |m| - p
    {
      WordFits(m, s, p);
      HasZero(m, p);
      if ZeroMask(Load(m, p)) != 0 {
        var i := FirstZero(m, p);
        return p - s + i;
      }
      p := p + 8;
    }
  }

  /** strnlen: the length, or max when no NUL comes before. */
  method StrNLen(m: Memory, s: nat, max: nat) returns (n: nat)
    requires Terminated(m, s) || s + max <= |m|
    ensures n <= max && Full(m, s, n) && (n < max ==> s + n < |m| && m[s + n] == 0)
  {
    FullNone(m, s);
    hide Load, ZeroMask, Full, Terminated;
    var p, left := s, max;
    while left > 0 && p % 8 != 0
      invariant s <= p <= s + max && left == max - (p - s) && Full(m, s, p - s)
      decreases left
    {
      InReach(m, s, max, p);
      if m[p] == 0 { return p - s; }
      FullMore(m, s, p - s, 1);
      p, left := p + 1, left - 1;
    }
    if left >= 8 {
      var found;
      found, p := NextZeroWord(m, s, max, p);
      if found {
        var i := FirstZero(m, p);
        FullMore(m, s, p - s, i);
        return p - s + i;
      }
      left := max - (p - s);
    }
    while left > 0
      invariant s <= p <= s + max && left == max - (p - s) && Full(m, s, p - s)
      decreases left
    {
      InReach(m, s, max, p);
      if m[p] == 0 { return p - s; }
      FullMore(m, s, p - s, 1);
      p, left := p + 1, left - 1;
    }
    n := p - s;
  }

  /** The word loop of strnlen: the next aligned word with a NUL, or where fewer than eight bytes are
      left. */
  method NextZeroWord(m: Memory, s: nat, max: nat, start: nat) returns (found: bool, p: nat)
    requires (Terminated(m, s) || s + max <= |m|) && s <= start <= s + max && start % 8 == 0 && Full(m, s, start - s)
    ensures s <= p <= s + max && Full(m, s, p - s)
    ensures found <==> p + 8 <= s + max
    ensures found ==> p + 8 <= |m| && exists k :: p <= k < p + 8 && m[k] == 0
  {
    hide Load, ZeroMask, Full, Terminated;
    p := start;
    while p + 8 <= s + max
      invariant s <= p <= s + max && p % 8 == 0 && Full(m, s, p - s)
    {
      InReach(m, s, max, p);
      HasZero(m, p);
      if ZeroMask(Load(m, p)) != 0 { return true, p; }
      FullMore(m, s, p - s, 8);
      p := p + 8;
    }
    found := false;
  }

  /** The first n bytes agree and none is NUL. */
  ghost predicate Agree(m: Memory, s: nat, t: nat, n: nat) {
    Full(m, s, n) && t + n <= |m| && m[s..s + n] == m[t..t + n]
  }

  /** The place where two strings first differ or both end. */
  ghost predicate Decides(m: Memory, s: nat, t: nat, n: nat) {
    Agree(m, s, t, n) && s + n < |m| && t + n < |m| && (m[s + n] != m[t + n] || m[s + n] == 0)
  }

  /** strcmp: the difference of the bytes at the first place that decides. */
  method StrCmp(m: Memory, s: nat, t: nat) returns (r: int)
    requires Terminated(m, s) && Terminated(m, t)
    ensures exists n: nat :: Decides(m, s, t, n) && r == m[s + n] as int - m[t + n] as int
  {
    hide Full, Agree;
    assert Agree(m, s, t, 0) by { AgreeNone(m, s, t); }
    var n := 0;
    while (s + n) % 8 != 0
      invariant Agree(m, s, t, n)
      decreases |m| - n
    {
      BothGoOn(m, s, t, n);
      if m[s + n] != m[t + n] { assert Decides(m, s, t, n); return m[s + n] as int - m[t + n] as int; }
      if m[s + n] == 0 { assert Decides(m, s, t, n); return 0; }
      AgreeOne(m, s, t, n);
      n := n + 1;
    }
    if (t + n) % 8 == 0 { n := SkipWords(m, s, t, n); }
    BothGoOn(m, s, t, n);
    while m[s + n] != 0 && m[s + n] == m[t + n]
      invariant Agree(m, s, t, n) && s + n < |m| && t + n < |m|
      decreases |m| - n
    {
      AgreeOne(m, s, t, n);
      n := n + 1;
      BothGoOn(m, s, t, n);
    }
    assert Decides(m, s, t, n);
    r := m[s + n] as int - m[t + n] as int;
  }

  lemma AgreeNone(m: Memory, s: nat, t: nat)
    requires s <= |m| && t <= |m|
    ensures Agree(m, s, t, 0)
  {}

  /** The word loop of strcmp. */
  method SkipWords(m: Memory, s: nat, t: nat, start: nat) returns (n: nat)
    requires Terminated(m, s) && Terminated(m, t) && Agree(m, s, t, start) && (s + start) % 8 == (t + start) % 8 == 0
    ensures Agree(m, s, t, n)
  {
    hide Full, Agree;
    n := start;
    while true
      invariant Agree(m, s, t, n) && (s + n) % 8 == (t + n) % 8 == 0
      decreases |m| - n
    {
      BothGoOn(m, s, t, n);
      var same := WordsAgree(m, s + n, t + n);
      if !same { return; }
      AgreeMore(m, s, t, n);
      n := n + 8;
    }
  }

  /** The test of the word loops: no NUL in the first word, and both words equal. */
  method WordsAgree(m: Memory, a: nat, b: nat) returns (same: bool)
    requires a + 8 <= |m| && b + 8 <= |m|
    ensures same ==> Full(m, a, 8) && m[a..a + 8] == m[b..b + 8]
  {
    hide Load, ZeroMask;
    HasZero(m, a);
    SameWord(m, a, b);
    same := !(ZeroMask(Load(m, a)) != 0 || Load(m, a) != Load(m, b));
  }

  lemma AgreeMore(m: Memory, s: nat, t: nat, n: nat)
    requires Agree(m, s, t, n) && Full(m, s + n, 8) && t + n + 8 <= |m|
    requires m[s + n..s + n + 8] == m[t + n..t + n + 8]
    ensures Agree(m, s, t, n + 8)
  {
    assert m[s..s + (n + 8)] == m[s..s + n] + m[s + n..s + n + 8];
    assert m[t..t + (n + 8)] == m[t..t + n] + m[t + n..t + n + 8];
  }

  lemma AgreeOne(m: Memory, s: nat, t: nat, n: nat)
    requires Agree(m, s, t, n) && s + n < |m| && t + n < |m| && m[s + n] == m[t + n] && m[s + n] != 0
    ensures Agree(m, s, t, n + 1)
  {
    assert m[s..s + (n + 1)] == m[s..s + n] + [m[s + n]];
    assert m[t..t + (n + 1)] == m[t..t + n] + [m[t + n]];
  }

  lemma AgreeAt(m: Memory, s: nat, t: nat, n: nat, k: nat)
    requires Agree(m, s, t, n) && k < n
    ensures m[s + k] == m[t + k] && m[s + k] != 0
  {
    assert m[s..s + n][k] == m[t..t + n][k];
  }

  lemma BothGoOn(m: Memory, s: nat, t: nat, n: nat)
    requires Terminated(m, s) && Terminated(m, t) && Agree(m, s, t, n)
    ensures s + n < |m| && t + n < |m| && ((s + n) % 8 == 0 ==> s + n + 8 <= |m|) && ((t + n) % 8 == 0 ==> t + n + 8 <= |m|)
  {
    WordFits(m, s, s + n);
    forall k | t <= k < t + n ensures m[k] != 0 { AgreeAt(m, s, t, n, k - t); }
    WordFits(m, t, t + n);
  }

  /** There is only one such place, so the result is determined by the two strings. */
  lemma DecidesOnce(m: Memory, s: nat, t: nat, i: nat, j: nat)
    requires Decides(m, s, t, i) && Decides(m, s, t, j)
    ensures i == j
  {
    if i < j { AgreeAt(m, s, t, j, i); }
    if j < i { AgreeAt(m, s, t, i, j); }
  }

  /** The bytes from s on can be read as far as the comparison of n bytes goes. */
  ghost predicate Within(m: Memory, s: nat, n: nat) { Terminated(m, s) || s + n <= |m| }

  lemma OneGoesOn(m: Memory, s: nat, n: nat, k: nat)
    requires Within(m, s, n) && Full(m, s, k) && k < n
    ensures s + k < |m| && ((s + k) % 8 == 0 && k + 8 <= n ==> s + k + 8 <= |m|)
  {
    if Terminated(m, s) { WordFits(m, s, s + k); }
  }

  lemma BothWithin(m: Memory, s: nat, t: nat, n: nat, k: nat)
    requires Within(m, s, n) && Within(m, t, n) && Agree(m, s, t, k) && k < n
    ensures s + k < |m| && t + k < |m|
    ensures k + 8 <= n && (s + k) % 8 == 0 ==> s + k + 8 <= |m|
    ensures k + 8 <= n && (t + k) % 8 == 0 ==> t + k + 8 <= |m|
  {
    OneGoesOn(m, s, n, k);
    forall i | t <= i < t + k ensures m[i] != 0 { AgreeAt(m, s, t, k, i - t); }
    OneGoesOn(m, t, n, k);
  }

  /** strncmp: zero when the first n bytes agree, else the difference at the place that decides. */
  method StrNCmp(m: Memory, s: nat, t: nat, n: nat) returns (r: int)
    requires Within(m, s, n) && Within(m, t, n) && s <= |m| && t <= |m|
    ensures (r == 0 && Agree(m, s, t, n)) || exists k: nat :: k < n && Decides(m, s, t, k) && r == m[s + k] as int - m[t + k] as int
  {
    hide Full, Agree, Within;
    AgreeNone(m, s, t);
    if n == 0 { return 0; }
    var k := 0;
    while k < n && (s + k) % 8 != 0
      invariant k <= n && Agree(m, s, t, k)
    {
      BothWithin(m, s, t, n, k);
      if m[s + k] != m[t + k] { assert Decides(m, s, t, k); return m[s + k] as int - m[t + k] as int; }
      if m[s + k] == 0 { assert Decides(m, s, t, k); return 0; }
      AgreeOne(m, s, t, k);
      k := k + 1;
    }
    if n - k >= 8 && (t + k) % 8 == 0 { k := SkipSome(m, s, t, n, k); }
    k := SkipBytes(m, s, t, n, k);
    if k == n { return 0; }
    r := m[s + k] as int - m[t + k] as int;
  }

  /** The word loop of strncmp. */
  method SkipSome(m: Memory, s: nat, t: nat, n: nat, start: nat) returns (k: nat)
    requires Within(m, s, n) && Within(m, t, n) && Agree(m, s, t, start) && start <= n
    requires (s + start) % 8 == (t + start) % 8 == 0
    ensures k <= n && Agree(m, s, t, k)
  {
    hide Full, Agree, Within;
    k := start;
    while n - k >= 8
      invariant k <= n && Agree(m, s, t, k)
      invariant (s + k) % 8 == (t + k) % 8 == 0
    {
      BothWithin(m, s, t, n, k);
      var same := WordsAgree(m, s + k, t + k);
      if !same { return; }
      AgreeMore(m, s, t, k);
      WordOn(s + k);
      WordOn(t + k);
      k := k + 8;
    }
  }

  lemma WordOn(a: nat)
    requires a % 8 == 0
    ensures (a + 8) % 8 == 0
  {}

  /** The byte loop of strncmp. */
  method SkipBytes(m: Memory, s: nat, t: nat, n: nat, start: nat) returns (k: nat)
    requires Within(m, s, n) && Within(m, t, n) && Agree(m, s, t, start) && start <= n
    ensures k <= n && Agree(m, s, t, k) && (k < n ==> Decides(m, s, t, k))
  {
    hide Full, Agree, Within;
    k := start;
    while k < n
      invariant k <= n && Agree(m, s, t, k)
    {
      BothWithin(m, s, t, n, k);
      if m[s + k] == 0 || m[s + k] != m[t + k] { return; }
      AgreeOne(m, s, t, k);
      k := k + 1;
    }
  }

  /** A byte repeated in every place of a word. */
  function Pattern(c: bv8): bv64 { (c as bv64) * 0x0101010101010101 }

  function Xor(v: bv64, w: bv64): bv64 { v ^ w }
  function Low(v: bv64): bv64 { v & 0xFF }
  function Drop(v: bv64): bv64 { v >> 8 }

  /** Byte k of a word. */
  function Part(v: bv64, k: nat): bv64 {
    if k == 0 then Low(v) else Part(Drop(v), k - 1)
  }

  lemma LowXor(v: bv64, w: bv64)
    ensures Low(Xor(v, w)) == 0 <==> Low(v) == Low(w)
  {}

  lemma DropXor(v: bv64, w: bv64)
    ensures Drop(Xor(v, w)) == Xor(Drop(v), Drop(w))
  {}

  /** A byte of the exclusive or is zero exactly where the two words agree. */
  lemma {:induction false} PartXor(v: bv64, w: bv64, k: nat)
    ensures Part(Xor(v, w), k) == 0 <==> Part(v, k) == Part(w, k)
    decreases k
  {
    hide Xor, Low, Drop;
    LowXor(v, w);
    DropXor(v, w);
    if k > 0 { PartXor(Drop(v), Drop(w), k - 1); }
  }

  lemma PackFirst(b0: bv8, b1: bv8, b2: bv8, b3: bv8, b4: bv8, b5: bv8, b6: bv8, b7: bv8)
    ensures Low(Pack(b0, b1, b2, b3, b4, b5, b6, b7)) == b0 as bv64
    ensures Drop(Pack(b0, b1, b2, b3, b4, b5, b6, b7)) == Pack(b1, b2, b3, b4, b5, b6, b7, 0)
  {}

  /** The bytes of a packed word. */
  lemma {:induction false} PackPart(b: seq<bv8>, k: nat)
    requires |b| == 8 && k < 8
    ensures Part(Pack(b[0], b[1], b[2], b[3], b[4], b[5], b[6], b[7]), k) == b[k] as bv64
    decreases k
  {
    hide Pack, Low, Drop;
    PackFirst(b[0], b[1], b[2], b[3], b[4], b[5], b[6], b[7]);
    if k > 0 { PackPart(b[1..] + [0], k - 1); }
  }

  lemma PatternBytes(c: bv8)
    ensures (c as bv64) * 0x0101010101010101
         == (c as bv64) | ((c as bv64) << 8) | ((c as bv64) << 16) | ((c as bv64) << 24)
            | ((c as bv64) << 32) | ((c as bv64) << 40) | ((c as bv64) << 48) | ((c as bv64) << 56)
  {}

  lemma PatternPart(c: bv8, k: nat)
    requires k < 8
    ensures Part(Pattern(c), k) == c as bv64
  {
    hide Part;
    PatternBytes(c);
    PackPart([c, c, c, c, c, c, c, c], k);
  }

  /** The zero test in terms of the bytes of the word. */
  lemma ZeroPart(v: bv64)
    ensures ZeroMask(v) != 0 <==> exists k: nat :: k < 8 && Part(v, k) == 0
  {
    hide ZeroMask, Low, Drop, Part;
    ZeroLow(v);
    PartsOf(v);
    if k: nat :| k < 8 && Part(v, k) == 0 {
      assert k == 0 || k == 1 || k == 2 || k == 3 || k == 4 || k == 5 || k == 6 || k == 7;
    }
  }

  lemma PartsOf(v: bv64)
    ensures var w := Drop(Drop(v)); var x := Drop(Drop(w)); var y := Drop(Drop(x));
            && Part(v, 0) == Low(v) && Part(v, 1) == Low(Drop(v)) && Part(v, 2) == Low(w) && Part(v, 3) == Low(Drop(w))
            && Part(v, 4) == Low(x) && Part(v, 5) == Low(Drop(x)) && Part(v, 6) == Low(y) && Part(v, 7) == Low(Drop(y))
  {
    hide Low, Drop, Part;
    var w := Drop(Drop(v));
    var x := Drop(Drop(w));
    var y := Drop(Drop(x));
    PartTwo(v, 0);
    PartTwo(v, 1);
    PartTwo(v, 2);
    PartTwo(v, 3);
    PartTwo(v, 4);
    PartTwo(v, 5);
    PartTwo(w, 0);
    PartTwo(w, 1);
    PartTwo(w, 2);
    PartTwo(w, 3);
    PartTwo(x, 0);
    PartTwo(x, 1);
    PartTwo(y, 0);
  }

  lemma PartTwo(v: bv64, k: nat)
    ensures Part(v, k + 2) == Part(Drop(Drop(v)), k) && Part(v, 0) == Low(v) && Part(v, 1) == Low(Drop(v))
  {
    hide Low, Drop;
    assert Part(v, k + 2) == Part(Drop(v), k + 1);
    assert Part(v, 1) == Part(Drop(v), 0);
  }

  lemma ZeroLow(v: bv64)
    ensures var w := Drop(Drop(v)); var x := Drop(Drop(w)); var y := Drop(Drop(x));
            ZeroMask(v) != 0 <==> Low(v) == 0 || Low(Drop(v)) == 0 || Low(w) == 0 || Low(Drop(w)) == 0
                                  || Low(x) == 0 || Low(Drop(x)) == 0 || Low(y) == 0 || Low(Drop(y)) == 0
  {}

  lemma Widened(b: bv8, c: bv8)
    ensures b as bv64 == c as bv64 <==> b == c
  {}

  lemma PartLoad(m: Memory, a: nat, k: nat)
    requires a + 8 <= |m| && k < 8
    ensures Part(Load(m, a), k) == m[a + k] as bv64
  {
    hide Part, Pack;
    var b := m[a..a + 8];
    assert b[0] == m[a] && b[1] == m[a + 1] && b[2] == m[a + 2] && b[3] == m[a + 3];
    assert b[4] == m[a + 4] && b[5] == m[a + 5] && b[6] == m[a + 6] && b[7] == m[a + 7];
    PackPart(b, k);
  }

  lemma PartMatch(m: Memory, a: nat, c: bv8, k: nat)
    requires a + 8 <= |m| && k < 8
    ensures Part(Xor(Load(m, a), Pattern(c)), k) == 0 <==> m[a + k] == c
  {
    hide Part, Load, Pattern, Xor;
    PartXor(Load(m, a), Pattern(c), k);
    PartLoad(m, a, k);
    PatternPart(c, k);
    Widened(m[a + k], c);
  }

  lemma ZeroFound(v: bv64, k: nat)
    requires k < 8 && Part(v, k) == 0
    ensures ZeroMask(v) != 0
  {
    hide Part, ZeroMask;
    ZeroPart(v);
  }

  /** The match test of strchr: some byte of the word is c. */
  lemma HasByte(m: Memory, a: nat, c: bv8)
    requires a + 8 <= |m|
    ensures ZeroMask(Xor(Load(m, a), Pattern(c))) != 0 <==> exists k :: a <= k < a + 8 && m[k] == c
  {
    hide Part, Load, Pattern, ZeroMask, Xor;
    var x := Xor(Load(m, a), Pattern(c));
    ZeroPart(x);
    forall k: nat | k < 8 ensures Part(x, k) == 0 <==> m[a + k] == c { PartMatch(m, a, c, k); }
    if ZeroMask(x) != 0 {
      var k: nat :| k < 8 && Part(x, k) == 0;
      assert m[a + k] == c;
    }
    if k :| a <= k < a + 8 && m[k] == c {
      PartMatch(m, a, c, k - a);
      ZeroFound(x, k - a);
    }
  }

  /** Neither NUL nor c in the first n bytes. */
  ghost predicate Lacks(m: Memory, s: nat, n: nat, c: bv8) {
    s + n <= |m| && forall k :: s <= k < s + n ==> m[k] != 0 && m[k] != c
  }

  /** The unrolled tests of strchr on a word that has a NUL or c in it. */
  method FirstOf(m: Memory, a: nat, c: bv8) returns (i: nat)
    requires a + 8 <= |m| && exists k :: a <= k < a + 8 && (m[k] == 0 || m[k] == c)
    ensures i < 8 && (m[a + i] == 0 || m[a + i] == c) && Lacks(m, a, i, c)
  {
    if m[a] == c || m[a] == 0 { return 0; }
    if m[a + 1] == c || m[a + 1] == 0 { return 1; }
    if m[a + 2] == c || m[a + 2] == 0 { return 2; }
    if m[a + 3] == c || m[a + 3] == 0 { return 3; }
    if m[a + 4] == c || m[a + 4] == 0 { return 4; }
    if m[a + 5] == c || m[a + 5] == 0 { return 5; }
    if m[a + 6] == c || m[a + 6] == 0 { return 6; }
    i := 7;
  }

  /** strchr: the first c of the string, its NUL included; not found when the NUL comes first. */
  method StrChr(m: Memory, s: nat, c: bv8) returns (found: bool, a: nat)
    requires Terminated(m, s)
    ensures s <= a < |m| && Lacks(m, s, a - s, c) && (m[a] == c || m[a] == 0) && (found <==> m[a] == c)
  {
    hide Load, ZeroMask, Pattern, Xor;
    if c == 0 {
      var n := StrLen(m, s);
      return true, s + n;
    }
    a := s;
    while a % 8 != 0
      invariant s <= a && Lacks(m, s, a - s, c)
      decreases |m| - a
    {
      WordFits(m, s, a);
      if m[a] == c { return true, a; }
      if m[a] == 0 { return false, a; }
      a := a + 1;
    }
    while true
      invariant s <= a && a % 8 == 0 && Lacks(m, s, a - s, c)
      decreases |m| - a
    {
      WordFits(m, s, a);
      HasZero(m, a);
      HasByte(m, a, c);
      var v := Load(m, a);
      if ZeroMask(v) != 0 || ZeroMask(Xor(v, Pattern(c))) != 0 {
        var i := FirstOf(m, a, c);
        a := a + i;
        return m[a] == c, a;
      }
      a := a + 8;
    }
  }
}
