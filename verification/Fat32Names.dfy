/** 8.3 names: what a path component becomes on disk, and back. */
module Fat32Names {
  import opened Basics
  import opened Fat32Directory

  const SPACE: Byte := 0x20

  function Upper(c: Byte): Byte { if 0x61 <= c <= 0x7A then c - 32 else c }

  function UpperAll(s: seq<Byte>): (r: seq<Byte>)
    ensures |r| == |s| && forall i :: 0 <= i < |s| ==> r[i] == Upper(s[i])
  {
    if |s| == 0 then [] else [Upper(s[0])] + UpperAll(s[1..])
  }

  /** What comes before the first dot. */
  function Base(s: seq<Byte>): seq<Byte> {
    if |s| == 0 || s[0] == DOT then [] else [s[0]] + Base(s[1..])
  }

  /** What comes after the first dot, if there is one. */
  function Extension(s: seq<Byte>): seq<Byte> {
    if |s| == 0 then [] else if s[0] == DOT then s[1..] else Extension(s[1..])
  }

  /** The first n characters in upper case, filled up with spaces. */
  function Field(s: seq<Byte>, n: nat): (r: seq<Byte>)
    ensures |r| == n
  {
    if |s| <= n then UpperAll(s) + seq(n - |s|, _ => SPACE) else UpperAll(s[..n])
  }

  function DosName(s: seq<Byte>): Name { Field(Base(s), 8) + Field(Extension(s), 3) }

  lemma {:induction false} BaseSplit(s: seq<Byte>)
    ensures DOT !in Base(s) && |Base(s)| <= |s|
    ensures s == Base(s) + (if |Base(s)| < |s| then [DOT] + Extension(s) else [])
    ensures |Base(s)| == |s| ==> Extension(s) == []
  {
    if |s| > 0 && s[0] != DOT {
      BaseSplit(s[1..]);
      assert s == [s[0]] + s[1..];
    } else if |s| > 0 {
      assert s == [s[0]] + s[1..];
    }
  }

  /** No path component maps onto a "." or ".." entry or onto an end marker. */
  lemma DosNameProper(s: seq<Byte>)
    requires 0 !in s
    ensures DosName(s)[0] != DOT && DosName(s)[0] != END
  {
    BaseSplit(s);
    if Base(s) != [] {
      assert Base(s)[0] in Base(s);
      assert Base(s)[0] == s[0];
      assert s[0] in s;
    }
  }

  /** What stands at each place, the first dot (0x2E) being at place j: at most eight characters before it
      and three behind it, lower-case letters (0x61 to 0x7A) raised by 0x20, and spaces (0x20). */
  lemma DosNameMeans(s: seq<Byte>, j: nat, i: nat)
    requires j <= |s| && 0x2E !in s[..j] && (j < |s| ==> s[j] == 0x2E) && i < 11
    ensures DosName(s)[i] ==
              var at := if i < 8 then i else j + 1 + (i - 8);
              if at < (if i < 8 then j else |s|) then (if 0x61 <= s[at] <= 0x7A then s[at] - 0x20 else s[at]) else 0x20
  {
    BaseIs(s, j);
  }

  lemma BaseIs(s: seq<Byte>, j: nat)
    requires j <= |s| && DOT !in s[..j] && (j < |s| ==> s[j] == DOT)
    ensures Base(s) == s[..j] && Extension(s) == if j < |s| then s[j + 1..] else []
  {
    assert s == s[..j] + s[j..];
    BaseOf(s[..j], s[j..]);
  }

  /** The first loop of fat32_to_dos_name, and the skip to the dot. */
  method CopyBase(out: array<Byte>, name: seq<Byte>) returns (i: nat)
    requires out.Length == 11 && forall b :: 0 <= b < 11 ==> out[b] == SPACE
    modifies out
    ensures i == |Base(name)|
    ensures out[..8] == Field(Base(name), 8)
    ensures forall b :: 8 <= b < 11 ==> out[b] == SPACE
  {
    BaseSplit(name);
    ghost var base := Base(name);
    i := 0;
    var j := 0;
    while i < |name| && name[i] != DOT && j < 8
      invariant 0 <= i <= |base| && j == i && j <= 8
      invariant forall b :: 0 <= b < j ==> out[b] == Upper(base[b])
      invariant forall b :: j <= b < 11 ==> out[b] == SPACE
    {
      assert name[i] == base[i];
      out[j] := Upper(name[i]);
      i, j := i + 1, j + 1;
    }
    while i < |name| && name[i] != DOT
      invariant j <= i <= |base| && (j == 8 || i == |base|)
    {
      i := i + 1;
    }
  }

  /** The second loop of fat32_to_dos_name, from behind the dot. */
  method CopyExtension(out: array<Byte>, name: seq<Byte>, start: nat)
    requires out.Length == 11 && start <= |name| && forall b :: 8 <= b < 11 ==> out[b] == SPACE
    modifies out
    ensures out[..8] == old(out[..8]) && out[8..] == Field(name[start..], 3)
  {
    ghost var ext := name[start..];
    var i, j := start, 8;
    while i < |name| && j < 11
      invariant start <= i <= |name| && 8 <= j <= 11 && j - 8 == i - start
      invariant forall b :: 0 <= b < 8 ==> out[b] == old(out[b])
      invariant forall b :: 8 <= b < j ==> out[b] == Upper(ext[b - 8])
      invariant forall b :: j <= b < 11 ==> out[b] == SPACE
    {
      out[j] := Upper(name[i]);
      i, j := i + 1, j + 1;
    }
  }

  /** fat32_to_dos_name */
  method ToDosName(name: seq<Byte>) returns (dos: Name)
    ensures dos == DosName(name)
  {
    BaseSplit(name);
    var out := new Byte[11](_ => SPACE);
    var i := CopyBase(out, name);
    if i < |name| {
      CopyExtension(out, name, i + 1);
      assert name[i + 1..] == Extension(name);
    } else {
      assert out[8..] == Field([], 3);
    }
    dos := out[..];
    assert out[..] == out[..8] + out[8..];
  }

  /** What comes before the first space. */
  function Trim(s: seq<Byte>): (r: seq<Byte>)
    ensures |r| <= |s| && r == s[..|r|] && SPACE !in r && (|r| < |s| ==> s[|r|] == SPACE)
  {
    if |s| == 0 || s[0] == SPACE then [] else [s[0]] + Trim(s[1..])
  }

  /** The name shown for an entry. */
  function Shown(n: Name): seq<Byte> {
    Trim(n[..8]) + if n[8] == SPACE then [] else [DOT] + Trim(n[8..])
  }

  /** The loop of fat32_get_name over one field. */
  method CopyField(n: Name, start: nat, end: nat) returns (s: seq<Byte>)
    requires start <= end <= 11
    ensures s == Trim(n[start..end])
  {
    hide Trim;
    ghost var f := n[start..end];
    s := [];
    var i := start;
    while i < end && n[i] != SPACE
      invariant start <= i <= end && s == f[..i - start] && SPACE !in s
    {
      assert n[i] == f[i - start];
      s := s + [n[i]];
      i := i + 1;
      assert f[..i - start] == f[..i - 1 - start] + [f[i - 1 - start]];
    }
    assert i < end ==> n[i] == f[i - start];
    TrimIs(f, i - start);
  }

  lemma {:induction false} TrimIs(s: seq<Byte>, k: nat)
    requires k <= |s| && SPACE !in s[..k] && (k < |s| ==> s[k] == SPACE)
    ensures Trim(s) == s[..k]
  {
    if k > 0 {
      assert s[0] in s[..k];
      assert s[1..][..k - 1] == s[1..k];
      forall x | x in s[1..k] ensures x in s[..k] {}
      TrimIs(s[1..], k - 1);
    }
  }

  /** fat32_get_name */
  method GetName(n: Name) returns (s: seq<Byte>)
    ensures s == Shown(n)
  {
    s := CopyField(n, 0, 8);
    assert n[0..8] == n[..8] && n[8..11] == n[8..];
    if n[8] != SPACE {
      var ext := CopyField(n, 8, 11);
      s := s + [DOT] + ext;
    }
  }

  /** Nothing but spaces behind the first space. */
  predicate Flush(s: seq<Byte>) { forall i :: |Trim(s)| <= i < |s| ==> s[i] == SPACE }

  predicate NoLower(s: seq<Byte>) { forall i :: 0 <= i < |s| ==> Upper(s[i]) == s[i] }

  /** A name as the driver itself writes it. */
  predicate Canonical(n: Name) { Flush(n[..8]) && Flush(n[8..]) && NoLower(n) && DOT !in n[..8] }

  /** Showing an entry's name and looking that up finds the entry exactly when the name is canonical. */
  lemma NameRoundTrip(n: Name)
    ensures DosName(Shown(n)) == n <==> Canonical(n)
  {
    hide Field;
    var b, e := Trim(n[..8]), Trim(n[8..]);
    var s := Shown(n);
    BaseSplit(s);
    if DOT in b {
      var i :| 0 <= i < |b| && b[i] == DOT;
      assert n[..8][i] == DOT;
      FieldNoDot(Base(s), 8, i);
      assert DosName(s)[..8][i] != n[..8][i];
    } else {
      assert n[8] == n[8..][0];
      assert n[8] == SPACE ==> e == [];
      BaseOf(b, if n[8] == SPACE then [] else [DOT] + e);
      assert DosName(s) == Field(b, 8) + Field(e, 3);
      FieldOf(n[..8]);
      FieldOf(n[8..]);
      Halves(n, Field(b, 8), Field(e, 3));
      if Flush(n[..8]) { FlushNoDot(n[..8]); }
    }
  }

  lemma Halves(n: Name, p: seq<Byte>, q: seq<Byte>)
    requires |p| == 8 && |q| == 3
    ensures p + q == n <==> p == n[..8] && q == n[8..]
    ensures NoLower(n) <==> NoLower(n[..8]) && NoLower(n[8..])
  {
    assert n == n[..8] + n[8..];
    assert (p + q)[..8] == p && (p + q)[8..] == q;
    if NoLower(n[..8]) && NoLower(n[8..]) {
      forall i | 0 <= i < 11 ensures Upper(n[i]) == n[i] {
        assert if i < 8 then n[..8][i] == n[i] else n[8..][i - 8] == n[i];
      }
    }
  }

  /** A field is what its own trimmed text would be written as exactly when it is flush and upper case. */
  lemma FieldOf(f: seq<Byte>)
    ensures Field(Trim(f), |f|) == f <==> Flush(f) && NoLower(f)
  {
    var t := Trim(f);
    forall i | 0 <= i < |f| ensures Field(t, |f|)[i] == if i < |t| then Upper(f[i]) else SPACE {
      if i < |t| { assert t[i] == f[i]; }
    }
    assert Upper(SPACE) == SPACE;
    if Field(t, |f|) == f {
      forall i | 0 <= i < |f| ensures Upper(f[i]) == f[i] { assert Field(t, |f|)[i] == f[i]; }
    }
    if Flush(f) && NoLower(f) {
      assert Field(t, |f|) == f;
    }
  }

  lemma FieldNoDot(x: seq<Byte>, n: nat, i: nat)
    requires DOT !in x && i < n
    ensures Field(x, n)[i] != DOT
  {
    if i < |x| { assert x[i] in x; }
  }

  lemma FlushNoDot(f: seq<Byte>)
    requires Flush(f) && DOT !in Trim(f)
    ensures DOT !in f
  {
    forall i | 0 <= i < |f| ensures f[i] != DOT {
      if i < |Trim(f)| { assert Trim(f)[i] in Trim(f); }
    }
  }

  lemma {:induction false} BaseOf(b: seq<Byte>, t: seq<Byte>)
    requires DOT !in b && (t != [] ==> t[0] == DOT)
    ensures Base(b + t) == b && Extension(b + t) == if t == [] then [] else t[1..]
  {
    if b == [] {
      assert b + t == t;
    } else {
      assert (b + t)[1..] == b[1..] + t;
      assert b[0] in b;
      BaseOf(b[1..], t);
    }
  }
}
