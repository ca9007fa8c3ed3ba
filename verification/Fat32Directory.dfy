/** Directory slots: which entry a name finds, and what inserting, replacing, deleting and
    growing do to every name. */
module Fat32Directory {
  import opened Basics
  import Fat32Layout
  import opened Fat32Chain

  /** A 32-byte directory entry and an 11-byte 8.3 name. */
  type Entry32 = e: seq<Byte> | |e| == 32 witness seq(32, _ => 0)
  type Name = n: seq<Byte> | |n| == 11 witness seq(11, _ => 0)

  const END: int := 0x00
  const DELETED: int := 0xE5
  const DOT: int := 0x2E
  const ATTR_DIRECTORY: int := 0x10

  function NameOf(e: Entry32): Name { e[..11] }

  predicate IsEnd(e: Entry32) { e[0] == END }
  predicate IsDeleted(e: Entry32) { e[0] == DELETED }

  /** None of the four low attribute bits: so no volume label, no part of a long name, and nothing that is
      read-only, hidden or a system file either. */
  predicate Plain(e: Entry32) { e[11] % 16 == 0 }

  predicate Visible(e: Entry32) { !IsEnd(e) && !IsDeleted(e) && Plain(e) }

  predicate IsDirectory(e: Entry32) { (e[11] as int) / ATTR_DIRECTORY % 2 == 1 }

  function ClusterOf(e: Entry32): nat {
    ((e[20] as int) + 256 * (e[21] as int)) * 65536 + ((e[26] as int) + 256 * (e[27] as int))
  }

  function SizeOf(e: Entry32): nat {
    (e[28] as int) + 256 * (e[29] as int) + 65536 * (e[30] as int) + 16777216 * (e[31] as int)
  }

  function WithCluster(e: Entry32, c: nat): Entry32 {
    e[20 := c / 65536 % 256][21 := c / 16777216 % 256][26 := c % 256][27 := c / 256 % 256]
  }

  function WithSize(e: Entry32, n: nat): Entry32 {
    e[28 := n % 256][29 := n / 256 % 256][30 := n / 65536 % 256][31 := n / 16777216 % 256]
  }

  function WithName(e: Entry32, n: Name): Entry32 { n + e[11..] }

  function Deleted(e: Entry32): Entry32 { e[0 := DELETED] }

  lemma EntryFields(e: Entry32, c: nat, n: nat)
    requires c < 0x1_0000_0000 && n < 0x1_0000_0000
    ensures ClusterOf(WithCluster(e, c)) == c && SizeOf(WithCluster(e, c)) == SizeOf(e)
    ensures SizeOf(WithSize(e, n)) == n && ClusterOf(WithSize(e, n)) == ClusterOf(e)
    ensures NameOf(WithCluster(e, c)) == NameOf(e) && NameOf(WithSize(e, n)) == NameOf(e)
    ensures Visible(WithCluster(e, c)) == Visible(e) && Visible(WithSize(e, n)) == Visible(e)
    ensures IsDirectory(WithCluster(e, c)) == IsDirectory(e) && IsDirectory(WithSize(e, n)) == IsDirectory(e)
  {
    Fat32Layout.FourDigits(c);
    Fat32Layout.FourDigits(n);
  }

  lemma RenamedFields(e: Entry32, n: Name)
    ensures NameOf(WithName(e, n)) == n
    ensures ClusterOf(WithName(e, n)) == ClusterOf(e) && SizeOf(WithName(e, n)) == SizeOf(e)
    ensures IsDirectory(WithName(e, n)) == IsDirectory(e) && Plain(WithName(e, n)) == Plain(e)
  {}

  /** The slots of a directory's bytes. */
  ghost function Slots(b: seq<Byte>): (s: seq<Entry32>)
    ensures |s| == |b| / 32
    ensures forall k :: 0 <= k < |s| ==> s[k] == b[32 * k..32 * k + 32]
  {
    seq(|b| / 32, k requires 0 <= k < |b| / 32 => b[32 * k..32 * k + 32])
  }

  lemma SlotsWrite(b: seq<Byte>, k: nat, e: Entry32)
    requires k < |b| / 32
    ensures Slots(Splice(b, 32 * k, e)) == Slots(b)[k := e]
  {
    var b' := Splice(b, 32 * k, e);
    forall j | 0 <= j < |b| / 32
      ensures Slots(b')[j] == Slots(b)[k := e][j]
    {
      assert b'[32 * k..32 * k + 32] == e;
      if j < k {
        assert b'[32 * j..32 * j + 32] == b[32 * j..32 * j + 32];
      } else if j > k {
        assert b'[32 * j..32 * j + 32] == b[32 * j..32 * j + 32];
      }
    }
  }

  lemma SlotsGrow(b: seq<Byte>, z: seq<Byte>)
    requires |b| % 32 == 0 && |z| % 32 == 0 && forall i :: 0 <= i < |z| ==> z[i] == 0
    ensures |Slots(b + z)| >= |Slots(b)|
    ensures forall j :: 0 <= j < |Slots(b)| ==> Slots(b + z)[j] == Slots(b)[j]
    ensures forall j :: |Slots(b)| <= j < |Slots(b + z)| ==> IsEnd(Slots(b + z)[j])
  {
    forall j | 0 <= j < |Slots(b)|
      ensures Slots(b + z)[j] == Slots(b)[j]
    {
      assert (b + z)[32 * j..32 * j + 32] == b[32 * j..32 * j + 32];
    }
    forall j | |Slots(b)| <= j < |Slots(b + z)|
      ensures IsEnd(Slots(b + z)[j])
    {
      assert (b + z)[32 * j..32 * j + 32][0] == (b + z)[32 * j] == z[32 * j - |b|];
    }
  }

  /** A directory: end markers form a suffix, visible names are distinct. */
  ghost predicate DirOk(s: seq<Entry32>) {
    && (forall i, j :: 0 <= i < j < |s| && IsEnd(s[i]) ==> IsEnd(s[j]))
    && (forall i, j :: 0 <= i < j < |s| && Visible(s[i]) && Visible(s[j]) ==> NameOf(s[i]) != NameOf(s[j]))
  }

  predicate At(s: seq<Entry32>, k: int, n: Name) {
    0 <= k < |s| && Visible(s[k]) && NameOf(s[k]) == n
  }

  /** The entry that name n stands for. */
  ghost function Lookup(s: seq<Entry32>, n: Name): Option<Entry32> {
    if k :| At(s, k, n) then Some(s[k]) else None
  }

  lemma LookupAt(s: seq<Entry32>, n: Name, k: int)
    requires DirOk(s) && At(s, k, n)
    ensures Lookup(s, n) == Some(s[k])
  {}

  lemma LookupNone(s: seq<Entry32>, n: Name)
    requires forall k :: !At(s, k, n)
    ensures Lookup(s, n) == None
  {}

  /** Two slot arrays that show the same slots under every name but n agree on those names. */
  lemma LookupSame(s: seq<Entry32>, s': seq<Entry32>, n: Name)
    requires DirOk(s) && DirOk(s')
    requires forall k :: At(s, k, n) ==> At(s', k, n) && s'[k] == s[k]
    requires forall k :: At(s', k, n) ==> At(s, k, n)
    ensures Lookup(s', n) == Lookup(s, n)
  {
    if k :| At(s, k, n) {
      LookupAt(s, n, k);
      LookupAt(s', n, k);
    }
  }

  /** The first slot that is an end marker or deleted. */
  ghost predicate FirstFree(s: seq<Entry32>, k: nat) {
    && k < |s| && (IsEnd(s[k]) || IsDeleted(s[k]))
    && forall j :: 0 <= j < k ==> !IsEnd(s[j]) && !IsDeleted(s[j])
  }

  /** A free slot that only slots in use or deleted ones precede. */
  ghost predicate Fillable(s: seq<Entry32>, k: nat) {
    && k < |s| && (IsEnd(s[k]) || IsDeleted(s[k]))
    && forall j :: 0 <= j < k ==> !IsEnd(s[j])
  }

  /** Filling a free slot adds exactly its name. */
  lemma InsertName(s: seq<Entry32>, k: nat, e: Entry32)
    requires DirOk(s) && Fillable(s, k) && Visible(e) && Lookup(s, NameOf(e)) == None
    ensures DirOk(s[k := e])
    ensures Lookup(s[k := e], NameOf(e)) == Some(e)
    ensures forall n: Name :: n != NameOf(e) ==> Lookup(s[k := e], n) == Lookup(s, n)
  {
    var s' := s[k := e];
    forall j | 0 <= j < |s| && Visible(s[j])
      ensures NameOf(s[j]) != NameOf(e)
    {
      assert At(s, j, NameOf(s[j]));
    }
    assert DirOk(s');
    LookupAt(s', NameOf(e), k);
    forall n: Name | n != NameOf(e)
      ensures Lookup(s', n) == Lookup(s, n)
    {
      assert forall j :: At(s, j, n) ==> j != k;
      LookupSame(s, s', n);
    }
  }

  /** Rewriting a slot's other fields changes what its name stands for and nothing else. */
  lemma ReplaceEntry(s: seq<Entry32>, k: nat, e: Entry32)
    requires DirOk(s) && k < |s| && Visible(s[k]) && Visible(e) && NameOf(e) == NameOf(s[k])
    ensures DirOk(s[k := e])
    ensures Lookup(s[k := e], NameOf(e)) == Some(e)
    ensures forall n: Name :: n != NameOf(e) ==> Lookup(s[k := e], n) == Lookup(s, n)
  {
    var s' := s[k := e];
    LookupAt(s', NameOf(e), k);
    forall n: Name | n != NameOf(e)
      ensures Lookup(s', n) == Lookup(s, n)
    {
      LookupSame(s, s', n);
    }
  }

  /** Marking a slot deleted removes exactly its name. */
  lemma RemoveName(s: seq<Entry32>, k: nat, e: Entry32)
    requires DirOk(s) && k < |s| && Visible(s[k]) && IsDeleted(e)
    ensures DirOk(s[k := e])
    ensures Lookup(s[k := e], NameOf(s[k])) == None
    ensures forall n: Name :: n != NameOf(s[k]) ==> Lookup(s[k := e], n) == Lookup(s, n)
  {
    var s' := s[k := e];
    assert forall j :: !At(s', j, NameOf(s[k]));
    LookupNone(s', NameOf(s[k]));
    forall n: Name | n != NameOf(s[k])
      ensures Lookup(s', n) == Lookup(s, n)
    {
      LookupSame(s, s', n);
    }
  }

  /** Appending end markers changes no name. */
  lemma GrowNames(s: seq<Entry32>, s': seq<Entry32>)
    requires DirOk(s) && |s| <= |s'|
    requires forall j :: 0 <= j < |s| ==> s'[j] == s[j]
    requires forall j :: |s| <= j < |s'| ==> IsEnd(s'[j])
    ensures DirOk(s')
    ensures forall n: Name :: Lookup(s', n) == Lookup(s, n)
  {
    forall n: Name
      ensures Lookup(s', n) == Lookup(s, n)
    {
      LookupSame(s, s', n);
    }
  }
}
