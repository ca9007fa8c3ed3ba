/** The files and directories of a volume as byte strings by first cluster, the invariant that
    ties directory entries to them, and what each operation does to every name. */
module Fat32Tree {
  import opened Basics
  import opened Fat32Directory

  /** First cluster of each live chain to the chain's bytes. */
  type Store = map<nat, seq<Byte>>

  /** An entry that names a file or directory of its own, so not "." or "..". */
  predicate Ordinary(e: Entry32) { Visible(e) && e[0] != DOT }

  ghost predicate Owner(m: Store, dirs: set<nat>, d: nat, k: nat) {
    d in dirs && d in m && k < |m[d]| / 32 && Ordinary(Slots(m[d])[k])
  }

  ghost function EntryAt(m: Store, d: nat, k: nat): Entry32
    requires d in m && k < |m[d]| / 32
  {
    Slots(m[d])[k]
  }

  /** An entry without a cluster is an empty file; any other has a chain that is a directory exactly when
      the entry says so. */
  ghost predicate EntryOk(m: Store, dirs: set<nat>, root: nat, e: Entry32) {
    var c := ClusterOf(e);
    if c == 0 then !IsDirectory(e) && SizeOf(e) == 0
    else c in m && c != root && (c in dirs <==> IsDirectory(e))
  }

  ghost predicate TreeOk(m: Store, dirs: set<nat>, root: nat) {
    && root in dirs && dirs <= m.Keys && 0 !in m
    && (forall d :: d in dirs ==> |m[d]| % 32 == 0 && DirOk(Slots(m[d])))
    && (forall d, k :: Owner(m, dirs, d, k) ==> EntryOk(m, dirs, root, EntryAt(m, d, k)))
    && NoSharing(m, dirs)
  }

  /** No two entries own the same chain. */
  ghost predicate NoSharing(m: Store, dirs: set<nat>) {
    forall d, k, d', k' ::
      Owner(m, dirs, d, k) && Owner(m, dirs, d', k') && (d != d' || k != k') ==> Separate(EntryAt(m, d, k), EntryAt(m, d', k'))
  }

  ghost predicate Separate(e: Entry32, e': Entry32) {
    ClusterOf(e) == 0 || ClusterOf(e) != ClusterOf(e')
  }

  /** No entry owns chain c. */
  ghost predicate Unowned(m: Store, dirs: set<nat>, c: nat) {
    forall d, k :: Owner(m, dirs, d, k) ==> ClusterOf(EntryAt(m, d, k)) != c
  }

  /** What a name stands for: nothing, a directory's first cluster, or a file's bytes and length. The
      bytes are as many as the length says, unless the chain is shorter. */
  datatype Node = Missing | Folder(cluster: nat) | File(bytes: seq<Byte>, length: nat)

  /** A file has as many bytes as its length says. */
  predicate Honest(node: Node) { node.File? ==> |node.bytes| == node.length }

  ghost function NodeOf(m: Store, e: Entry32): Node {
    if IsDirectory(e) then Folder(ClusterOf(e))
    else File(if ClusterOf(e) in m then Prefix(m[ClusterOf(e)], SizeOf(e)) else [], SizeOf(e))
  }

  /** The first n bytes, or all when there are fewer. */
  function Prefix(b: seq<Byte>, n: nat): seq<Byte> { if n <= |b| then b[..n] else b }

  ghost function View(m: Store, d: nat, n: Name): Node
    requires d in m
  {
    match Lookup(Slots(m[d]), n)
    case None => Missing
    case Some(e) => NodeOf(m, e)
  }

  /** The names that paths can spell never start with a dot. */
  predicate Proper(n: Name) { n[0] != DOT }

  lemma LookupOwner(m: Store, dirs: set<nat>, root: nat, d: nat, n: Name, e: Entry32) returns (k: nat)
    requires TreeOk(m, dirs, root) && d in dirs && Proper(n) && Lookup(Slots(m[d]), n) == Some(e)
    ensures Owner(m, dirs, d, k) && EntryAt(m, d, k) == e && NameOf(e) == n && At(Slots(m[d]), k, n)
  {
    var s := Slots(m[d]);
    var j :| At(s, j, n) && s[j] == e;
    k := j;
  }

  /** Directory d's bytes after slot k was rewritten to e. */
  ghost predicate SlotSet(b: seq<Byte>, k: nat, e: Entry32, b': seq<Byte>) {
    |b'| == |b| && k < |b| / 32 && Slots(b') == Slots(b)[k := e]
  }

  /** Every name of every directory but name n of directory d stands for what it did. */
  ghost predicate OthersSame(m: Store, dirs: set<nat>, m': Store, dirs': set<nat>, d: nat, n: Name) {
    forall d', n': Name :: d' in dirs && d' in dirs' && d' in m && d' in m' && Proper(n') && (d' != d || n' != n) ==>
      View(m', d', n') == View(m, d', n')
  }

  ghost predicate AllSame(m: Store, dirs: set<nat>, m': Store, dirs': set<nat>) {
    forall d', n': Name :: d' in dirs && d' in dirs' && d' in m && d' in m' && Proper(n') ==> View(m', d', n') == View(m, d', n')
  }

  /** Appending end markers to a directory changes no name. */
  lemma GrowStep(m: Store, dirs: set<nat>, root: nat, d: nat, z: seq<Byte>)
    requires TreeOk(m, dirs, root) && d in dirs && |z| % 32 == 0 && forall i :: 0 <= i < |z| ==> z[i] == 0
    ensures TreeOk(m[d := m[d] + z], dirs, root)
    ensures AllSame(m, dirs, m[d := m[d] + z], dirs)
  {
    var m' := m[d := m[d] + z];
    assert dirs <= m.Keys;
    SlotsGrow(m[d], z);
    GrowNames(Slots(m[d]), Slots(m'[d]));
    GrowOwners(m, dirs, root, d, m[d] + z);
    hide TreeOk, DirOk, Lookup;
    forall d', n': Name | d' in dirs && Proper(n')
      ensures View(m', d', n') == View(m, d', n')
    {
      GrownView(m, dirs, root, d, m[d] + z, d', n');
    }
  }

  lemma GrownView(m: Store, dirs: set<nat>, root: nat, d: nat, b': seq<Byte>, d': nat, n: Name)
    requires TreeOk(m, dirs, root) && d in dirs && d' in dirs && Proper(n)
    requires Lookup(Slots(b'), n) == Lookup(Slots(m[d]), n)
    ensures d' in m && View(m[d := b'], d', n) == View(m, d', n)
  {
    NodeSame(m, dirs, root, m[d := b'], dirs, d', n);
  }

  lemma GrowOwners(m: Store, dirs: set<nat>, root: nat, d: nat, b': seq<Byte>)
    requires TreeOk(m, dirs, root) && d in dirs && |m[d]| <= |b'| && |b'| % 32 == 0 && DirOk(Slots(b'))
    requires forall j :: 0 <= j < |m[d]| / 32 ==> Slots(b')[j] == Slots(m[d])[j]
    requires forall j :: |m[d]| / 32 <= j < |b'| / 32 ==> IsEnd(Slots(b')[j])
    ensures TreeOk(m[d := b'], dirs, root)
  {
    var m' := m[d := b'];
    assert forall d', k :: Owner(m', dirs, d', k) ==> Owner(m, dirs, d', k) && EntryAt(m', d', k) == EntryAt(m, d', k);
  }

  /** A name whose entry is unchanged stands for the same thing when its own bytes are unchanged. */
  lemma NodeSame(m: Store, dirs: set<nat>, root: nat, m': Store, dirs': set<nat>, d: nat, n: Name)
    requires TreeOk(m, dirs, root) && d in dirs && d in m' && Proper(n)
    requires Lookup(Slots(m'[d]), n) == Lookup(Slots(m[d]), n)
    requires forall k :: Owner(m, dirs, d, k) && NameOf(EntryAt(m, d, k)) == n && !IsDirectory(EntryAt(m, d, k)) ==>
               SameBytes(m, m', ClusterOf(EntryAt(m, d, k)))
    ensures View(m', d, n) == View(m, d, n)
  {
    match Lookup(Slots(m[d]), n)
    case None =>
    case Some(e) =>
      var k := LookupOwner(m, dirs, root, d, n, e);
  }

  ghost predicate SameBytes(m: Store, m': Store, c: nat) {
    c == 0 || (c in m && c in m' && m'[c] == m[c])
  }

  /** A new ordinary entry in a free slot. */
  lemma InsertStep(m: Store, dirs: set<nat>, root: nat, d: nat, k: nat, e: Entry32, b': seq<Byte>)
    requires TreeOk(m, dirs, root) && d in dirs && Fillable(Slots(m[d]), k) && SlotSet(m[d], k, e, b')
    requires Ordinary(e) && Lookup(Slots(m[d]), NameOf(e)) == None
    requires EntryOk(m, dirs, root, e) && (ClusterOf(e) == 0 || Unowned(m, dirs, ClusterOf(e)))
    ensures TreeOk(m[d := b'], dirs, root)
    ensures View(m[d := b'], d, NameOf(e)) == NodeOf(m, e)
    ensures OthersSame(m, dirs, m[d := b'], dirs, d, NameOf(e))
  {
    var m' := m[d := b'];
    InsertName(Slots(m[d]), k, e);
    InsertOwners(m, dirs, root, d, k, e, b');
    forall d', n': Name | d' in dirs && Proper(n') && (d' != d || n' != NameOf(e))
      ensures View(m', d', n') == View(m, d', n')
    {
      NodeSame(m, dirs, root, m', dirs, d', n');
    }
  }

  lemma InsertOwners(m: Store, dirs: set<nat>, root: nat, d: nat, k: nat, e: Entry32, b': seq<Byte>)
    requires TreeOk(m, dirs, root) && d in dirs && k < |m[d]| / 32 && !Ordinary(Slots(m[d])[k])
    requires SlotSet(m[d], k, e, b') && DirOk(Slots(b'))
    requires EntryOk(m, dirs, root, e) && (ClusterOf(e) == 0 || Unowned(m, dirs, ClusterOf(e)))
    ensures TreeOk(m[d := b'], dirs, root)
  {
    var m' := m[d := b'];
    forall d', k' | Owner(m', dirs, d', k')
      ensures EntryOk(m', dirs, root, EntryAt(m', d', k'))
      ensures d' != d || k' != k ==> Owner(m, dirs, d', k') && EntryAt(m', d', k') == EntryAt(m, d', k')
    {
      if d' != d || k' != k {
        assert Owner(m, dirs, d', k');
      }
    }
  }

  lemma KeepOwners(m: Store, dirs: set<nat>, root: nat, d: nat, k: nat, e: Entry32, b': seq<Byte>)
    requires TreeOk(m, dirs, root) && Owner(m, dirs, d, k) && IsDeleted(e) && SlotSet(m[d], k, e, b') && DirOk(Slots(b'))
    ensures TreeOk(m[d := b'], dirs, root)
    ensures ClusterOf(EntryAt(m, d, k)) != 0 ==> Unowned(m[d := b'], dirs, ClusterOf(EntryAt(m, d, k)))
  {
    var m' := m[d := b'];
    forall d', k' | Owner(m', dirs, d', k')
      ensures (d' != d || k' != k) && Owner(m, dirs, d', k') && EntryAt(m', d', k') == EntryAt(m, d', k')
    {}
    forall d', k' | Owner(m', dirs, d', k')
      ensures Separate(EntryAt(m, d, k), EntryAt(m', d', k'))
    {}
  }

  /** Marking an entry deleted, its chain left behind unowned. */
  lemma KeepStep(m: Store, dirs: set<nat>, root: nat, d: nat, k: nat, e: Entry32, b': seq<Byte>)
    requires TreeOk(m, dirs, root) && Owner(m, dirs, d, k) && IsDeleted(e) && SlotSet(m[d], k, e, b')
    ensures TreeOk(m[d := b'], dirs, root)
    ensures View(m[d := b'], d, NameOf(EntryAt(m, d, k))) == Missing
    ensures Lookup(Slots(b'), NameOf(EntryAt(m, d, k))) == None
    ensures OthersSame(m, dirs, m[d := b'], dirs, d, NameOf(EntryAt(m, d, k)))
    ensures ClusterOf(EntryAt(m, d, k)) != 0 ==> Unowned(m[d := b'], dirs, ClusterOf(EntryAt(m, d, k)))
  {
    var m' := m[d := b'];
    RemoveName(Slots(m[d]), k, e);
    KeepOwners(m, dirs, root, d, k, e, b');
    hide DirOk, Lookup, NoSharing;
    forall d', n': Name | d' in dirs && Proper(n') && (d' != d || n' != NameOf(EntryAt(m, d, k)))
      ensures View(m', d', n') == View(m, d', n')
    {
      NodeSame(m, dirs, root, m', dirs, d', n');
    }
  }

  /** Forgetting a chain that no entry owns, or only one of its own. */
  lemma DropStep(m: Store, dirs: set<nat>, root: nat, c: nat)
    requires TreeOk(m, dirs, root) && c != root
    requires forall d, k :: Owner(m, dirs, d, k) && d != c ==> ClusterOf(EntryAt(m, d, k)) != c
    ensures TreeOk(m - {c}, dirs - {c}, root)
    ensures AllSame(m, dirs, m - {c}, dirs - {c})
  {
    var m', dirs' := m - {c}, dirs - {c};
    assert forall d, k :: Owner(m', dirs', d, k) ==> Owner(m, dirs, d, k) && EntryAt(m', d, k) == EntryAt(m, d, k);
    forall d', n': Name | d' in dirs' && Proper(n')
      ensures View(m', d', n') == View(m, d', n')
    {
      NodeSame(m, dirs, root, m', dirs', d', n');
    }
  }

  /** A new file chain that no entry owns yet. */
  lemma AddChainStep(m: Store, dirs: set<nat>, root: nat, c: nat, bytes: seq<Byte>)
    requires TreeOk(m, dirs, root) && c !in m && c != 0
    ensures TreeOk(m[c := bytes], dirs, root)
    ensures Unowned(m[c := bytes], dirs, c)
    ensures AllSame(m, dirs, m[c := bytes], dirs)
  {
    var m' := m[c := bytes];
    assert forall d, k :: Owner(m', dirs, d, k) ==> Owner(m, dirs, d, k) && EntryAt(m', d, k) == EntryAt(m, d, k);
    forall d', n': Name | d' in dirs && Proper(n')
      ensures View(m', d', n') == View(m, d', n')
    {
      NodeSame(m, dirs, root, m', dirs, d', n');
    }
  }

  /** A new directory chain that holds no ordinary entry. */
  lemma AddFolderStep(m: Store, dirs: set<nat>, root: nat, c: nat, bytes: seq<Byte>)
    requires TreeOk(m, dirs, root) && c !in m && c != 0 && |bytes| % 32 == 0 && DirOk(Slots(bytes))
    requires forall k :: 0 <= k < |bytes| / 32 ==> !Ordinary(Slots(bytes)[k])
    ensures TreeOk(m[c := bytes], dirs + {c}, root)
    ensures Unowned(m[c := bytes], dirs + {c}, c)
    ensures AllSame(m, dirs, m[c := bytes], dirs + {c})
  {
    var m', dirs' := m[c := bytes], dirs + {c};
    assert forall d, k :: Owner(m', dirs', d, k) ==> d != c && Owner(m, dirs, d, k) && EntryAt(m', d, k) == EntryAt(m, d, k);
    forall d', n': Name | d' in dirs && Proper(n')
      ensures View(m', d', n') == View(m, d', n')
    {
      NodeSame(m, dirs, root, m', dirs', d', n');
    }
  }

  /** A file's bytes and its entry change together. */
  lemma WriteStep(m: Store, dirs: set<nat>, root: nat, d: nat, k: nat, e: Entry32, b': seq<Byte>, bytes: seq<Byte>)
    requires TreeOk(m, dirs, root) && Owner(m, dirs, d, k) && SlotSet(m[d], k, e, b')
    requires !IsDirectory(EntryAt(m, d, k)) && !IsDirectory(e) && Ordinary(e) && NameOf(e) == NameOf(EntryAt(m, d, k))
    requires ClusterOf(e) != 0 && ClusterOf(e) in m && ClusterOf(e) !in dirs
    requires ClusterOf(e) == ClusterOf(EntryAt(m, d, k)) || (ClusterOf(EntryAt(m, d, k)) == 0 && Unowned(m, dirs, ClusterOf(e)))
    ensures var m' := m[ClusterOf(e) := bytes][d := b'];
            && TreeOk(m', dirs, root)
            && View(m', d, NameOf(e)) == File(Prefix(bytes, SizeOf(e)), SizeOf(e))
            && OthersSame(m, dirs, m', dirs, d, NameOf(e))
  {
    var c := ClusterOf(e);
    var m' := m[c := bytes][d := b'];
    ReplaceEntry(Slots(m[d]), k, e);
    WriteOwners(m, dirs, root, d, k, e, b', bytes);
    forall d', n': Name | d' in dirs && Proper(n') && (d' != d || n' != NameOf(e))
      ensures View(m', d', n') == View(m, d', n')
    {
      NodeSame(m, dirs, root, m', dirs, d', n');
    }
  }

  lemma WriteOwners(m: Store, dirs: set<nat>, root: nat, d: nat, k: nat, e: Entry32, b': seq<Byte>, bytes: seq<Byte>)
    requires TreeOk(m, dirs, root) && Owner(m, dirs, d, k) && SlotSet(m[d], k, e, b') && DirOk(Slots(b'))
    requires !IsDirectory(EntryAt(m, d, k)) && !IsDirectory(e) && Ordinary(e)
    requires ClusterOf(e) != 0 && ClusterOf(e) in m && ClusterOf(e) !in dirs
    requires ClusterOf(e) == ClusterOf(EntryAt(m, d, k)) || (ClusterOf(EntryAt(m, d, k)) == 0 && Unowned(m, dirs, ClusterOf(e)))
    ensures TreeOk(m[ClusterOf(e) := bytes][d := b'], dirs, root)
    ensures forall d', k' :: Owner(m, dirs, d', k') && (d' != d || k' != k) ==> ClusterOf(EntryAt(m, d', k')) != ClusterOf(e)
  {
    var c := ClusterOf(e);
    var m' := m[c := bytes][d := b'];
    forall d', k' | Owner(m, dirs, d', k') && (d' != d || k' != k)
      ensures ClusterOf(EntryAt(m, d', k')) != c
    {
      assert Separate(EntryAt(m, d, k), EntryAt(m, d', k'));
    }
    forall d', k' | Owner(m', dirs, d', k')
      ensures EntryOk(m', dirs, root, EntryAt(m', d', k'))
      ensures Owner(m, dirs, d', k')
      ensures d' != d || k' != k ==> EntryAt(m', d', k') == EntryAt(m, d', k')
    {
      assert Owner(m, dirs, d', k');
    }
  }

  /** Putting a deleted entry into a free slot changes no name. */
  lemma BlankStep(m: Store, dirs: set<nat>, root: nat, d: nat, k: nat, e: Entry32, b': seq<Byte>)
    requires TreeOk(m, dirs, root) && d in dirs && Fillable(Slots(m[d]), k) && IsDeleted(e) && SlotSet(m[d], k, e, b')
    ensures TreeOk(m[d := b'], dirs, root)
    ensures AllSame(m, dirs, m[d := b'], dirs)
  {
    var m', s, s' := m[d := b'], Slots(m[d]), Slots(b');
    BlankNames(s, k, e);
    BlankOwners(m, dirs, root, d, k, e, b');
    hide DirOk, Lookup, NoSharing;
    forall d', n': Name | d' in dirs && Proper(n')
      ensures View(m', d', n') == View(m, d', n')
    {
      NodeSame(m, dirs, root, m', dirs, d', n');
    }
  }

  lemma BlankNames(s: seq<Entry32>, k: nat, e: Entry32)
    requires DirOk(s) && Fillable(s, k) && IsDeleted(e)
    ensures DirOk(s[k := e]) && forall n: Name :: Lookup(s[k := e], n) == Lookup(s, n)
  {
    forall n: Name
      ensures Lookup(s[k := e], n) == Lookup(s, n)
    {
      LookupSame(s, s[k := e], n);
    }
  }

  lemma BlankOwners(m: Store, dirs: set<nat>, root: nat, d: nat, k: nat, e: Entry32, b': seq<Byte>)
    requires TreeOk(m, dirs, root) && d in dirs && IsDeleted(e) && SlotSet(m[d], k, e, b') && DirOk(Slots(b'))
    ensures TreeOk(m[d := b'], dirs, root)
  {
    var m' := m[d := b'];
    forall d', k' | Owner(m', dirs, d', k')
      ensures Owner(m, dirs, d', k') && EntryAt(m', d', k') == EntryAt(m, d', k')
    {}
  }

  lemma SameThenOthers(m: Store, m1: Store, m2: Store, dirs: set<nat>, dirs1: set<nat>, dirs2: set<nat>, d: nat, n: Name)
    requires AllSame(m, dirs, m1, dirs1) && OthersSame(m1, dirs1, m2, dirs2, d, n)
    requires dirs * dirs2 <= dirs1 && dirs1 <= m1.Keys
    ensures OthersSame(m, dirs, m2, dirs2, d, n)
  {}

  lemma OthersThenSame(m: Store, m1: Store, m2: Store, dirs: set<nat>, dirs1: set<nat>, dirs2: set<nat>, d: nat, n: Name)
    requires OthersSame(m, dirs, m1, dirs1, d, n) && AllSame(m1, dirs1, m2, dirs2)
    requires dirs * dirs2 <= dirs1 && dirs1 <= m1.Keys
    ensures OthersSame(m, dirs, m2, dirs2, d, n)
  {}

  lemma SameThenSame(m: Store, m1: Store, m2: Store, dirs: set<nat>, dirs1: set<nat>, dirs2: set<nat>)
    requires AllSame(m, dirs, m1, dirs1) && AllSame(m1, dirs1, m2, dirs2)
    requires dirs * dirs2 <= dirs1 && dirs1 <= m1.Keys
    ensures AllSame(m, dirs, m2, dirs2)
  {}
}
