/** Which directories paths lead to. A rename may put a directory below itself, and then no path leads
    to it any more: it can be found again exactly when its new place can be reached without it. */
module Fat32Reach {
  import opened Basics
  import opened Fat32Layout
  import opened Fat32Chain
  import opened Fat32Directory
  import opened Fat32Tree
  import opened Fat32Store
  import opened Fat32Names
  import opened Fat32FileSystem
  import opened Fat32Runs

  ghost predicate Reachable(m: Store, root: nat, c: nat) {
    root in m && exists path: seq<Word> :: Resolved(m, root, path) == Some(c)
  }

  /** The directory that one name leads to. */
  ghost function Into(m: Store, d: nat, w: Word): Option<nat>
    requires d in m
  {
    var node := View(m, d, DosName(w));
    if node.Folder? && node.cluster in m then Some(node.cluster) else None
  }

  /** The path leads from d to e, past nothing that is a, not even at its ends. */
  ghost predicate Around(m: Store, d: nat, path: seq<Word>, a: nat, e: nat)
    decreases |path|
  {
    && d in m && d != a
    && if path == [] then d == e
       else Into(m, d, path[0]).Some? && Around(m, Into(m, d, path[0]).value, path[1..], a, e)
  }

  /** The same, and e is only met at the end. */
  ghost predicate Direct(m: Store, d: nat, path: seq<Word>, a: nat, e: nat)
    decreases |path|
  {
    && d in m && d != a
    && if path == [] then d == e
       else d != e && Into(m, d, path[0]).Some? && Direct(m, Into(m, d, path[0]).value, path[1..], a, e)
  }

  ghost predicate ReachableAround(m: Store, root: nat, a: nat, e: nat) {
    exists path: seq<Word> :: Around(m, root, path, a, e)
  }

  lemma {:induction false} Shorten(m: Store, d: nat, path: seq<Word>, a: nat, e: nat) returns (short: seq<Word>)
    requires Around(m, d, path, a, e)
    ensures Direct(m, d, short, a, e)
    decreases |path|
  {
    if d == e {
      short := [];
    } else {
      var rest := Shorten(m, Into(m, d, path[0]).value, path[1..], a, e);
      short := [path[0]] + rest;
      assert short[1..] == rest;
    }
  }

  /** A path to a comes, for the first time, out of some directory reached without it. */
  lemma {:induction false} FirstVisit(m: Store, d: nat, path: seq<Word>, a: nat) returns (before: seq<Word>, y: nat, w: Word)
    requires d in m && d != a && Resolved(m, d, path) == Some(a)
    ensures Around(m, d, before, a, y) && y in m && Into(m, y, w) == Some(a)
    decreases |path|
  {
    var c := Into(m, d, path[0]).value;
    if c == a {
      before, y, w := [], d, path[0];
    } else {
      var rest;
      rest, y, w := FirstVisit(m, c, path[1..], a);
      before := [path[0]] + rest;
      assert before[1..] == rest;
    }
  }

  lemma {:induction false} GoOn(m: Store, d: nat, path: seq<Word>, a: nat, y: nat, w: Word)
    requires Direct(m, d, path, a, y) && y in m && Into(m, y, w).Some?
    ensures Resolved(m, d, path + [w]) == Into(m, y, w)
    decreases |path|
  {
    if path == [] {
      assert path + [w] == [w] && (path + [w])[1..] == [];
    } else {
      assert (path + [w])[1..] == path[1..] + [w];
      GoOn(m, Into(m, d, path[0]).value, path[1..], a, y, w);
    }
  }

  /** A directory has one place. */
  lemma FolderOnce(m: Store, dirs: set<nat>, root: nat, d: nat, n: Name, d': nat, n': Name, c: nat)
    requires TreeOk(m, dirs, root) && d in dirs && d' in dirs && Proper(n) && Proper(n')
    requires View(m, d, n) == Folder(c) && View(m, d', n') == Folder(c)
    ensures d == d' && n == n' && c != root && c in dirs
  {
    hide DirOk, Slots, Lookup;
    var e, e' := Lookup(Slots(m[d]), n).value, Lookup(Slots(m[d']), n').value;
    var k := LookupOwner(m, dirs, root, d, n, e);
    var k' := LookupOwner(m, dirs, root, d', n', e');
    assert EntryOk(m, dirs, root, EntryAt(m, d, k));
    assert EntryAt(m, d, k) == e && EntryAt(m, d', k') == e' && !Separate(e, e');
  }

  lemma StepInside(m: Store, dirs: set<nat>, root: nat, d: nat, w: Word)
    requires TreeOk(m, dirs, root) && d in dirs && d in m && Into(m, d, w).Some?
    ensures Into(m, d, w).value in dirs && Proper(DosName(w))
  {
    hide NoSharing, DirOk, Slots, Lookup, DosName;
    DosNameProper(w);
    FolderOnce(m, dirs, root, d, DosName(w), d, DosName(w), Into(m, d, w).value);
  }

  /** The move of directory c from name n of d to name n' of d', on names. */
  ghost predicate Moved(m: Store, dirs: set<nat>, root: nat, c: nat, d: nat, n: Name, d': nat, n': Name, m': Store) {
    && TreeOk(m, dirs, root) && TreeOk(m', dirs, root) && Proper(n) && Proper(n') && (d != d' || n != n')
    && d in m && View(m, d, n) == Folder(c) && Renamed(m, dirs, d, n, d', n', m')
  }

  /** A step that neither comes out of the new place nor leads to c is the same before and after. */
  lemma SameStep(m: Store, dirs: set<nat>, root: nat, c: nat, d: nat, n: Name, d': nat, n': Name, m': Store, x: nat, w: Word)
    requires Moved(m, dirs, root, c, d, n, d', n', m') && x in dirs && x in m && x in m'
    ensures (x, DosName(w)) != (d', n') && Into(m, x, w) != Some(c) ==> Into(m', x, w) == Into(m, x, w)
    ensures Into(m', x, w) != Some(c) && Into(m', x, w).Some? ==> Into(m, x, w) == Into(m', x, w)
    ensures Into(m', x, w) == Some(c) ==> x == d' && DosName(w) == n' && n'[0] != DELETED
  {
    hide Slots, Lookup, DosName, NoSharing, DirOk, EntryOk, HoleBefore, NodeOf;
    DosNameProper(w);
    if View(m, x, DosName(w)).Folder? {
      var a := View(m, x, DosName(w)).cluster;
      FolderOnce(m, dirs, root, x, DosName(w), x, DosName(w), a);
      if a == c { FolderOnce(m, dirs, root, x, DosName(w), d, n, c); }
    }
    FolderOnce(m, dirs, root, d, n, d, n, c);
  }

  lemma {:induction false} CarryOver(m: Store, dirs: set<nat>, root: nat, c: nat, d: nat, n: Name, d': nat, n': Name, m': Store,
                                     x: nat, path: seq<Word>)
    requires Moved(m, dirs, root, c, d, n, d', n', m') && x in dirs && Direct(m, x, path, c, d')
    ensures Direct(m', x, path, c, d')
    decreases |path|
  {
    hide Slots, Lookup, DosName, NoSharing, DirOk, EntryOk, Into, Renamed;
    assert dirs <= m'.Keys;
    if path != [] {
      SameStep(m, dirs, root, c, d, n, d', n', m', x, path[0]);
      StepInside(m, dirs, root, x, path[0]);
      CarryOver(m, dirs, root, c, d, n, d', n', m', Into(m, x, path[0]).value, path[1..]);
    }
  }

  lemma {:induction false} CarryBack(m: Store, dirs: set<nat>, root: nat, c: nat, d: nat, n: Name, d': nat, n': Name, m': Store,
                                     x: nat, path: seq<Word>, y: nat)
    requires Moved(m, dirs, root, c, d, n, d', n', m') && x in dirs && Around(m', x, path, c, y)
    ensures Around(m, x, path, c, y) && y in dirs
    decreases |path|
  {
    hide Slots, Lookup, DosName, NoSharing, DirOk, EntryOk, Into, Renamed;
    assert dirs <= m.Keys;
    if path != [] {
      SameStep(m, dirs, root, c, d, n, d', n', m', x, path[0]);
      StepInside(m', dirs, root, x, path[0]);
      CarryBack(m, dirs, root, c, d, n, d', n', m', Into(m', x, path[0]).value, path[1..], y);
    }
  }

  /** A directory that was moved can be reached from the root exactly when the directory it was put into
      could be reached without passing it, and its new name is one that lookups see. */
  lemma MovedReachable(m: Store, dirs: set<nat>, root: nat, c: nat, d: nat, n: Name, d': nat, w': Word, m': Store)
    requires Moved(m, dirs, root, c, d, n, d', DosName(w'), m')
    ensures Reachable(m', root, c) <==> DosName(w')[0] != DELETED && ReachableAround(m, root, c, d')
  {
    hide Slots, Lookup, DosName, NoSharing, DirOk, EntryOk, Direct, Around, Resolved;
    FolderOnce(m, dirs, root, d, n, d, n, c);
    var n' := DosName(w');
    if Reachable(m', root, c) {
      var path :| Resolved(m', root, path) == Some(c);
      var before, y, w := FirstVisit(m', root, path, c);
      CarryBack(m, dirs, root, c, d, n, d', n', m', root, before, y);
      SameStep(m, dirs, root, c, d, n, d', n', m', y, w);
    }
    if n'[0] != DELETED && ReachableAround(m, root, c, d') {
      var path :| Around(m, root, path, c, d');
      var short := Shorten(m, root, path, c, d');
      CarryOver(m, dirs, root, c, d, n, d', n', m', root, short);
      GoOn(m', root, short, c, d', w');
      assert Resolved(m', root, short + [w']) == Some(c);
    }
  }

  /** That is what a rename command of a run does to a directory, unless the volume is full. */
  lemma RenameReachable(g: Geometry, root: nat, s: Snapshot, cmd: Command, s': Snapshot, d: nat, d': nat, c: nat)
    requires Sane(g, root, s) && Sane(g, root, s') && Effect(g, root, s, cmd, s') && cmd.Rename? && !Full(g, s')
    requires Resolved(Files(g, root, s), root, cmd.path) == Some(d) && Resolved(Files(g, root, s), root, cmd.path') == Some(d')
    requires View(Files(g, root, s), d, DosName(cmd.name)) == Folder(c) && (d != d' || DosName(cmd.name) != DosName(cmd.name'))
    ensures Reachable(Files(g, root, s'), root, c) <==>
              DosName(cmd.name')[0] != DELETED && ReachableAround(Files(g, root, s), root, c, d')
  {
    hide TreeOk, Slots, Lookup, DosName, Resolved, Renamed, Reachable, ReachableAround, FullBelow, ImageOk;
    DosNameProper(cmd.name);
    DosNameProper(cmd.name');
    MovedReachable(Files(g, root, s), s.dirs, root, c, d, DosName(cmd.name), d', cmd.name', Files(g, root, s'));
  }

  /** So a directory put into itself is lost, with all that is in it. */
  lemma IntoItself(m: Store, dirs: set<nat>, root: nat, c: nat, d: nat, n: Name, w': Word, m': Store)
    requires Moved(m, dirs, root, c, d, n, c, DosName(w'), m')
    ensures !Reachable(m', root, c)
  {
    hide DosName, Moved;
    MovedReachable(m, dirs, root, c, d, n, c, w', m');
    if ReachableAround(m, root, c, c) {
      var path :| Around(m, root, path, c, c);
      EndsApart(m, root, path, c, c);
    }
  }

  lemma {:induction false} EndsApart(m: Store, d: nat, path: seq<Word>, a: nat, e: nat)
    requires Around(m, d, path, a, e)
    ensures e != a
    decreases |path|
  {
    if path != [] { EndsApart(m, Into(m, d, path[0]).value, path[1..], a, e); }
  }
}
